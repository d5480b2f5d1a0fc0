/**
 * The values every stage of the batch client passes around: optional
 * values, results with an error side, and the per-file outcome records
 * the final report is made of.
 */
module Records {

  datatype Option<T> = None | Some(value: T)

  datatype Result<T, E> = Ok(value: T) | Err(error: E)

  /** Python truthiness of an optional string: present and not empty. */
  predicate Truthy(s: Option<string>) {
    s.Some? && s.value != []
  }

  /** The pipeline stage an outcome record belongs to. */
  datatype Stage = Upload | Convert | Download

  datatype Status = Success | Error

  /** The fixed messages of the records; the library's exception text that
      some of them carry is not modelled. */
  datatype Message =
    | Uploaded                 // the PUT succeeded
    | NoUploadUrl              // no (or an empty) upload URL for the file
    | UploadFailed             // the PUT raised a request exception
    | NoHtmlInArchive          // the archive holds no .html file
    | NoMarkdownInArchive      // the archive holds no .md file
    | Saved(document: string)  // the document was saved under this name
    | DownloadFailed           // fetching the archive raised a request exception
    | ProcessingFailed         // any other exception while handling the archive
    | DoneWithoutUrl           // state "done" without a full_zip_url
    | RemoteError(text: string) // state "failed" with this err_msg
    | UnknownError             // state "failed" without an err_msg
    | TimedOut                 // still pending when the deadline passed

  /** One record of the report: `{"file", "stage", "status", "message"}`. */
  datatype FileOutcome = FileOutcome(file: string, stage: Stage, status: Status, message: Message)

  /** The number of success records. */
  function CountSuccess(details: seq<FileOutcome>): (n: nat)
    ensures n <= |details|
  {
    if details == [] then 0
    else CountSuccess(details[..|details| - 1]) + (if details[|details| - 1].status == Success then 1 else 0)
  }

  /** `[item["file"] for item in details if item["status"] == "success"]`. */
  function SuccessfulFiles(details: seq<FileOutcome>): (r: seq<string>)
  {
    if details == [] then []
    else
      var last := details[|details| - 1];
      SuccessfulFiles(details[..|details| - 1]) + (if last.status == Success then [last.file] else [])
  }

  /** The file list the orchestrator hands to the poller has one name per
      success record, so its length is the `uploaded` count. */
  lemma {:induction false} SuccessfulFilesCount(details: seq<FileOutcome>)
    ensures |SuccessfulFiles(details)| == CountSuccess(details)
    ensures forall x :: x in SuccessfulFiles(details) ==>
      exists i :: 0 <= i < |details| && details[i].file == x && details[i].status == Success
  {
    if details != [] {
      var init := details[..|details| - 1];
      SuccessfulFilesCount(init);
      forall x | x in SuccessfulFiles(details)
        ensures exists i :: 0 <= i < |details| && details[i].file == x && details[i].status == Success
      {
        if x in SuccessfulFiles(init) {
          var i :| 0 <= i < |init| && init[i].file == x && init[i].status == Success;
          assert details[i] == init[i];
        } else {
          assert details[|details| - 1].file == x;
        }
      }
    }
  }

  lemma {:induction false} CountSuccessAppend(a: seq<FileOutcome>, b: seq<FileOutcome>)
    ensures CountSuccess(a + b) == CountSuccess(a) + CountSuccess(b)
    decreases |b|
  {
    if b == [] {
      assert a + b == a;
    } else {
      assert (a + b)[..|a + b| - 1] == a + b[..|b| - 1];
      CountSuccessAppend(a, b[..|b| - 1]);
    }
  }

  /** How many records concern the file `name`. */
  function CountFor(details: seq<FileOutcome>, name: string): (n: nat)
    ensures n <= |details|
  {
    if details == [] then 0
    else CountFor(details[..|details| - 1], name) + (if details[|details| - 1].file == name then 1 else 0)
  }

  lemma {:induction false} CountForAbsent(details: seq<FileOutcome>, name: string)
    requires forall i :: 0 <= i < |details| ==> details[i].file != name
    ensures CountFor(details, name) == 0
  {
    if details != [] {
      CountForAbsent(details[..|details| - 1], name);
    }
  }

  lemma {:induction false} CountForPositive(details: seq<FileOutcome>, name: string)
    requires CountFor(details, name) > 0
    ensures exists i :: 0 <= i < |details| && details[i].file == name
  {
    if details[|details| - 1].file != name {
      CountForPositive(details[..|details| - 1], name);
      var i :| 0 <= i < |details| - 1 && details[..|details| - 1][i].file == name;
      assert details[i].file == name;
    }
  }

  // ---------------------------------------------------------------------
  // Sequences without repeats, as Python dict keys are kept

  predicate Distinct(s: seq<string>) {
    forall i, j :: 0 <= i < j < |s| ==> s[i] != s[j]
  }

  /** The keys of `{x: ... for x in s}` in insertion order: first occurrences. */
  function Dedup(s: seq<string>): (r: seq<string>)
    ensures Distinct(r)
    ensures forall x :: x in r <==> x in s
    ensures |r| <= |s|
  {
    if s == [] then []
    else
      var init := Dedup(s[..|s| - 1]);
      if s[|s| - 1] in init then init else init + [s[|s| - 1]]
  }

  /** Later names never reorder the keys of earlier ones: the keys of a
      prefix are a prefix of the keys. */
  lemma {:induction false} DedupPrefix(s: seq<string>, j: nat)
    requires j <= |s|
    ensures Dedup(s[..j]) <= Dedup(s)
  {
    if j == |s| {
      assert s[..j] == s;
    } else {
      var init := s[..|s| - 1];
      DedupPrefix(init, j);
      assert init[..j] == s[..j];
    }
  }

  /** Keys come in the order of first occurrence: the keys before the one
      for `s[j]`, where `j` is where that name first occurs, are the keys
      of the names before `j`. */
  lemma DedupFirstOccurrence(s: seq<string>, k: nat, j: nat)
    requires k < |Dedup(s)| && j < |s| && s[j] == Dedup(s)[k] && s[j] !in s[..j]
    ensures Dedup(s)[..k] == Dedup(s[..j])
  {
    var r := Dedup(s);
    var p := Dedup(s[..j]);
    DedupPrefix(s, j + 1);
    assert s[..j + 1][..j] == s[..j];
    assert Dedup(s[..j + 1]) == p + [s[j]];
    assert r[|p|] == s[j];
    assert |p| == k;
  }

  /** A sequence without repeats has as many elements as its set. */
  lemma {:induction false} DistinctCardinality(s: seq<string>)
    requires Distinct(s)
    ensures |set x | x in s| == |s|
  {
    if s != [] {
      var init := s[..|s| - 1];
      DistinctCardinality(init);
      assert (set x | x in s) == (set x | x in init) + {s[|s| - 1]};
    }
  }
}
