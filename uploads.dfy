/**
 * The upload stage of a batch: the duplicate-name guard, the validation of
 * the service's reply to the upload-URL request, and the per-file PUT loop.
 * The service knows a PDF by its base name.
 */
module Uploads {
  import opened PyText
  import opened Records

  /** A PDF's path, split as `path.parent` and `path.name`. */
  datatype PdfPath = PdfPath(parent: string, name: string)

  /** The base names of the given paths, in order. */
  function BaseNames(pdfFiles: seq<PdfPath>): (r: seq<string>)
    ensures |r| == |pdfFiles|
    ensures forall i :: 0 <= i < |r| ==> r[i] == pdfFiles[i].name
  {
    seq(|pdfFiles|, i requires 0 <= i < |pdfFiles| => pdfFiles[i].name)
  }

  // ---------------------------------------------------------------------
  // ensure_unique_pdf_names

  /** The names that occur in `names` after an earlier occurrence. */
  function Repeated(names: seq<string>): (r: set<string>)
    ensures forall x :: x in r ==> x in names
  {
    if names == [] then {}
    else
      var init := names[..|names| - 1];
      var last := names[|names| - 1];
      Repeated(init) + (if last in init then {last} else {})
  }

  /** A name is repeated exactly when it stands at two different positions. */
  lemma {:induction false} RepeatedSpec(names: seq<string>, x: string)
    ensures x in Repeated(names) <==>
      exists i, j :: 0 <= i < j < |names| && names[i] == x && names[j] == x
  {
    if names != [] {
      var init := names[..|names| - 1];
      RepeatedSpec(init, x);
      if exists i, j :: 0 <= i < j < |names| && names[i] == x && names[j] == x {
        var i, j :| 0 <= i < j < |names| && names[i] == x && names[j] == x;
        if j < |names| - 1 {
          assert init[i] == x && init[j] == x;
        } else {
          assert init[i] == x;
        }
      }
      if x in Repeated(init) {
        var i, j :| 0 <= i < j < |init| && init[i] == x && init[j] == x;
        assert names[i] == x && names[j] == x;
      } else if x in Repeated(names) {
        var i :| 0 <= i < |init| && init[i] == x;
        assert names[i] == x && names[|names| - 1] == x;
      }
    }
  }

  /** Some name is repeated exactly when two paths share a base name. */
  lemma HasRepeatsIff(pdfFiles: seq<PdfPath>)
    ensures Repeated(BaseNames(pdfFiles)) != {} <==>
      exists i, j :: 0 <= i < j < |pdfFiles| && pdfFiles[i].name == pdfFiles[j].name
  {
    var names := BaseNames(pdfFiles);
    if exists i, j :: 0 <= i < j < |pdfFiles| && pdfFiles[i].name == pdfFiles[j].name {
      var i, j :| 0 <= i < j < |pdfFiles| && pdfFiles[i].name == pdfFiles[j].name;
      RepeatedSpec(names, names[i]);
    }
    if x :| x in Repeated(names) {
      RepeatedSpec(names, x);
      var i, j :| 0 <= i < j < |names| && names[i] == x && names[j] == x;
      assert pdfFiles[i].name == pdfFiles[j].name;
    }
  }

  /** The loop of `ensure_unique_pdf_names`: a name goes into the
      duplicates when it was seen before. */
  method CollectDuplicates(pdfFiles: seq<PdfPath>) returns (duplicates: set<string>)
    ensures duplicates == Repeated(BaseNames(pdfFiles))
  {
    ghost var names := BaseNames(pdfFiles);
    var seen: set<string> := {};
    duplicates := {};
    var k := 0;
    while k < |pdfFiles|
      invariant 0 <= k <= |pdfFiles|
      invariant forall x :: x in seen <==> x in names[..k]
      invariant duplicates == Repeated(names[..k])
    {
      var name := pdfFiles[k].name;
      assert names[..k + 1][..k] == names[..k];
      if name in seen {
        duplicates := duplicates + {name};
      }
      seen := seen + {name};
      k := k + 1;
    }
    assert names[..k] == names;
  }

  /** `ensure_unique_pdf_names`: it fails exactly when two paths share a
      base name, and the failure lists every such name once, sorted. */
  method EnsureUniquePdfNames(pdfFiles: seq<PdfPath>) returns (r: Result<(), seq<string>>)
    ensures r.Err? <==>
      exists i, j :: 0 <= i < j < |pdfFiles| && pdfFiles[i].name == pdfFiles[j].name
    ensures r.Err? ==> r.error == SortedSet(Repeated(BaseNames(pdfFiles)))
  {
    var duplicates := CollectDuplicates(pdfFiles);
    HasRepeatsIff(pdfFiles);
    if duplicates != {} {
      var sorted := SortNames(duplicates);
      r := Err(sorted);
    } else {
      r := Ok(());
    }
  }

  /** The guard accepts a batch whose base names are all different. */
  lemma EnsureUniqueAcceptsDistinct(pdfFiles: seq<PdfPath>)
    requires Distinct(BaseNames(pdfFiles))
    ensures Repeated(BaseNames(pdfFiles)) == {}
  {
    var names := BaseNames(pdfFiles);
    if x :| x in Repeated(names) {
      RepeatedSpec(names, x);
    }
  }

  // ---------------------------------------------------------------------
  // request_upload_urls: checking the reply and pairing names with URLs

  /** The parts of the reply body the client reads: `code`, `msg`,
      `data.batch_id` and `data.file_urls`, each possibly missing. */
  datatype UrlBatchReply = UrlBatchReply(
    code: Option<int>,
    msg: Option<string>,
    batchId: Option<string>,
    fileUrls: Option<seq<string>>)

  datatype UploadUrlError =
    | ApiError(msg: Option<string>)  // `code` is missing or not 0
    | MissingBatchId                 // `batch_id` is missing or empty
    | UrlCountMismatch               // one URL per file was not returned

  /** `data.get("file_urls") or []`. */
  function UrlsOf(reply: UrlBatchReply): seq<string> {
    if reply.fileUrls.Some? then reply.fileUrls.value else []
  }

  /** `{name: url for name, url in zip(names, urls)}`: pairs at the same
      position; a name given twice is bound to its later URL. */
  function ZipNames(names: seq<string>, urls: seq<string>): (m: map<string, string>)
    requires |names| == |urls|
    ensures forall x :: x in m <==> x in names
  {
    if names == [] then map[]
    else ZipNames(names[..|names| - 1], urls[..|urls| - 1])[names[|names| - 1] := urls[|urls| - 1]]
  }

  /** Each name is bound to the URL at its last position. */
  lemma {:induction false} ZipNamesLastWins(names: seq<string>, urls: seq<string>, j: int)
    requires |names| == |urls|
    requires 0 <= j < |names|
    requires forall k :: j < k < |names| ==> names[k] != names[j]
    ensures ZipNames(names, urls)[names[j]] == urls[j]
  {
    if j < |names| - 1 {
      ZipNamesLastWins(names[..|names| - 1], urls[..|urls| - 1], j);
    }
  }

  /** With distinct names the map sends each name to the URL at its index. */
  lemma ZipNamesDistinct(names: seq<string>, urls: seq<string>)
    requires |names| == |urls| && Distinct(names)
    ensures forall j :: 0 <= j < |names| ==> ZipNames(names, urls)[names[j]] == urls[j]
  {
    forall j | 0 <= j < |names| ensures ZipNames(names, urls)[names[j]] == urls[j] {
      ZipNamesLastWins(names, urls, j);
    }
  }

  /** The checks of `request_upload_urls`, in the order the code makes
      them, and on success the batch id with the names paired to the URLs. */
  function RequestUploadUrls(pdfFiles: seq<PdfPath>, reply: UrlBatchReply)
    : (r: Result<(string, map<string, string>), UploadUrlError>)
    ensures r.Ok? <==>
      reply.code == Some(0) && Truthy(reply.batchId) && |UrlsOf(reply)| == |pdfFiles|
    ensures reply.code != Some(0) ==> r == Err(ApiError(reply.msg))
    ensures reply.code == Some(0) && !Truthy(reply.batchId) ==> r == Err(MissingBatchId)
    ensures reply.code == Some(0) && Truthy(reply.batchId) && |UrlsOf(reply)| != |pdfFiles|
      ==> r == Err(UrlCountMismatch)
    ensures r.Ok? ==> r.value.0 == reply.batchId.value && r.value.0 != []
    ensures r.Ok? ==> r.value.1 == ZipNames(BaseNames(pdfFiles), UrlsOf(reply))
  {
    if reply.code != Some(0) then Err(ApiError(reply.msg))
    else if !Truthy(reply.batchId) then Err(MissingBatchId)
    else if |UrlsOf(reply)| != |pdfFiles| then Err(UrlCountMismatch)
    else Ok((reply.batchId.value, ZipNames(BaseNames(pdfFiles), UrlsOf(reply))))
  }

  /** On success every file's base name has a URL, and a base name that is
      not repeated later is bound to the URL at its own position. */
  lemma RequestUploadUrlsPairs(pdfFiles: seq<PdfPath>, reply: UrlBatchReply, j: int)
    requires RequestUploadUrls(pdfFiles, reply).Ok?
    requires 0 <= j < |pdfFiles|
    requires forall k :: j < k < |pdfFiles| ==> pdfFiles[k].name != pdfFiles[j].name
    ensures pdfFiles[j].name in RequestUploadUrls(pdfFiles, reply).value.1
    ensures RequestUploadUrls(pdfFiles, reply).value.1[pdfFiles[j].name] == UrlsOf(reply)[j]
  {
    var names := BaseNames(pdfFiles);
    assert names[j] == pdfFiles[j].name;
    ZipNamesLastWins(names, UrlsOf(reply), j);
  }

  // ---------------------------------------------------------------------
  // upload_files

  /** `upload_map.get(name)` is a non-empty URL. */
  predicate HasUrl(uploadMap: map<string, string>, name: string) {
    name in uploadMap && uploadMap[name] != []
  }

  /** The record for one file; `putOk(path)` is whether the PUT of that
      file's bytes to its URL succeeded. */
  function UploadOutcome(uploadMap: map<string, string>, path: PdfPath, putOk: PdfPath -> bool): (r: FileOutcome)
    ensures r.file == path.name && r.stage == Upload
    ensures r.status == Success <==> HasUrl(uploadMap, path.name) && putOk(path)
    ensures !HasUrl(uploadMap, path.name) ==> r.message == NoUploadUrl
  {
    var name := path.name;
    if !HasUrl(uploadMap, name) then FileOutcome(name, Upload, Error, NoUploadUrl)
    else if putOk(path) then FileOutcome(name, Upload, Success, Uploaded)
    else FileOutcome(name, Upload, Error, UploadFailed)
  }

  /** The records of the whole loop, one per file in order. */
  function UploadOutcomes(uploadMap: map<string, string>, pdfFiles: seq<PdfPath>, putOk: PdfPath -> bool)
    : (r: seq<FileOutcome>)
    ensures |r| == |pdfFiles|
  {
    if pdfFiles == [] then []
    else
      UploadOutcomes(uploadMap, pdfFiles[..|pdfFiles| - 1], putOk)
        + [UploadOutcome(uploadMap, pdfFiles[|pdfFiles| - 1], putOk)]
  }

  /** The files a PUT is sent for: those with an upload URL, in order. */
  function Attempted(uploadMap: map<string, string>, pdfFiles: seq<PdfPath>): (r: seq<PdfPath>)
    ensures |r| <= |pdfFiles|
  {
    if pdfFiles == [] then []
    else
      var last := pdfFiles[|pdfFiles| - 1];
      Attempted(uploadMap, pdfFiles[..|pdfFiles| - 1]) + (if HasUrl(uploadMap, last.name) then [last] else [])
  }

  /** Record `i` belongs to file `i`, is an upload record, and is a success
      only when the file had a URL and its PUT went through. */
  lemma {:induction false} UploadOutcomesSpec(uploadMap: map<string, string>, pdfFiles: seq<PdfPath>, putOk: PdfPath -> bool, i: int)
    requires 0 <= i < |pdfFiles|
    ensures UploadOutcomes(uploadMap, pdfFiles, putOk)[i] == UploadOutcome(uploadMap, pdfFiles[i], putOk)
  {
    if i < |pdfFiles| - 1 {
      UploadOutcomesSpec(uploadMap, pdfFiles[..|pdfFiles| - 1], putOk, i);
    }
  }

  /** Every success record stands for a PUT that was sent: the uploads
      counted as successful never outnumber the attempts. */
  lemma {:induction false} UploadSuccessesWereAttempted(uploadMap: map<string, string>, pdfFiles: seq<PdfPath>, putOk: PdfPath -> bool)
    ensures CountSuccess(UploadOutcomes(uploadMap, pdfFiles, putOk)) <= |Attempted(uploadMap, pdfFiles)|
  {
    if pdfFiles != [] {
      var init := pdfFiles[..|pdfFiles| - 1];
      UploadSuccessesWereAttempted(uploadMap, init, putOk);
      var d := UploadOutcomes(uploadMap, pdfFiles, putOk);
      assert d[..|d| - 1] == UploadOutcomes(uploadMap, init, putOk);
    }
  }

  /** Without any URL, nothing is sent and every record is an error. */
  lemma {:induction false} UploadWithoutUrls(pdfFiles: seq<PdfPath>, putOk: PdfPath -> bool)
    ensures Attempted(map[], pdfFiles) == []
    ensures CountSuccess(UploadOutcomes(map[], pdfFiles, putOk)) == 0
  {
    if pdfFiles != [] {
      var init := pdfFiles[..|pdfFiles| - 1];
      UploadWithoutUrls(init, putOk);
      var d := UploadOutcomes(map[], pdfFiles, putOk);
      assert d[..|d| - 1] == UploadOutcomes(map[], init, putOk);
    }
  }

  /** `upload_files`: one upload record per file, in input order; a file
      without a URL is not sent and gets "no upload URL"; a sent file gets
      "uploaded" or "upload failed" as its PUT went. `attempted` lists the
      files a PUT was sent for. */
  method UploadFiles(uploadMap: map<string, string>, pdfFiles: seq<PdfPath>, putOk: PdfPath -> bool)
    returns (details: seq<FileOutcome>, attempted: seq<PdfPath>)
    ensures details == UploadOutcomes(uploadMap, pdfFiles, putOk)
    ensures attempted == Attempted(uploadMap, pdfFiles)
    ensures |details| == |pdfFiles|
    ensures forall i :: 0 <= i < |pdfFiles| ==>
      details[i].file == pdfFiles[i].name && details[i].stage == Upload
    ensures forall i :: 0 <= i < |pdfFiles| ==>
      (details[i].status == Success <==> HasUrl(uploadMap, pdfFiles[i].name) && putOk(pdfFiles[i]))
    ensures forall i :: 0 <= i < |pdfFiles| && !HasUrl(uploadMap, pdfFiles[i].name) ==>
      details[i].message == NoUploadUrl && pdfFiles[i] !in attempted
  {
    details := [];
    attempted := [];
    var k := 0;
    while k < |pdfFiles|
      invariant 0 <= k <= |pdfFiles|
      invariant details == UploadOutcomes(uploadMap, pdfFiles[..k], putOk)
      invariant attempted == Attempted(uploadMap, pdfFiles[..k])
    {
      var path := pdfFiles[k];
      var name := path.name;
      assert pdfFiles[..k + 1][..k] == pdfFiles[..k];
      if !(name in uploadMap && uploadMap[name] != []) {
        details := details + [FileOutcome(name, Upload, Error, NoUploadUrl)];
        k := k + 1;
        continue;
      }
      attempted := attempted + [path];
      if putOk(path) {
        details := details + [FileOutcome(name, Upload, Success, Uploaded)];
      } else {
        details := details + [FileOutcome(name, Upload, Error, UploadFailed)];
      }
      k := k + 1;
    }
    assert pdfFiles[..k] == pdfFiles;
    forall i | 0 <= i < |pdfFiles| && !HasUrl(uploadMap, pdfFiles[i].name)
      ensures pdfFiles[i] !in attempted
    {
      if pdfFiles[i] in attempted {
        AttemptedOnlyWithUrl(uploadMap, pdfFiles, pdfFiles[i]);
      }
    }
    forall i | 0 <= i < |pdfFiles| ensures details[i] == UploadOutcome(uploadMap, pdfFiles[i], putOk) {
      UploadOutcomesSpec(uploadMap, pdfFiles, putOk, i);
    }
  }

  /** A path is attempted only if its base name has a URL. */
  lemma {:induction false} AttemptedOnlyWithUrl(uploadMap: map<string, string>, pdfFiles: seq<PdfPath>, p: PdfPath)
    requires p in Attempted(uploadMap, pdfFiles)
    ensures HasUrl(uploadMap, p.name)
  {
    var init := pdfFiles[..|pdfFiles| - 1];
    if p in Attempted(uploadMap, init) {
      AttemptedOnlyWithUrl(uploadMap, init, p);
    }
  }
}
