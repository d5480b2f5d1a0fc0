/**
 * Polling the batch status: every expected file is pending until the
 * status endpoint reports it "done" (its archive is then downloaded) or
 * "failed"; the files still pending when the polling stops time out.
 */
module Poller {
  import opened Records
  import opened Trees
  import opened Archive

  /** One element of `extract_result`; every key may be missing. */
  datatype ResultItem = ResultItem(fileName: Option<string>, state: Option<string>,
                                   zipUrl: Option<string>, errMsg: Option<string>)

  /** One answer of the status endpoint: a request error, or the body's
      `code`, `msg` and `extract_result` (empty when missing). */
  datatype StatusReply =
    | StatusRequestFailed
    | StatusBody(code: Option<int>, msg: Option<string>, results: seq<ResultItem>)

  /** The errors `poll_results` raises to its caller. */
  datatype PollError = StatusFetchFailed | StatusApiError(msg: Option<string>)

  /** The `completed` map, the `details` list, and the output folder. */
  datatype PollState = PollState(completed: map<string, bool>, details: seq<FileOutcome>, out: Tree)

  /** What handling a "done" result does: from the archive link, the file
      name and the output folder, the record and the new output folder. */
  type Downloader = (string, string, Tree) -> (FileOutcome, Tree)

  /** `download_and_extract` with the format, the renaming switch and the
      fetching fixed. */
  ghost function Downloads(outputFormat: string, renameFlag: bool, fetch: string -> Fetched): Downloader {
    (zipUrl: string, fileName: string, out: Tree) => DownloadOutcome(zipUrl, fileName, outputFormat, renameFlag, fetch, out)
  }

  lemma DownloadsApply(outputFormat: string, renameFlag: bool, fetch: string -> Fetched, zipUrl: string, fileName: string, out: Tree)
    ensures Downloads(outputFormat, renameFlag, fetch)(zipUrl, fileName, out)
      == DownloadOutcome(zipUrl, fileName, outputFormat, renameFlag, fetch, out)
  {
  }

  /** A downloader gives back one record for the file it was asked about,
      and a success only in the `download` stage. */
  ghost predicate DownloaderSound(dl: Downloader) {
    forall zipUrl, fileName, out :: dl(zipUrl, fileName, out).0.file == fileName
      && (dl(zipUrl, fileName, out).0.status == Success ==> dl(zipUrl, fileName, out).0.stage == Download)
  }

  lemma DownloadsSound(outputFormat: string, renameFlag: bool, fetch: string -> Fetched)
    ensures DownloaderSound(Downloads(outputFormat, renameFlag, fetch))
  {
    forall zipUrl, fileName, out
      ensures Downloads(outputFormat, renameFlag, fetch)(zipUrl, fileName, out).0.file == fileName
      ensures var r := Downloads(outputFormat, renameFlag, fetch)(zipUrl, fileName, out).0;
        r.status == Success ==> r.stage == Download
    {
      DownloadOneRecord(zipUrl, fileName, outputFormat, renameFlag, fetch, out);
    }
  }

  /** `all(completed.values())`. */
  predicate AllDone(completed: map<string, bool>) {
    forall x :: x in completed ==> completed[x]
  }

  /** The body of the loop over `extract_result` for one result. A result
      without a name, for a name not expected, or for a name already
      terminal is skipped; "done" downloads the archive, or records an
      error when there is no link; "failed" records the service's error
      message or the default one; any other state leaves the file pending. */
  ghost function Step(st: PollState, item: ResultItem, dl: Downloader): (r: PollState)
    ensures r.completed.Keys == st.completed.Keys
  {
    if !Truthy(item.fileName) || item.fileName.value !in st.completed || st.completed[item.fileName.value] then st
    else
      var name := item.fileName.value;
      if item.state == Some("done") then
        if !Truthy(item.zipUrl) then
          PollState(st.completed[name := true], st.details + [FileOutcome(name, Download, Error, DoneWithoutUrl)], st.out)
        else
          var downloaded := dl(item.zipUrl.value, name, st.out);
          PollState(st.completed[name := true], st.details + [downloaded.0], downloaded.1)
      else if item.state == Some("failed") then
        var message := if Truthy(item.errMsg) then RemoteError(item.errMsg.value) else UnknownError;
        PollState(st.completed[name := true], st.details + [FileOutcome(name, Convert, Error, message)], st.out)
      else st
  }

  /** The loop over one reply's results, in order. */
  ghost function StepAll(st: PollState, items: seq<ResultItem>, dl: Downloader): (r: PollState)
    ensures r.completed.Keys == st.completed.Keys
  {
    if items == [] then st
    else Step(StepAll(st, items[..|items| - 1], dl), items[|items| - 1], dl)
  }

  /** The `while` loop: at most `fuel` more requests, the next one being
      request number `round`; it stops early once every file is terminal.
      A failed request or a reply whose code is not 0 raises. */
  ghost function Rounds(st: PollState, status: nat -> StatusReply, round: nat, fuel: nat,
                        dl: Downloader): (r: Result<PollState, PollError>)
    ensures r.Ok? ==> r.value.completed.Keys == st.completed.Keys
    decreases fuel
  {
    if fuel == 0 || AllDone(st.completed) then Ok(st)
    else
      match status(round)
      case StatusRequestFailed => Err(StatusFetchFailed)
      case StatusBody(code, msg, results) =>
        if code != Some(0) then Err(StatusApiError(msg))
        else Rounds(StepAll(st, results, dl), status, round + 1, fuel - 1, dl)
  }

  /** The closing loop over `completed.items()`: a timeout record for each
      file still pending, in the order of the expected names. */
  function Timeouts(names: seq<string>, completed: map<string, bool>): (r: seq<FileOutcome>)
    requires forall x :: x in names ==> x in completed
    ensures |r| <= |names|
  {
    if names == [] then []
    else
      var name := names[|names| - 1];
      Timeouts(names[..|names| - 1], completed)
        + (if completed[name] then [] else [FileOutcome(name, Convert, Error, TimedOut)])
  }

  /** `{name: False for name in expected_files}`. */
  function Pending(expected: seq<string>): (m: map<string, bool>)
    ensures forall x :: x in m <==> x in expected
    ensures forall x :: x in m ==> !m[x]
  {
    map x | x in expected :: false
  }

  /** `poll_results(batch_id, config, expected_files, output_format)` with
      the deadline as a number of requests: the records and the output
      folder it leaves, or the error it raises. */
  ghost function PollResults(expected: seq<string>, dl: Downloader, status: nat -> StatusReply, fuel: nat, out: Tree)
    : (r: Result<(seq<FileOutcome>, Tree), PollError>)
    ensures r.Err? ==> fuel > 0
  {
    var polled := Rounds(PollState(Pending(expected), [], out), status, 0, fuel, dl);
    if polled.Err? then Err(polled.error)
    else
      Ok((polled.value.details + Timeouts(Dedup(expected), polled.value.completed), polled.value.out))
  }

  // ---------------------------------------------------------------------
  // One record per expected file

  /** How many of `names` are terminal. */
  function CountDone(names: seq<string>, completed: map<string, bool>): (n: nat)
    requires forall x :: x in names ==> x in completed
    ensures n <= |names|
  {
    if names == [] then 0
    else CountDone(names[..|names| - 1], completed) + (if completed[names[|names| - 1]] then 1 else 0)
  }

  /** Marking one pending name terminal counts it once. */
  lemma {:induction false} CountDoneMark(names: seq<string>, completed: map<string, bool>, x: string)
    requires Distinct(names)
    requires forall y :: y in names ==> y in completed
    requires x in completed && !completed[x]
    ensures CountDone(names, completed[x := true]) == CountDone(names, completed) + (if x in names then 1 else 0)
  {
    if names != [] {
      var init := names[..|names| - 1];
      CountDoneMark(init, completed, x);
      if x == names[|names| - 1] {
        assert x !in init;
      }
    }
  }

  /** The invariant of the polling loop over the expected names `names`:
      the keys are the names, each terminal name has exactly one record
      and each pending one none, every record is for a name, and a success
      is always a download. */
  ghost predicate Inv(names: seq<string>, st: PollState) {
    Distinct(names)
    && (forall x :: x in st.completed <==> x in names)
    && (forall x :: x in names ==> CountFor(st.details, x) == if st.completed[x] then 1 else 0)
    && (forall i :: 0 <= i < |st.details| ==> st.details[i].file in names)
    && (forall i :: 0 <= i < |st.details| && st.details[i].status == Success ==> st.details[i].stage == Download)
    && |st.details| == CountDone(names, st.completed)
  }

  /** Appending one record for `x` adds one to its count and none to any
      other name's. */
  lemma CountForSnoc(details: seq<FileOutcome>, r: FileOutcome, x: string)
    ensures CountFor(details + [r], x) == CountFor(details, x) + (if r.file == x then 1 else 0)
  {
    assert (details + [r])[..|details|] == details;
  }

  /** Making a pending name terminal with one record for it keeps the
      invariant. */
  lemma Complete(names: seq<string>, st: PollState, name: string, r: FileOutcome, out: Tree)
    requires Inv(names, st)
    requires name in st.completed && !st.completed[name]
    requires r.file == name && (r.status == Success ==> r.stage == Download)
    ensures Inv(names, PollState(st.completed[name := true], st.details + [r], out))
  {
    var st' := PollState(st.completed[name := true], st.details + [r], out);
    forall x | x in names ensures CountFor(st'.details, x) == if st'.completed[x] then 1 else 0 {
      CountForSnoc(st.details, r, x);
    }
    CountDoneMark(names, st.completed, name);
  }

  /** One result keeps the invariant. */
  lemma StepInv(names: seq<string>, st: PollState, item: ResultItem, dl: Downloader)
    requires DownloaderSound(dl)
    requires Inv(names, st)
    ensures Inv(names, Step(st, item, dl))
  {
    if Truthy(item.fileName) && item.fileName.value in st.completed && !st.completed[item.fileName.value] {
      var name := item.fileName.value;
      if item.state == Some("done") {
        if !Truthy(item.zipUrl) {
          Complete(names, st, name, FileOutcome(name, Download, Error, DoneWithoutUrl), st.out);
        } else {
          var downloaded := dl(item.zipUrl.value, name, st.out);
          Complete(names, st, name, downloaded.0, downloaded.1);
        }
      } else if item.state == Some("failed") {
        var message := if Truthy(item.errMsg) then RemoteError(item.errMsg.value) else UnknownError;
        Complete(names, st, name, FileOutcome(name, Convert, Error, message), st.out);
      }
    }
  }

  lemma {:induction false} StepAllInv(names: seq<string>, st: PollState, items: seq<ResultItem>, dl: Downloader)
    requires DownloaderSound(dl)
    requires Inv(names, st)
    ensures Inv(names, StepAll(st, items, dl))
  {
    if items != [] {
      StepAllInv(names, st, items[..|items| - 1], dl);
      StepInv(names, StepAll(st, items[..|items| - 1], dl), items[|items| - 1], dl);
    }
  }

  lemma {:induction false} RoundsInv(names: seq<string>, st: PollState, status: nat -> StatusReply, round: nat, fuel: nat,
                                     dl: Downloader)
    requires DownloaderSound(dl)
    requires Inv(names, st)
    ensures var r := Rounds(st, status, round, fuel, dl);
      r.Ok? ==> Inv(names, r.value)
    decreases fuel
  {
    if fuel != 0 && !AllDone(st.completed) && status(round).StatusBody? && status(round).code == Some(0) {
      var next := StepAll(st, status(round).results, dl);
      StepAllInv(names, st, status(round).results, dl);
      RoundsInv(names, next, status, round + 1, fuel - 1, dl);
    }
  }

  /** The timeout records: one for each pending name, none for the others. */
  lemma {:induction false} TimeoutsSpec(names: seq<string>, completed: map<string, bool>, x: string)
    requires Distinct(names)
    requires forall y :: y in names ==> y in completed
    ensures |Timeouts(names, completed)| == |names| - CountDone(names, completed)
    ensures CountFor(Timeouts(names, completed), x) == if x in names && !completed[x] then 1 else 0
    ensures forall i :: 0 <= i < |Timeouts(names, completed)| ==>
      Timeouts(names, completed)[i].file in names && Timeouts(names, completed)[i].status == Error
  {
    if names != [] {
      var init := names[..|names| - 1];
      var name := names[|names| - 1];
      TimeoutsSpec(init, completed, x);
      var t := Timeouts(init, completed);
      var tail := if completed[name] then [] else [FileOutcome(name, Convert, Error, TimedOut)];
      assert Timeouts(names, completed) == t + tail;
      CountForAppend(t, tail, x);
      if x == name {
        assert x !in init;
      }
      if x in init {
        assert x != name;
      }
    }
  }

  /** Every record `Timeouts` makes is a conversion-stage timeout. */
  lemma {:induction false} TimeoutsTimedOut(names: seq<string>, completed: map<string, bool>)
    requires forall y :: y in names ==> y in completed
    ensures forall i :: 0 <= i < |Timeouts(names, completed)| ==>
      Timeouts(names, completed)[i].stage == Convert && Timeouts(names, completed)[i].status == Error
      && Timeouts(names, completed)[i].message == TimedOut
  {
    if names != [] {
      TimeoutsTimedOut(names[..|names| - 1], completed);
    }
  }

  lemma {:induction false} CountForAppend(a: seq<FileOutcome>, b: seq<FileOutcome>, x: string)
    ensures CountFor(a + b, x) == CountFor(a, x) + CountFor(b, x)
    decreases |b|
  {
    if b == [] {
      assert a + b == a;
    } else {
      assert (a + b)[..|a + b| - 1] == a + b[..|b| - 1];
      CountForAppend(a, b[..|b| - 1], x);
    }
  }

  /** The records of a finished poll for the state `st` the loop stopped
      in: the terminal names' records, then the timeouts. */
  lemma FinalRecords(names: seq<string>, st: PollState, x: string)
    requires Inv(names, st)
    ensures var details := st.details + Timeouts(names, st.completed);
      CountFor(details, x) == (if x in names then 1 else 0)
      && |details| == |names|
      && (forall i :: 0 <= i < |details| ==> details[i].file in names)
      && (forall i :: 0 <= i < |details| && details[i].status == Success ==> details[i].stage == Download)
  {
    TimeoutsSpec(names, st.completed, x);
    var t := Timeouts(names, st.completed);
    CountForAppend(st.details, t, x);
    if x !in names {
      CountForAbsent(st.details, x);
    }
    var details := st.details + t;
    forall i | 0 <= i < |details|
      ensures details[i].file in names && (details[i].status == Success ==> details[i].stage == Download)
    {
      if i < |st.details| {
        assert details[i] == st.details[i];
      } else {
        assert details[i] == t[i - |st.details|];
      }
    }
  }

  /** Every distinct expected name gets exactly one record and no other
      name gets any; so there are as many records as distinct names, and
      every success is a download. */
  lemma PollOneRecordEach(expected: seq<string>, dl: Downloader, status: nat -> StatusReply, fuel: nat, out: Tree, x: string)
    requires DownloaderSound(dl)
    requires PollResults(expected, dl, status, fuel, out).Ok?
    ensures var details := PollResults(expected, dl, status, fuel, out).value.0;
      CountFor(details, x) == (if x in expected then 1 else 0)
      && |details| == |Dedup(expected)|
      && (forall i :: 0 <= i < |details| ==> details[i].file in expected)
      && (forall i :: 0 <= i < |details| && details[i].status == Success ==> details[i].stage == Download)
  {
    var names := Dedup(expected);
    var st0 := PollState(Pending(expected), [], out);
    CountDoneNone(names, st0.completed);
    assert Inv(names, st0);
    RoundsInv(names, st0, status, 0, fuel, dl);
    var polled := Rounds(st0, status, 0, fuel, dl).value;
    FinalRecords(names, polled, x);
    assert PollResults(expected, dl, status, fuel, out).value.0 == polled.details + Timeouts(names, polled.completed);
  }

  /** With no status request left, nothing is downloaded and every
      expected name gets its timeout record. */
  lemma PollWithoutTime(expected: seq<string>, dl: Downloader, status: nat -> StatusReply, out: Tree)
    ensures var r := PollResults(expected, dl, status, 0, out);
      r.Ok? && r.value.1 == out && |r.value.0| == |Dedup(expected)|
      && (forall i :: 0 <= i < |r.value.0| ==> r.value.0[i].status == Error && r.value.0[i].message == TimedOut)
      && (forall x :: CountFor(r.value.0, x) == if x in expected then 1 else 0)
  {
    var names := Dedup(expected);
    CountDoneNone(names, Pending(expected));
    TimeoutsTimedOut(names, Pending(expected));
    var t := Timeouts(names, Pending(expected));
    assert PollResults(expected, dl, status, 0, out).value.0 == [] + t;
    assert [] + t == t;
    if expected != [] {
      TimeoutsSpec(names, Pending(expected), expected[0]);
    } else {
      assert names == [];
    }
    forall x ensures CountFor(t, x) == if x in expected then 1 else 0 {
      TimeoutsSpec(names, Pending(expected), x);
    }
  }

  lemma {:induction false} CountDoneNone(names: seq<string>, completed: map<string, bool>)
    requires forall x :: x in names ==> x in completed && !completed[x]
    ensures CountDone(names, completed) == 0
  {
    if names != [] {
      CountDoneNone(names[..|names| - 1], completed);
    }
  }

  /** Results for an unknown or already terminal name add nothing. */
  lemma StepSkips(st: PollState, item: ResultItem, dl: Downloader)
    requires item.fileName.Some?
    requires item.fileName.value !in st.completed || st.completed[item.fileName.value]
    ensures Step(st, item, dl) == st
  {
  }

  // ---------------------------------------------------------------------
  // The loops

  /** The body of the loop over `extract_result`. */
  method ProcessResult(st: PollState, item: ResultItem, outputFormat: string, renameFlag: bool,
                       fetch: string -> Fetched) returns (r: PollState)
    ensures r == Step(st, item, Downloads(outputFormat, renameFlag, fetch))
  {
    if !Truthy(item.fileName) || item.fileName.value !in st.completed || st.completed[item.fileName.value] {
      return st;
    }
    var name := item.fileName.value;
    if item.state == Some("done") {
      if !Truthy(item.zipUrl) {
        return PollState(st.completed[name := true], st.details + [FileOutcome(name, Download, Error, DoneWithoutUrl)], st.out);
      }
      var record, out := DownloadAndExtract(item.zipUrl.value, name, outputFormat, renameFlag, fetch, st.out);
      DownloadsApply(outputFormat, renameFlag, fetch, item.zipUrl.value, name, st.out);
      return PollState(st.completed[name := true], st.details + [record], out);
    } else if item.state == Some("failed") {
      var message := if Truthy(item.errMsg) then RemoteError(item.errMsg.value) else UnknownError;
      return PollState(st.completed[name := true], st.details + [FileOutcome(name, Convert, Error, message)], st.out);
    }
    return st;
  }

  method ProcessReply(st: PollState, items: seq<ResultItem>, outputFormat: string, renameFlag: bool,
                      fetch: string -> Fetched) returns (r: PollState)
    ensures r == StepAll(st, items, Downloads(outputFormat, renameFlag, fetch))
  {
    r := st;
    var i := 0;
    while i < |items|
      invariant 0 <= i <= |items|
      invariant r == StepAll(st, items[..i], Downloads(outputFormat, renameFlag, fetch))
    {
      assert items[..i + 1][..i] == items[..i];
      r := ProcessResult(r, items[i], outputFormat, renameFlag, fetch);
      i := i + 1;
    }
    assert items[..i] == items;
  }

  /** The closing loop. */
  method AddTimeouts(names: seq<string>, completed: map<string, bool>, details: seq<FileOutcome>)
    returns (r: seq<FileOutcome>)
    requires forall x :: x in names ==> x in completed
    ensures r == details + Timeouts(names, completed)
  {
    r := details;
    var i := 0;
    while i < |names|
      invariant 0 <= i <= |names|
      invariant r == details + Timeouts(names[..i], completed)
    {
      assert names[..i + 1][..i] == names[..i];
      if !completed[names[i]] {
        r := r + [FileOutcome(names[i], Convert, Error, TimedOut)];
      }
      i := i + 1;
    }
    assert names[..i] == names;
  }

  /** The `while` loop of `poll_results`: status requests until every
      file is terminal or the `fuel` requests are spent. */
  method RunRounds(st0: PollState, outputFormat: string, renameFlag: bool,
                   fetch: string -> Fetched, status: nat -> StatusReply, fuel: nat)
    returns (r: Result<PollState, PollError>)
    ensures r == Rounds(st0, status, 0, fuel, Downloads(outputFormat, renameFlag, fetch))
  {
    var st := st0;
    var round := 0;
    while round < fuel && !AllDone(st.completed)
      invariant round <= fuel
      invariant Rounds(st, status, round, fuel - round, Downloads(outputFormat, renameFlag, fetch))
        == Rounds(st0, status, 0, fuel, Downloads(outputFormat, renameFlag, fetch))
      decreases fuel - round
    {
      var reply := status(round);
      if reply.StatusRequestFailed? {
        return Err(StatusFetchFailed);
      }
      if reply.code != Some(0) {
        return Err(StatusApiError(reply.msg));
      }
      st := ProcessReply(st, reply.results, outputFormat, renameFlag, fetch);
      round := round + 1;
    }
    return Ok(st);
  }

  /** `poll_results`, with `fuel` requests before the deadline. */
  method Poll(expected: seq<string>, outputFormat: string, renameFlag: bool,
              fetch: string -> Fetched, status: nat -> StatusReply, fuel: nat, out: Tree)
    returns (r: Result<(seq<FileOutcome>, Tree), PollError>)
    ensures r == PollResults(expected, Downloads(outputFormat, renameFlag, fetch), status, fuel, out)
  {
    var polled := RunRounds(PollState(Pending(expected), [], out), outputFormat, renameFlag, fetch, status, fuel);
    if polled.Err? {
      return Err(polled.error);
    }
    var st := polled.value;
    var names := Dedup(expected);
    var details := AddTimeouts(names, st.completed, st.details);
    return Ok((details, st.out));
  }
}
