/**
 * `convert_pdf_files_with_mineru`: the checks made before anything is
 * sent, the upload stage, the polling stage, and the report that counts
 * them.
 */
module Orchestrator {
  import opened PyText
  import opened Records
  import opened Formats
  import opened Uploads
  import opened Trees
  import opened AssetRenamer
  import opened Archive
  import opened Poller

  /** The errors the conversion raises to its caller. */
  datatype ConvertError =
    | MissingToken                               // neither argument nor environment gives a token
    | FormatRejected(formatError: FormatError)   // the output format is not supported
    | NotAPdf(name: string)                      // a file's suffix is not ".pdf"
    | DuplicateNames(names: seq<string>)         // repeated base names, sorted
    | UploadUrlRequestFailed                     // the upload-URL request raised
    | UploadUrlRejected(urlError: UploadUrlError) // the upload-URL reply failed a check
    | PollFailed(pollError: PollError)           // the status polling raised

  /** The report's closing entry: the "message" of the two early returns,
      or the output directory of a full run. */
  datatype ReportNote = NoPdfFound | AllUploadsFailed | OutputDirectory

  datatype Report = Report(pdfTotal: nat, uploaded: nat, completed: nat, details: seq<FileOutcome>, note: ReportNote)

  /** What the upload-URL request sends that the model keeps: the files'
      names and the renditions asked for. */
  datatype UploadRequest = UploadRequest(names: seq<string>, extraFormats: seq<string>)

  /** The remote services, as functions of what is sent to them: the
      upload-URL request (`None` when it raises), the upload of one file,
      the download of an archive, and the status of a batch at each
      request. */
  datatype Services = Services(urlService: UploadRequest -> Option<UrlBatchReply>, putOk: PdfPath -> bool,
                               fetch: string -> Fetched, statusService: (string, nat) -> StatusReply)

  /** The position of the first extension that is not ".pdf", or the
      length when there is none. */
  function FirstNonPdf(exts: seq<string>): (k: nat)
    ensures k <= |exts|
    ensures forall j :: 0 <= j < k ==> exts[j] == ".pdf"
    ensures k < |exts| ==> exts[k] != ".pdf"
  {
    if exts == [] || exts[0] != ".pdf" then 0 else 1 + FirstNonPdf(exts[1..])
  }

  /** The status endpoint of the batch `batchId`, request by request. */
  function StatusOf(statusService: (string, nat) -> StatusReply, batchId: string): nat -> StatusReply {
    (round: nat) => statusService(batchId, round)
  }

  /** The outcome of the checks made before anything is sent: go on, or
      stop with an error or with the report of an empty run. */
  datatype Gate = Proceed | Stop(result: Result<(Report, Tree), ConvertError>)

  /** The checks of `convert_pdf_files_with_mineru` in their order: the
      token, the output format, the empty list, each file's lowered suffix
      (`exts`), and, when asked for, repeated names. */
  ghost function Prechecks(pdfFiles: seq<PdfPath>, hasToken: bool, format: Result<string, FormatError>,
                           exts: seq<string>, checkDuplicateNames: bool, out: Tree): (g: Gate)
    requires |exts| == |pdfFiles|
    ensures g.Proceed? ==> hasToken && format.Ok? && pdfFiles != []
    ensures g.Stop? && g.result.Ok? ==> pdfFiles == [] && g.result == Ok((Report(0, 0, 0, [], NoPdfFound), out))
  {
    if !hasToken then Stop(Err(MissingToken))
    else if format.Err? then Stop(Err(FormatRejected(format.error)))
    else if pdfFiles == [] then Stop(Ok((Report(0, 0, 0, [], NoPdfFound), out)))
    else if FirstNonPdf(exts) < |exts| then Stop(Err(NotAPdf(pdfFiles[FirstNonPdf(exts)].name)))
    else if checkDuplicateNames && Repeated(BaseNames(pdfFiles)) != {} then
      Stop(Err(DuplicateNames(SortedSet(Repeated(BaseNames(pdfFiles))))))
    else Proceed
  }

  /** `convert_pdf_files_with_mineru` on the output folder `out`, with the
      token from the argument or else the environment and the deadline as
      `fuel` status requests. The paths are taken as already sorted. */
  ghost function ConvertOutcome(pdfFiles: seq<PdfPath>, apiToken: Option<string>, envToken: Option<string>,
                                outputFormat: string, extraFormats: Option<seq<string>>, renameFlag: bool,
                                checkDuplicateNames: bool, services: Services, fuel: nat, out: Tree)
    : (r: Result<(Report, Tree), ConvertError>)
    ensures r.Ok? ==> (Truthy(apiToken) || Truthy(envToken)) && NormalizeOutputFormat(outputFormat).Ok?
    ensures r.Ok? ==> r.value.0.pdfTotal == |pdfFiles|
    ensures r.Ok? ==> (r.value.0.note == NoPdfFound <==> pdfFiles == [])
  {
    var format := NormalizeOutputFormat(outputFormat);
    var gate := Prechecks(pdfFiles, Truthy(apiToken) || Truthy(envToken), format,
                          Extensions(BaseNames(pdfFiles)), checkDuplicateNames, out);
    if gate.Stop? then gate.result
    else Submitted(pdfFiles, format.value, BuildExtraFormats(extraFormats, format.value), renameFlag, services, fuel, out)
  }

  /** The conversion once every check has passed: request the upload
      URLs, upload, and poll for the files that went up. */
  ghost function Submitted(pdfFiles: seq<PdfPath>, format: string, formats: seq<string>, renameFlag: bool,
                           services: Services, fuel: nat, out: Tree)
    : (r: Result<(Report, Tree), ConvertError>)
    ensures r.Err? ==> r.error.UploadUrlRequestFailed? || r.error.UploadUrlRejected? || r.error.PollFailed?
    ensures r.Ok? ==> r.value.0.pdfTotal == |pdfFiles| && r.value.0.note != NoPdfFound
  {
    var reply := services.urlService(UploadRequest(BaseNames(pdfFiles), formats));
    if reply.None? then Err(UploadUrlRequestFailed)
    else
      var urls := RequestUploadUrls(pdfFiles, reply.value);
      if urls.Err? then Err(UploadUrlRejected(urls.error))
      else
        var uploads := UploadOutcomes(urls.value.1, pdfFiles, services.putOk);
        var successful := SuccessfulFiles(uploads);
        if successful == [] then Ok((Report(|pdfFiles|, 0, 0, uploads, AllUploadsFailed), out))
        else
          var polled := PollResults(successful, Downloads(format, renameFlag, services.fetch),
                                    StatusOf(services.statusService, urls.value.0), fuel, out);
          if polled.Err? then Err(PollFailed(polled.error))
          else
            Ok((Report(|pdfFiles|, |successful|, CountSuccess(polled.value.0), uploads + polled.value.0, OutputDirectory),
                polled.value.1))
  }

  /** The loop checking every file's suffix; the first other one raises. */
  method CheckPdfSuffixes(exts: seq<string>) returns (k: nat)
    ensures k == FirstNonPdf(exts)
  {
    k := 0;
    while k < |exts| && exts[k] == ".pdf"
      invariant k <= |exts|
      invariant FirstNonPdf(exts[k..]) + k == FirstNonPdf(exts)
    {
      assert exts[k..][1..] == exts[k + 1..];
      k := k + 1;
    }
  }

  /** The checks, with the loop over the suffixes and the duplicate-name
      guard. */
  method RunPrechecks(pdfFiles: seq<PdfPath>, hasToken: bool, format: Result<string, FormatError>,
                      exts: seq<string>, checkDuplicateNames: bool, out: Tree) returns (g: Gate)
    requires |exts| == |pdfFiles|
    ensures g == Prechecks(pdfFiles, hasToken, format, exts, checkDuplicateNames, out)
  {
    if !hasToken {
      return Stop(Err(MissingToken));
    }
    if format.Err? {
      return Stop(Err(FormatRejected(format.error)));
    }
    if pdfFiles == [] {
      return Stop(Ok((Report(0, 0, 0, [], NoPdfFound), out)));
    }
    var bad := CheckPdfSuffixes(exts);
    if bad < |exts| {
      return Stop(Err(NotAPdf(pdfFiles[bad].name)));
    }
    if checkDuplicateNames {
      var unique := EnsureUniquePdfNames(pdfFiles);
      HasRepeatsIff(pdfFiles);
      if unique.Err? {
        return Stop(Err(DuplicateNames(unique.error)));
      }
    }
    return Proceed;
  }

  /** `convert_pdf_files_with_mineru(...)`. */
  method ConvertPdfFiles(pdfFiles: seq<PdfPath>, apiToken: Option<string>, envToken: Option<string>,
                         outputFormat: string, extraFormats: Option<seq<string>>, renameFlag: bool,
                         checkDuplicateNames: bool, services: Services, fuel: nat, out: Tree)
    returns (r: Result<(Report, Tree), ConvertError>)
    ensures r == ConvertOutcome(pdfFiles, apiToken, envToken, outputFormat, extraFormats, renameFlag,
                                checkDuplicateNames, services, fuel, out)
  {
    var token := if Truthy(apiToken) then apiToken else envToken;
    var format := NormalizeOutputFormat(outputFormat);
    var exts := Extensions(BaseNames(pdfFiles));
    var gate := RunPrechecks(pdfFiles, Truthy(token), format, exts, checkDuplicateNames, out);
    if gate.Stop? {
      return gate.result;
    }
    var formats := BuildExtraFormats(extraFormats, format.value);
    r := Submit(pdfFiles, format.value, formats, renameFlag, services, fuel, out);
  }

  /** The upload-URL request, the uploads, and the polling. */
  method Submit(pdfFiles: seq<PdfPath>, format: string, formats: seq<string>, renameFlag: bool,
                services: Services, fuel: nat, out: Tree)
    returns (r: Result<(Report, Tree), ConvertError>)
    ensures r == Submitted(pdfFiles, format, formats, renameFlag, services, fuel, out)
  {
    var reply := services.urlService(UploadRequest(BaseNames(pdfFiles), formats));
    if reply.None? {
      return Err(UploadUrlRequestFailed);
    }
    var urls := RequestUploadUrls(pdfFiles, reply.value);
    if urls.Err? {
      return Err(UploadUrlRejected(urls.error));
    }
    var batchId, uploadMap := urls.value.0, urls.value.1;
    var uploads, attempted := UploadFiles(uploadMap, pdfFiles, services.putOk);
    var successful := SuccessfulFiles(uploads);
    if successful == [] {
      return Ok((Report(|pdfFiles|, 0, 0, uploads, AllUploadsFailed), out));
    }
    var polled := Poll(successful, format, renameFlag, services.fetch, StatusOf(services.statusService, batchId), fuel, out);
    if polled.Err? {
      return Err(PollFailed(polled.error));
    }
    var pollDetails, result := polled.value.0, polled.value.1;
    return Ok((Report(|pdfFiles|, |successful|, CountSuccess(pollDetails), uploads + pollDetails, OutputDirectory), result));
  }

  // ---------------------------------------------------------------------
  // Properties of the report

  /** Without a token nothing else is looked at. */
  lemma MissingTokenFirst(pdfFiles: seq<PdfPath>, format: Result<string, FormatError>, exts: seq<string>,
                          checkDuplicateNames: bool, out: Tree)
    requires |exts| == |pdfFiles|
    ensures Prechecks(pdfFiles, false, format, exts, checkDuplicateNames, out) == Stop(Err(MissingToken))
  {
  }

  /** A file is reported as no PDF exactly when some file's lowered suffix
      (`exts`, as `ConvertOutcome` passes them) is not ".pdf", and it is the
      first such file. */
  lemma NotAPdfIsFirst(pdfFiles: seq<PdfPath>, format: Result<string, FormatError>, exts: seq<string>,
                       checkDuplicateNames: bool, out: Tree)
    requires |exts| == |pdfFiles| && format.Ok?
    ensures var g := Prechecks(pdfFiles, true, format, exts, checkDuplicateNames, out);
      (g.Stop? && g.result.Err? && g.result.error.NotAPdf?) <==> exists i :: 0 <= i < |exts| && exts[i] != ".pdf"
    ensures var g := Prechecks(pdfFiles, true, format, exts, checkDuplicateNames, out);
      g.Stop? && g.result.Err? && g.result.error.NotAPdf? ==>
        exists i :: 0 <= i < |exts| && g.result.error.name == pdfFiles[i].name && exts[i] != ".pdf"
          && forall j :: 0 <= j < i ==> exts[j] == ".pdf"
  {
    var k := FirstNonPdf(exts);
    if k < |exts| {
      assert pdfFiles != [];
    }
  }

  /** Once every suffix is ".pdf", the run stops on repeated names exactly
      when it is asked to check them and two of the files share a name. */
  lemma DuplicatesRejected(pdfFiles: seq<PdfPath>, format: Result<string, FormatError>, exts: seq<string>,
                           checkDuplicateNames: bool, out: Tree)
    requires |exts| == |pdfFiles| && format.Ok?
    requires forall i :: 0 <= i < |exts| ==> exts[i] == ".pdf"
    ensures var g := Prechecks(pdfFiles, true, format, exts, checkDuplicateNames, out);
      (g.Stop? && g.result.Err? && g.result.error.DuplicateNames?) <==>
        checkDuplicateNames && exists i, j :: 0 <= i < j < |pdfFiles| && pdfFiles[i].name == pdfFiles[j].name
  {
    HasRepeatsIff(pdfFiles);
    assert FirstNonPdf(exts) == |exts|;
  }

  /** A report counts every file once for upload and every uploaded file
      once for conversion: `completed <= uploaded <= pdf_total`, the upload
      records come first with `uploaded` successes among them, and the
      rest holds exactly one record per uploaded name, `completed` of them
      successes. */
  lemma SubmittedCounts(pdfFiles: seq<PdfPath>, format: string, formats: seq<string>, renameFlag: bool,
                        services: Services, fuel: nat, out: Tree, x: string)
    requires Submitted(pdfFiles, format, formats, renameFlag, services, fuel, out).Ok?
    ensures var rep := Submitted(pdfFiles, format, formats, renameFlag, services, fuel, out).value.0;
      rep.pdfTotal == |pdfFiles|
      && rep.completed <= rep.uploaded <= rep.pdfTotal <= |rep.details|
      && rep.uploaded == CountSuccess(rep.details[..rep.pdfTotal])
      && rep.completed == CountSuccess(rep.details[rep.pdfTotal..])
      && (rep.note == OutputDirectory ==>
            CountFor(rep.details[rep.pdfTotal..], x) == (if x in SuccessfulFiles(rep.details[..rep.pdfTotal]) then 1 else 0))
  {
    var rep := Submitted(pdfFiles, format, formats, renameFlag, services, fuel, out).value.0;
    var reply := services.urlService(UploadRequest(BaseNames(pdfFiles), formats));
    var urls := RequestUploadUrls(pdfFiles, reply.value);
    var uploads := UploadOutcomes(urls.value.1, pdfFiles, services.putOk);
    var successful := SuccessfulFiles(uploads);
    SuccessfulFilesCount(uploads);
    if successful == [] {
      assert uploads[..|pdfFiles|] == uploads;
    } else {
      var dl := Downloads(format, renameFlag, services.fetch);
      var status := StatusOf(services.statusService, urls.value.0);
      var polled := PollResults(successful, dl, status, fuel, out);
      DownloadsSound(format, renameFlag, services.fetch);
      PollOneRecordEach(successful, dl, status, fuel, out, x);
      var details := uploads + polled.value.0;
      assert details[..|pdfFiles|] == uploads;
      assert details[|pdfFiles|..] == polled.value.0;
    }
  }

  /** The counts of every report, as `SubmittedCounts` states them. */
  lemma ConvertCounts(pdfFiles: seq<PdfPath>, apiToken: Option<string>, envToken: Option<string>,
                      outputFormat: string, extraFormats: Option<seq<string>>, renameFlag: bool,
                      checkDuplicateNames: bool, services: Services, fuel: nat, out: Tree, x: string)
    requires ConvertOutcome(pdfFiles, apiToken, envToken, outputFormat, extraFormats, renameFlag,
                            checkDuplicateNames, services, fuel, out).Ok?
    ensures var rep := ConvertOutcome(pdfFiles, apiToken, envToken, outputFormat, extraFormats, renameFlag,
                                      checkDuplicateNames, services, fuel, out).value.0;
      rep.pdfTotal == |pdfFiles|
      && rep.completed <= rep.uploaded <= rep.pdfTotal <= |rep.details|
      && rep.uploaded == CountSuccess(rep.details[..rep.pdfTotal])
      && rep.completed == CountSuccess(rep.details[rep.pdfTotal..])
      && (rep.note == OutputDirectory ==>
            CountFor(rep.details[rep.pdfTotal..], x) == (if x in SuccessfulFiles(rep.details[..rep.pdfTotal]) then 1 else 0))
  {
    var format := NormalizeOutputFormat(outputFormat);
    var gate := Prechecks(pdfFiles, Truthy(apiToken) || Truthy(envToken), format,
                          Extensions(BaseNames(pdfFiles)), checkDuplicateNames, out);
    if gate.Proceed? {
      SubmittedCounts(pdfFiles, format.value, BuildExtraFormats(extraFormats, format.value), renameFlag,
                      services, fuel, out, x);
    }
  }

  /** With a token and a supported format, an empty list is reported as
      nothing to convert, and the output folder stays as it was. */
  lemma ConvertEmpty(apiToken: Option<string>, envToken: Option<string>,
                     outputFormat: string, extraFormats: Option<seq<string>>, renameFlag: bool,
                     checkDuplicateNames: bool, services: Services, fuel: nat, out: Tree)
    requires Truthy(apiToken) || Truthy(envToken)
    requires NormalizeOutputFormat(outputFormat).Ok?
    ensures ConvertOutcome([], apiToken, envToken, outputFormat, extraFormats, renameFlag,
                           checkDuplicateNames, services, fuel, out)
      == Ok((Report(0, 0, 0, [], NoPdfFound), out))
  {
  }

  /** When no upload goes through, nothing is polled: the report holds the
      upload records only, counts nothing as uploaded or completed, and the
      output folder stays as it was. */
  lemma SubmittedAllUploadsFailed(pdfFiles: seq<PdfPath>, format: string, formats: seq<string>, renameFlag: bool,
                                  services: Services, fuel: nat, out: Tree)
    requires var r := Submitted(pdfFiles, format, formats, renameFlag, services, fuel, out);
      r.Ok? && r.value.0.note == AllUploadsFailed
    ensures var r := Submitted(pdfFiles, format, formats, renameFlag, services, fuel, out);
      r.value.1 == out && r.value.0.uploaded == 0 && r.value.0.completed == 0
      && |r.value.0.details| == r.value.0.pdfTotal == |pdfFiles|
      && CountSuccess(r.value.0.details) == 0
  {
    var reply := services.urlService(UploadRequest(BaseNames(pdfFiles), formats));
    var urls := RequestUploadUrls(pdfFiles, reply.value);
    SuccessfulFilesCount(UploadOutcomes(urls.value.1, pdfFiles, services.putOk));
  }
}
