/**
 * `StudentController`: the `/student` endpoints over the bucket gateway —
 * default tags for an upload, the choice between pattern search and full
 * listing, the lookup by id, deletion, and the IP-filter report of the
 * debug endpoint. The gateway's transport outcomes and the clock are
 * parameters.
 */
module StudentController {
  import opened Wrappers
  import opened Text
  import opened BucketListing
  import opened BucketGateway
  import opened UploadService

  /** An HTTP answer: status and body (`None` when there is none). */
  datatype Answer<T> = Answer(status: int, body: Option<T>)

  // ---------------------------------------------------------------------------
  // `uploadFile`

  /** The tags and description `uploadFile` hands to the gateway, after the defaults. */
  datatype StudentUpload = StudentUpload(idExterne: string, tag1: string, tag2: string, tag3: string,
                                         description: Option<string>)

  /** Missing tags become "pdf", "student" and "upload"; the description passes unchanged. */
  function StudentDefaults(idExterne: string, tag1: Option<string>, tag2: Option<string>, tag3: Option<string>,
                           description: Option<string>): (a: StudentUpload)
    ensures a.idExterne == idExterne && a.description == description
    ensures tag1.Some? ==> a.tag1 == tag1.value
    ensures tag1.None? ==> a.tag1 == "pdf"
    ensures tag2.Some? ==> a.tag2 == tag2.value
    ensures tag2.None? ==> a.tag2 == "student"
    ensures tag3.Some? ==> a.tag3 == tag3.value
    ensures tag3.None? ==> a.tag3 == "upload"
  {
    StudentUpload(idExterne, tag1.GetOr("pdf"), tag2.GetOr("student"), tag3.GetOr("upload"), description)
  }

  /** The answer of `/student/upload`. */
  datatype UploadAnswer =
    | UploadAccepted(idExterne: string, url: Option<string>, id: Option<string>, tag1: string, tag2: string, tag3: string,
                     description: Option<string>, success: bool)
    | UploadRefused(success: bool, error: string)

  /** What `uploadFile` sent to the gateway and what it answered. */
  datatype UploadHandled = UploadHandled(sent: StudentUpload, answer: Answer<UploadAnswer>)

  /**
   * `uploadFile`: the gateway gets the defaulted tags, and the same tags are
   * echoed in the answer; a failed upload gives 500 with `success` false and
   * the failure's message.
   */
  function UploadFile(file: MultipartFile, idExterne: string, tag1: Option<string>, tag2: Option<string>,
                      tag3: Option<string>, description: Option<string>, reply: UploadReply): (h: UploadHandled)
    ensures h.sent == StudentDefaults(idExterne, tag1, tag2, tag3, description)
    ensures h.answer.status == 200 <==> UploadResult(file.originalFilename, reply).Ok?
    ensures h.answer.status != 200 ==> (h.answer.status == 500 &&
      h.answer.body == Some(UploadRefused(false, UploadResult(file.originalFilename, reply).error)))
    ensures h.answer.status == 200 ==> (h.answer.body.Some? && h.answer.body.value.UploadAccepted?
      && var b := h.answer.body.value;
      && b.success
      && b.idExterne == h.sent.idExterne && b.tag1 == h.sent.tag1 && b.tag2 == h.sent.tag2 && b.tag3 == h.sent.tag3
      && b.description == description
      && b.url == UploadResult(file.originalFilename, reply).value.url
      && b.id == UploadResult(file.originalFilename, reply).value.id)
  {
    var args := StudentDefaults(idExterne, tag1, tag2, tag3, description);
    var result := UploadResult(file.originalFilename, reply);
    if result.Err? then UploadHandled(args, Answer(500, Some(UploadRefused(false, result.error))))
    else
      UploadHandled(args, Answer(200, Some(UploadAccepted(idExterne, result.value.url, result.value.id,
                                                          tag1.GetOr("pdf"), tag2.GetOr("student"), tag3.GetOr("upload"),
                                                          description, true))))
  }

  /** With no tags given, the bucket and the answer both carry "pdf", "student" and "upload". */
  lemma UploadWithoutTags(file: MultipartFile, idExterne: string, description: Option<string>, reply: UploadReply)
    requires UploadResult(file.originalFilename, reply).Ok?
    ensures var h := UploadFile(file, idExterne, None, None, None, description, reply);
      && h.sent == StudentUpload(idExterne, "pdf", "student", "upload", description)
      && h.answer.body.value.tag1 == "pdf" && h.answer.body.value.tag2 == "student" && h.answer.body.value.tag3 == "upload"
  {
    var h := UploadFile(file, idExterne, None, None, None, description, reply);
    assert h.answer.status == 200;
  }

  // ---------------------------------------------------------------------------
  // `searchPdfs`

  /** Which gateway call answers a search. */
  datatype SearchSource = ByPattern | AllFiles

  /** A pattern is used only when it is not null and has content after trimming. */
  function SearchSourceFor(pattern: Option<string>): (s: SearchSource)
    ensures s == ByPattern <==> pattern.Some? && JavaTrim(pattern.value) != ""
  {
    if pattern.Some? && HasContent(pattern.value) then ByPattern else AllFiles
  }

  /** The gateway's outcomes for both calls a search may make. */
  datatype Gateway = Gateway(config: Config, patternReply: ListReply, probe: Probe, curl: CurlRun, debug: DebugCall, now: string)

  /** `getAllPdfs()` over the gateway's outcomes. */
  function AllPdfs(g: Gateway): Result<seq<Record>> {
    GetAllPdfs(g.probe, g.curl, g.debug, g.now)
  }

  /** `searchPdfs`: the list from the chosen call, or 500 with no body when it throws. */
  function SearchPdfs(pattern: Option<string>, g: Gateway): (r: Answer<seq<Record>>)
    ensures var listing := if SearchSourceFor(pattern) == ByPattern then FindPdfsByPattern(g.config, g.patternReply)
                           else AllPdfs(g);
      && (r.status == 200 <==> listing.Ok?)
      && (r.status == 200 ==> r.body == Some(listing.value))
      && (r.status != 200 ==> r.status == 500 && r.body.None?)
  {
    var listing := if SearchSourceFor(pattern) == ByPattern then FindPdfsByPattern(g.config, g.patternReply) else AllPdfs(g);
    if listing.Err? then Answer(500, None) else Answer(200, Some(listing.value))
  }

  /** A blank pattern searches exactly as no pattern does. */
  lemma BlankPatternListsAll(blank: string, g: Gateway)
    requires forall k | 0 <= k < |blank| :: IsTrimmed(blank[k])
    ensures SearchPdfs(Some(blank), g) == SearchPdfs(None, g)
  {
    HasContentIff(blank);
  }

  /** Behind IP filtering, a search without pattern never answers 500. */
  lemma FilteredSearchSucceeds(pattern: Option<string>, g: Gateway)
    requires SearchSourceFor(pattern) == AllFiles && g.probe == ProbeStatus(403)
    ensures SearchPdfs(pattern, g).status == 200
  {
    GetAllPdfsWhenFiltered(g.probe, g.curl, g.debug, g.now);
  }

  // ---------------------------------------------------------------------------
  // `getPdfById`

  /** `id.equals(p.get("id"))`: a record without an id does not match (and does not throw). */
  predicate HasId(r: Record, id: string) {
    Id in r && r[Id] == id
  }

  /** `filter(...).findFirst()` over the listing. */
  function FirstWithId(files: seq<Record>, id: string): (r: Option<Record>)
    ensures r.Some? ==> exists k | 0 <= k < |files| ::
      (files[k] == r.value && HasId(files[k], id) && forall j | 0 <= j < k :: !HasId(files[j], id))
    ensures r.None? <==> forall j | 0 <= j < |files| :: !HasId(files[j], id)
  {
    if |files| == 0 then None
    else if HasId(files[0], id) then Some(files[0])
    else
      var r := FirstWithId(files[1..], id);
      assert forall j | 1 <= j < |files| :: files[j] == files[1..][j - 1];
      if r.Some? then
        var k :| 0 <= k < |files[1..]| && files[1..][k] == r.value && HasId(files[1..][k], id)
          && forall j | 0 <= j < k :: !HasId(files[1..][j], id);
        assert files[k + 1] == r.value && forall j | 0 <= j < k + 1 :: !HasId(files[j], id);
        r
      else r
  }

  /** `getPdfById`: 200 with the first record carrying the id, 404 when none does, 500 when the listing throws. */
  function GetPdfById(id: string, g: Gateway): (r: Answer<Record>)
    ensures r.status == 500 <==> AllPdfs(g).Err?
    ensures r.status == 404 <==> AllPdfs(g).Ok? && FirstWithId(AllPdfs(g).value, id).None?
    ensures r.status == 200 <==> AllPdfs(g).Ok? && FirstWithId(AllPdfs(g).value, id).Some?
    ensures r.status == 200 ==> r.body == FirstWithId(AllPdfs(g).value, id) && HasId(r.body.value, id)
    ensures r.status != 200 ==> r.body.None?
  {
    var listing := AllPdfs(g);
    if listing.Err? then Answer(500, None)
    else
      var found := FirstWithId(listing.value, id);
      if found.None? then Answer(404, None) else Answer(200, found)
  }

  /** When filtering hides the bucket and curl fails, the placeholder record is what the lookup of its id finds. */
  lemma PlaceholderFoundById(g: Gateway)
    requires g.probe == ProbeStatus(403) && g.curl.CurlFailed?
    ensures GetPdfById(IpFilteredId, g) == Answer(200, Some(IpFilteredResponse()[0]))
  {
    assert AllPdfs(g) == Ok(IpFilteredResponse());
    assert HasId(IpFilteredResponse()[0], IpFilteredId);
  }

  // ---------------------------------------------------------------------------
  // `deletePdf`

  /** The answer of a deletion: `success`, and the message or the error. */
  datatype DeleteAnswer = Deleted(success: bool, message: string) | NotDeleted(success: bool, error: string)

  const DeletedMessage := "PDF supprimé avec succès"

  /** `deletePdf`: `success` is true exactly when `deleteImage` returned normally. */
  function DeletePdf(http: HttpOutcome, curl: CurlCommand): (r: Answer<DeleteAnswer>)
    ensures r.body.Some?
    ensures r.body.value.success <==> DeleteImage(http, curl).Ok?
    ensures r.status == (if r.body.value.success then 200 else 500)
    ensures r.body.value.success ==> r.body.value == Deleted(true, DeletedMessage)
    ensures !r.body.value.success ==> r.body.value == NotDeleted(false, DeleteImage(http, curl).error)
  {
    var result := DeleteImage(http, curl);
    if result.Ok? then Answer(200, Some(Deleted(true, DeletedMessage)))
    else Answer(500, Some(NotDeleted(false, result.error)))
  }

  /** A deletion reports success when HTTP answered 200, or when a 403 was recovered by curl. */
  lemma DeleteSucceedsIff(http: HttpOutcome, curl: CurlCommand)
    ensures DeletePdf(http, curl).status == 200 <==>
      (http == Replied(200) || (Contains(DeleteWithHttpClient(http).GetOr(""), "403") && curl.CommandExited? && curl.exitCode == 0))
  {
    DeleteImageOutcome(http, curl);
    if http == Replied(200) {
      assert DeleteImage(http, curl) == Ok(ViaHttp);
    }
  }

  // ---------------------------------------------------------------------------
  // `getDebugStatus`

  /** The `ipFiltering` part of the debug report. */
  datatype IpFiltering = Detected(message: string, solution: string) | NotDetected(message: string) | Unknown(error: string)

  const AccessibleMessage := "External bucket is accessible"

  /** What an exception thrown by `Map.of` over a null value carries: no message. */
  const NullMessage := "null"

  /**
   * The `ipFiltering` block: a listing failure is "unknown", a first record
   * whose status is "ip_filtered" is a detection with its message and
   * solution, anything else is not. A detection record without its message or
   * solution makes `Map.of` throw, and so does the catch's own `Map.of`; the
   * failure leaves the block (`Err`).
   */
  function IpFilteringOf(listing: Result<seq<Record>>): (r: Result<IpFiltering>)
    ensures r.Ok? && r.value.Detected? <==>
      (listing.Ok? && |listing.value| > 0 && Status in listing.value[0] && listing.value[0][Status] == IpFilteredStatus
       && Message in listing.value[0] && Solution in listing.value[0])
    ensures r.Ok? && r.value.Detected? ==> r.value == Detected(listing.value[0][Message], listing.value[0][Solution])
    ensures r.Ok? && r.value.Unknown? <==> listing.Err?
    ensures r.Ok? && r.value.Unknown? ==> r.value.error == listing.error
    ensures r.Ok? && r.value.NotDetected? ==> r.value.message == AccessibleMessage
    ensures r.Err? <==> (listing.Ok? && |listing.value| > 0 && Status in listing.value[0]
                         && listing.value[0][Status] == IpFilteredStatus
                         && !(Message in listing.value[0] && Solution in listing.value[0]))
    ensures r.Err? ==> r.error == NullMessage
  {
    match listing
    case Err(m) => Ok(Unknown(m))
    case Ok(files) =>
      if |files| > 0 && Status in files[0] && files[0][Status] == IpFilteredStatus then
        if Message in files[0] && Solution in files[0] then Ok(Detected(files[0][Message], files[0][Solution]))
        else Err(NullMessage)
      else Ok(NotDetected(AccessibleMessage))
  }

  /** The answer of `/student/debug-status` (the network test and the fixed summary are not modelled). */
  datatype DebugReport = DebugReport(timestamp: nat, configuration: BucketStats, ipFiltering: IpFiltering) | ReportFailed(error: string)

  /** `getDebugStatus`: 200 with the report, or 500 when the `ipFiltering` block itself failed. */
  function GetDebugStatus(g: Gateway, config: Config, now: nat): (r: Answer<DebugReport>)
    ensures r.status == 200 <==> IpFilteringOf(AllPdfs(g)).Ok?
    ensures r.status == 200 ==> r.body == Some(DebugReport(now, GetBucketStats(config), IpFilteringOf(AllPdfs(g)).value))
    ensures r.status != 200 ==> r.status == 500 && r.body == Some(ReportFailed("Debug status failed: " + NullMessage))
  {
    var ip := IpFilteringOf(AllPdfs(g));
    if ip.Err? then Answer(500, Some(ReportFailed("Debug status failed: " + ip.error)))
    else Answer(200, Some(DebugReport(now, GetBucketStats(config), ip.value)))
  }

  /** The gateway's own placeholder record is reported as a detection, with its message and solution. */
  lemma PlaceholderIsDetected()
    ensures IpFilteringOf(Ok(IpFilteredResponse())) ==
      Ok(Detected(IpFilteredResponse()[0][Message], IpFilteredResponse()[0][Solution]))
  {
    var r := IpFilteredResponse()[0];
    assert Status in r && r[Status] == IpFilteredStatus && Message in r && Solution in r;
  }

  /** When the probe answers 403 and curl fails, the debug endpoint reports filtering. */
  lemma FilteredProbeIsReported(g: Gateway, config: Config, now: nat)
    requires g.probe == ProbeStatus(403) && g.curl.CurlFailed?
    ensures GetDebugStatus(g, config, now).status == 200
    ensures GetDebugStatus(g, config, now).body.value.ipFiltering.Detected?
  {
    assert AllPdfs(g) == Ok(IpFilteredResponse());
    PlaceholderIsDetected();
  }
}
