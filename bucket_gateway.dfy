/**
 * The decisions `ImageUploadCustomBucketService` takes around its calls to the
 * external bucket. Every transport result enters as a value: the status of the
 * unauthenticated probe, the reply or exception of a RestTemplate call, the exit
 * code and output of a curl run, and the Jackson tree of that output. A Java
 * exception becomes `Err(message)`, with the message the code builds.
 */
module BucketGateway {
  import opened Wrappers
  import opened Text
  import opened Json
  import opened BucketListing

  /** `bucket.base-url` and `bucket.token`, injected by Spring. */
  datatype Config = Config(baseUrl: string, jwtToken: string)

  // ---------------------------------------------------------------------------
  // Configuration

  /**
   * `isConfigured`: both settings are non-empty, which is exactly when the
   * statistics report a token and a non-empty base URL.
   */
  function IsConfigured(c: Config): (ok: bool)
    ensures ok <==> GetBucketStats(c).hasJwtToken && GetBucketStats(c).baseUrl != ""
  {
    c.jwtToken != "" && c.baseUrl != ""
  }

  datatype BucketStats = BucketStats(localStorageEnabled: bool, message: string, baseUrl: string, hasJwtToken: bool)

  const LocalStorageDisabled := "Local storage is disabled. All operations go through external bucket."

  function GetBucketStats(c: Config): (s: BucketStats)
    ensures !s.localStorageEnabled && s.baseUrl == c.baseUrl
    ensures s.hasJwtToken <==> c.jwtToken != ""
  {
    BucketStats(false, LocalStorageDisabled, c.baseUrl, c.jwtToken != "")
  }

  // ---------------------------------------------------------------------------
  // Transport outcomes

  /** `checkIfIpFiltered`'s unauthenticated probe: a status code, or an exception. */
  datatype Probe = ProbeStatus(code: int) | ProbeFailed(message: string)

  /** A curl run: its exit code and everything it printed, with the Jackson tree of the trimmed output. */
  datatype CurlRun = CurlExited(exitCode: int, output: string, tree: Option<Json>) | CurlFailed(message: string)

  /** The debug HttpURLConnection call: code, reason phrase, error body; or an exception. */
  datatype DebugCall = DebugReplied(code: int, reason: string, errorBody: string) | DebugFailed(message: string)

  /** A RestTemplate call that returns no body the code reads: its status, or the exception it threw. */
  datatype HttpOutcome = Replied(code: int) | Threw(message: string)

  /** A RestTemplate listing call: status and body (`None` for a null body), or an exception. */
  datatype ListReply = ListReplied(code: int, body: Option<seq<Record>>) | ListThrew(message: string)

  /**
   * The response status as Java concatenation prints it; Spring adds the reason
   * phrase after the number, which holds no digit and is left out.
   */
  function StatusText(code: int): string {
    IntToString(code)
  }

  // The texts of the gateway's failures, each the prefix its exception message starts with.
  const CurlFailedPrefix := "Failed to execute curl: "
  const CallFailedPrefix := "Failed to call external bucket: "
  const ListFailedPrefix := "Failed to list PDF files from external bucket: "
  const DeleteStatusPrefix := "Failed to delete from external bucket. Status: "
  const CurlDeletePrefix := "Failed to execute curl DELETE: "
  const DeleteFailedPrefix := "Failed to delete file from external bucket: "
  const UploadFailedPrefix := "Failed to upload file to external bucket: "
  const CurlRunFailed := "Curl execution failed: "
  const CurlDeleteExit := "Curl DELETE failed with exit code "
  const UploadStatusPrefix := "Failed to upload to external bucket. Status: "

  // ---------------------------------------------------------------------------
  // The probe and the listing fallback of `getAllPdfs()`

  /** `checkIfIpFiltered`: only a 403 answer to the probe counts as filtering. */
  function CheckIfIpFiltered(p: Probe): (filtered: bool)
    ensures filtered <==> p == ProbeStatus(403)
  {
    match p
    case ProbeStatus(code) => code == 403
    case ProbeFailed(_) => false
  }

  const IpFilteredId := "ip-filtered-info"
  const IpFilteredStatus := "ip_filtered"
  const IpFilteredName := "[INFO] External bucket access blocked"
  const IpFilteredMessage := "Backend IP is filtered by external bucket. Contact admin to whitelist server IP."
  const IpFilteredSolution := "Add backend server IP to bucket whitelist or use proxy"

  /** `createIpFilteredResponse`: the single explanatory record. */
  function IpFilteredResponse(): (r: seq<Record>)
    ensures |r| == 1 && r[0].Keys == {Id, Name, Type, Message, Solution, Status}
    ensures r[0][Id] == IpFilteredId && r[0][Status] == IpFilteredStatus && r[0][Type] == "info"
  {
    [map[Id := IpFilteredId, Name := IpFilteredName, Type := "info",
         Message := IpFilteredMessage, Solution := IpFilteredSolution, Status := IpFilteredStatus]]
  }

  /** `getAllPdfsViaCurl`: success needs exit code 0 and some output after trimming. */
  function GetAllPdfsViaCurl(run: CurlRun, now: string): (r: Result<seq<Record>>)
    ensures r.Ok? <==> run.CurlExited? && run.exitCode == 0 && JavaTrim(run.output) != ""
    ensures r.Ok? ==> r.value == ParsedListing(JavaTrim(run.output), run.tree, now)
    ensures r.Err? ==> StartsWith(r.error, CurlFailedPrefix)
  {
    match run
    case CurlExited(exitCode, output, tree) =>
      var result := JavaTrim(output);
      if exitCode == 0 && result != "" then Ok(ParsedListing(result, tree, now))
      else Err(CurlFailedPrefix + CurlRunFailed + result)
    case CurlFailed(message) => Err(CurlFailedPrefix + message)
  }

  /** `getAllPdfsWithHttpURLConnectionDebug`: a 2xx gives the empty list (the parse is still a TODO). */
  function DebugListing(d: DebugCall): (r: Result<seq<Record>>)
    ensures r.Ok? <==> d.DebugReplied? && 200 <= d.code < 300
    ensures r.Ok? ==> r.value == []
    ensures r.Err? ==> StartsWith(r.error, CallFailedPrefix)
  {
    match d
    case DebugReplied(code, reason, errorBody) =>
      if 200 <= code < 300 then Ok([])
      else
        var body := JavaTrim(errorBody);
        Err(CallFailedPrefix + "HTTP " + IntToString(code) + " " + reason
            + (if body == "" then "" else ": " + body))
    case DebugFailed(message) => Err(CallFailedPrefix + message)
  }

  /** `getAllPdfs()`: probe, then curl or the debug call, then the 403 rescue of the outer catch. */
  function GetAllPdfs(probe: Probe, curl: CurlRun, debug: DebugCall, now: string): (r: Result<seq<Record>>)
    ensures probe == ProbeStatus(403) ==> r.Ok?
    ensures r.Err? <==> probe != ProbeStatus(403) && DebugListing(debug).Err? && !Contains(DebugListing(debug).error, "403")
    ensures r.Err? ==> r.error == ListFailedPrefix + DebugListing(debug).error
  {
    if CheckIfIpFiltered(probe) then
      var viaCurl := GetAllPdfsViaCurl(curl, now);
      if viaCurl.Ok? && viaCurl.value != [] then Ok(viaCurl.value) else Ok(IpFilteredResponse())
    else
      match DebugListing(debug)
      case Ok(files) => Ok(files)
      case Err(message) =>
        if Contains(message, "403") then Ok(IpFilteredResponse())
        else Err(ListFailedPrefix + message)
  }

  /**
   * When the probe reports filtering the listing never fails: it is the curl
   * parse when curl succeeded with at least one record, and otherwise the single
   * `ip_filtered` record.
   */
  lemma GetAllPdfsWhenFiltered(probe: Probe, curl: CurlRun, debug: DebugCall, now: string)
    requires probe == ProbeStatus(403)
    ensures var r := GetAllPdfs(probe, curl, debug, now);
      && r.Ok?
      && (r.value == IpFilteredResponse() ||
          (curl.CurlExited? && curl.exitCode == 0 && JavaTrim(curl.output) != ""
           && r.value == ParsedListing(JavaTrim(curl.output), curl.tree, now) && r.value != []))
      && ((curl.CurlExited? && curl.exitCode == 0 && JavaTrim(curl.output) != ""
           && ParsedListing(JavaTrim(curl.output), curl.tree, now) != [])
          ==> r.value == ParsedListing(JavaTrim(curl.output), curl.tree, now))
  {
  }

  /**
   * Without filtering: a 2xx gives the empty list, a failure whose message
   * mentions "403" gives the `ip_filtered` record, and any other failure is
   * rethrown with the listing prefix.
   */
  lemma GetAllPdfsWhenNotFiltered(probe: Probe, curl: CurlRun, debug: DebugCall, now: string)
    requires probe != ProbeStatus(403)
    ensures var r := GetAllPdfs(probe, curl, debug, now);
      && (debug.DebugReplied? && 200 <= debug.code < 300 ==> r == Ok([]))
      && (DebugListing(debug).Err? && Contains(DebugListing(debug).error, "403") ==> r == Ok(IpFilteredResponse()))
      && (DebugListing(debug).Err? && !Contains(DebugListing(debug).error, "403") ==>
            r == Err(ListFailedPrefix + DebugListing(debug).error))
  {
  }

  lemma ContainsInMiddle(a: string, p: string, b: string)
    ensures Contains(a + p + b, p)
  {
    assert (a + p + b)[|a|..|a| + |p|] == p;
    assert ContainsAt(a + p + b, p, |a|);
  }

  lemma Render403()
    ensures StatusText(403) == "403" && IntToString(403) == "403"
  {
    assert NatToString(4) == "4";
    assert NatToString(40) == "40";
  }

  /** An authenticated 403 on the debug call is read as IP filtering too. */
  lemma Debug403GivesIpFiltered(probe: Probe, curl: CurlRun, reason: string, errorBody: string, now: string)
    requires probe != ProbeStatus(403)
    ensures GetAllPdfs(probe, curl, DebugReplied(403, reason, errorBody), now) == Ok(IpFilteredResponse())
  {
    var body := JavaTrim(errorBody);
    var detail := if body == "" then "" else ": " + body;
    Render403();
    var code := IntToString(403);
    ContainsSelf(code);
    ContainsPrepend(CallFailedPrefix + "HTTP ", code, "403");
    ContainsAppend(CallFailedPrefix + "HTTP " + code, " ", "403");
    ContainsAppend(CallFailedPrefix + "HTTP " + code + " ", reason, "403");
    ContainsAppend(CallFailedPrefix + "HTTP " + code + " " + reason, detail, "403");
    assert DebugListing(DebugReplied(403, reason, errorBody)).error == CallFailedPrefix + "HTTP " + code + " " + reason + detail;
  }

  // ---------------------------------------------------------------------------
  // Deleting: HTTP first, curl when the HTTP failure mentions 403

  /** `deleteWithHttpClient`: anything but 200 is a failure. */
  function DeleteWithHttpClient(o: HttpOutcome): (r: Option<string>)
    ensures r.None? <==> o == Replied(200)
  {
    match o
    case Replied(code) =>
      if code == 200 then None else Some(DeleteStatusPrefix + StatusText(code))
    case Threw(message) => Some(message)
  }

  /** A curl DELETE: the exit code and output, or the exception that stopped it. */
  datatype CurlCommand = CommandExited(exitCode: int, output: string) | CommandFailed(message: string)

  /** `deleteViaCurl`: a non-zero exit code is a failure. */
  function DeleteViaCurl(c: CurlCommand): (r: Option<string>)
    ensures r.None? <==> c.CommandExited? && c.exitCode == 0
    ensures r.Some? ==> StartsWith(r.value, CurlDeletePrefix)
  {
    match c
    case CommandExited(exitCode, output) =>
      if exitCode == 0 then None
      else Some(CurlDeletePrefix + CurlDeleteExit + IntToString(exitCode)
                + ": " + JavaTrim(output))
    case CommandFailed(message) => Some(CurlDeletePrefix + message)
  }

  datatype DeletePath = ViaHttp | ViaCurl

  /** `deleteImage`: the path that succeeded, or the wrapped failure. */
  function DeleteImage(http: HttpOutcome, curl: CurlCommand): (r: Result<DeletePath>)
    ensures r == Ok(ViaHttp) <==> http == Replied(200)
    ensures r == Ok(ViaCurl) ==> curl.CommandExited? && curl.exitCode == 0
    ensures r.Err? ==> StartsWith(r.error, DeleteFailedPrefix)
  {
    match DeleteWithHttpClient(http)
    case None => Ok(ViaHttp)
    case Some(message) =>
      if Contains(message, "403") then
        match DeleteViaCurl(curl)
        case None => Ok(ViaCurl)
        case Some(curlMessage) => Err(DeleteFailedPrefix + curlMessage)
      else Err(DeleteFailedPrefix + message)
  }

  /**
   * Curl is used only after an HTTP failure that mentions 403, and the delete
   * succeeds exactly when HTTP answered 200 or that curl run exited with 0.
   */
  lemma DeleteImageOutcome(http: HttpOutcome, curl: CurlCommand)
    ensures var r := DeleteImage(http, curl);
      && (r == Ok(ViaHttp) <==> http == Replied(200))
      && (r == Ok(ViaCurl) <==> http != Replied(200) && Contains(DeleteWithHttpClient(http).value, "403")
                                && curl.CommandExited? && curl.exitCode == 0)
      && (r.Err? ==> StartsWith(r.error, DeleteFailedPrefix))
  {
  }

  /** An HTTP 403 reply (as the status check reports it) escalates to curl. */
  lemma Delete403Escalates(curl: CurlCommand)
    ensures DeleteImage(Replied(403), curl) == if curl.CommandExited? && curl.exitCode == 0 then Ok(ViaCurl)
      else Err(DeleteFailedPrefix + DeleteViaCurl(curl).value)
  {
    Render403();
    ContainsInMiddle(DeleteStatusPrefix, "403", "");
    assert DeleteStatusPrefix + "403" + "" == DeleteStatusPrefix + StatusText(403);
  }

  // ---------------------------------------------------------------------------
  // Request bodies of the search calls

  /** `searchByTags`' JSON body: a tag goes in, unchanged, only when it has content after trimming. */
  method TagSearchBody(tag1: Option<string>, tag2: Option<string>, tag3: Option<string>)
    returns (body: map<string, string>)
    ensures "tag1" in body <==> tag1.Some? && HasContent(tag1.value)
    ensures "tag2" in body <==> tag2.Some? && HasContent(tag2.value)
    ensures "tag3" in body <==> tag3.Some? && HasContent(tag3.value)
    ensures "tag1" in body ==> body["tag1"] == tag1.value
    ensures "tag2" in body ==> body["tag2"] == tag2.value
    ensures "tag3" in body ==> body["tag3"] == tag3.value
    ensures forall k | k in body :: k == "tag1" || k == "tag2" || k == "tag3"
  {
    body := map[];
    if tag1.Some? && HasContent(tag1.value) { body := body["tag1" := tag1.value]; }
    if tag2.Some? && HasContent(tag2.value) { body := body["tag2" := tag2.value]; }
    if tag3.Some? && HasContent(tag3.value) { body := body["tag3" := tag3.value]; }
  }

  /** `searchByExternalId`'s JSON body. */
  method ExternalIdSearchBody(externalId: Option<string>) returns (body: map<string, string>)
    ensures "idExterne" in body <==> externalId.Some? && HasContent(externalId.value)
    ensures "idExterne" in body ==> body["idExterne"] == externalId.value
    ensures forall k | k in body :: k == "idExterne"
  {
    body := map[];
    if externalId.Some? && HasContent(externalId.value) {
      body := body["idExterne" := externalId.value];
    }
  }

  /** `findPdfsByPattern`'s JSON body. */
  method PatternSearchBody(pattern: Option<string>) returns (body: map<string, string>)
    ensures "pattern" in body <==> pattern.Some? && HasContent(pattern.value)
    ensures "pattern" in body ==> body["pattern"] == pattern.value
    ensures forall k | k in body :: k == "pattern"
  {
    body := map[];
    if pattern.Some? && HasContent(pattern.value) {
      body := body["pattern" := pattern.value];
    }
  }

  /** A value made of spaces and control characters is left out of a body. */
  lemma BlankSearchValueOmitted(v: string)
    requires forall k | 0 <= k < |v| :: v[k] <= ' '
    ensures !HasContent(v)
  {
    HasContentIff(v);
  }

  // ---------------------------------------------------------------------------
  // Listing and search calls answered by RestTemplate

  datatype ListingCall = AllImages | SearchByTags | SearchByExternalId | SearchByPattern | AllPdfsForUser

  /** The words every error of a call starts with. */
  function Stem(call: ListingCall): string {
    match call
    case AllImages => "Failed to list files from external bucket"
    case SearchByTags => "Failed to search files by tags in external bucket"
    case SearchByExternalId => "Failed to search files by external ID in external bucket"
    case SearchByPattern => "Failed to search PDFs by pattern in external bucket"
    case AllPdfsForUser => "Failed to list PDF files from external bucket"
  }

  /** Status 200 gives the body (the empty list for a null body); anything else, or an exception, fails. */
  function ListingResult(call: ListingCall, reply: ListReply): (r: Result<seq<Record>>)
    ensures r.Ok? <==> reply.ListReplied? && reply.code == 200
    ensures r.Ok? ==> r.value == (if reply.body.Some? then reply.body.value else [])
    ensures r.Err? ==> StartsWith(r.error, Stem(call) + ": ")
  {
    match reply
    case ListReplied(code, body) =>
      if code == 200 then Ok(if body.Some? then body.value else [])
      else Err(Stem(call) + ": " + Stem(call) + ". Status: " + StatusText(code))
    case ListThrew(message) => Err(Stem(call) + ": " + message)
  }

  /** Java's message for `substring(0, 8)` on a shorter string. */
  function SubstringOutOfBounds(length: nat): string {
    "begin 0, end 8, length " + NatToString(length)
  }

  /**
   * `findPdfsByPattern` as written: the log line previews the token with
   * `substring(0, 8)`, which throws for a token shorter than eight characters
   * before the request is sent.
   */
  function FindPdfsByPatternAsWritten(c: Config, reply: ListReply): (r: Result<seq<Record>>)
    ensures |c.jwtToken| >= 8 ==> r == ListingResult(SearchByPattern, reply)
    ensures |c.jwtToken| < 8 ==> r.Err? && StartsWith(r.error, Stem(SearchByPattern) + ": ")
  {
    if |c.jwtToken| < 8 then Err(Stem(SearchByPattern) + ": " + SubstringOutOfBounds(|c.jwtToken|))
    else ListingResult(SearchByPattern, reply)
  }

  /** A seven-character token makes the search fail even though the bucket answered 200. */
  lemma ShortTokenBreaksPatternSearch()
    ensures FindPdfsByPatternAsWritten(Config("http://bucket", "abcdefg"), ListReplied(200, Some([]))).Err?
  {
  }

  /** `findPdfsByPattern` with the preview bounded by the token length, as the debug call does. */
  function FindPdfsByPattern(c: Config, reply: ListReply): (r: Result<seq<Record>>)
    ensures r.Ok? <==> reply.ListReplied? && reply.code == 200
  {
    ListingResult(SearchByPattern, reply)
  }

  // ---------------------------------------------------------------------------
  // `getAllPdfs(userToken)`: the body's uploads mapped field by field

  /**
   * The reply of the user-token listing: status and, when the body holds the
   * `studentUploadReadingDTOS` key, its uploads; each upload maps a field to
   * `String.valueOf` of its value, a missing or null field being absent.
   */
  datatype UserListReply = UserReplied(code: int, uploads: Option<seq<map<string, string>>>) | UserThrew(message: string)

  /** `String.valueOf(upload.get(key))`. */
  function ValueOf(upload: map<string, string>, key: string): (v: string)
    ensures key !in upload ==> v == "null"
  {
    if key in upload then upload[key] else "null"
  }

  function UserRecord(upload: map<string, string>): (r: Record)
    ensures r.Keys == {Id, Name, Url, Tag1, Tag2, Tag3}
    ensures r[Id] == r[Name] == ValueOf(upload, "idExterne") && r[Url] == ValueOf(upload, "url")
    ensures r[Tag1] == ValueOf(upload, "tag1") && r[Tag2] == ValueOf(upload, "tag2") && r[Tag3] == ValueOf(upload, "tag3")
  {
    map[Id := ValueOf(upload, "idExterne"), Name := ValueOf(upload, "idExterne"), Url := ValueOf(upload, "url"),
        Tag1 := ValueOf(upload, "tag1"), Tag2 := ValueOf(upload, "tag2"), Tag3 := ValueOf(upload, "tag3")]
  }

  /** The token actually sent: the caller's, or the configured one. */
  function EffectiveToken(c: Config, userToken: Option<string>): string {
    if userToken.Some? then userToken.value else c.jwtToken
  }

  function UserListing(reply: UserListReply): (r: Result<seq<Record>>)
    ensures r.Ok? <==> reply.UserReplied? && reply.code == 200
    ensures r.Ok? && reply.uploads.None? ==> r.value == []
    ensures r.Ok? && reply.uploads.Some? ==>
      |r.value| == |reply.uploads.value| &&
      forall k | 0 <= k < |r.value| :: r.value[k] == UserRecord(reply.uploads.value[k])
    ensures r.Err? ==> StartsWith(r.error, Stem(AllPdfsForUser) + ": ")
  {
    match reply
    case UserReplied(code, uploads) =>
      if code != 200 then Err(Stem(AllPdfsForUser) + ": " + Stem(AllPdfsForUser) + ". Status: " + StatusText(code))
      else if uploads.None? then Ok([])
      else Ok(seq(|uploads.value|, k requires 0 <= k < |uploads.value| => UserRecord(uploads.value[k])))
    case UserThrew(message) => Err(Stem(AllPdfsForUser) + ": " + message)
  }

  /** `getAllPdfs(userToken)` as written: the same eight-character preview, of the effective token. */
  function GetAllPdfsForUserAsWritten(c: Config, userToken: Option<string>, reply: UserListReply): (r: Result<seq<Record>>)
    ensures |EffectiveToken(c, userToken)| >= 8 ==> r == GetAllPdfsForUser(c, userToken, reply)
    ensures |EffectiveToken(c, userToken)| < 8 ==> r.Err? && StartsWith(r.error, Stem(AllPdfsForUser) + ": ")
  {
    var token := EffectiveToken(c, userToken);
    if |token| < 8 then Err(Stem(AllPdfsForUser) + ": " + SubstringOutOfBounds(|token|))
    else UserListing(reply)
  }

  /** A short user token fails the listing although the configured token is long enough. */
  lemma ShortUserTokenBreaksListing()
    ensures GetAllPdfsForUserAsWritten(Config("http://bucket", "a-long-enough-token"), Some("tok"),
                                       UserReplied(200, None)).Err?
  {
  }

  /** `getAllPdfs(userToken)` with a bounded preview: the result depends on the reply alone. */
  function GetAllPdfsForUser(c: Config, userToken: Option<string>, reply: UserListReply): (r: Result<seq<Record>>)
    ensures r.Ok? <==> reply.UserReplied? && reply.code == 200
  {
    UserListing(reply)
  }

  // ---------------------------------------------------------------------------
  // Uploading

  /** The multipart form of `uploadFile`: field name and value (`None` is Java's null). */
  type FormField = (string, Option<string>)

  /**
   * The form fields after "file": `idExterne` always, even when null; then each
   * of tag1, tag2, tag3 and description only when it is not null, in that order.
   */
  method UploadFormFields(idExterne: Option<string>, tag1: Option<string>, tag2: Option<string>,
                          tag3: Option<string>, description: Option<string>)
    returns (form: seq<FormField>)
    ensures form == [("idExterne", idExterne)] + FieldIfPresent("tag1", tag1) + FieldIfPresent("tag2", tag2)
                    + FieldIfPresent("tag3", tag3) + FieldIfPresent("description", description)
  {
    form := [("idExterne", idExterne)];
    if tag1.Some? { form := form + [("tag1", tag1)]; } else { assert form + [] == form; }
    if tag2.Some? { form := form + [("tag2", tag2)]; } else { assert form + [] == form; }
    if tag3.Some? { form := form + [("tag3", tag3)]; } else { assert form + [] == form; }
    if description.Some? { form := form + [("description", description)]; } else { assert form + [] == form; }
  }

  /** The field `name` when its value is not null, nothing otherwise. */
  function FieldIfPresent(name: string, v: Option<string>): (r: seq<FormField>)
    ensures |r| <= 1 && (|r| == 1 <==> v.Some?)
    ensures forall k | 0 <= k < |r| :: r[k] == (name, v) && r[k].1.Some?
  {
    if v.Some? then [(name, v)] else []
  }

  /** The `url` and `id` of the bucket's answer. */
  datatype UploadBody = UploadBody(url: Option<string>, id: Option<string>)

  datatype UploadReply = UploadReplied(code: int, body: Option<UploadBody>) | UploadThrew(message: string)

  /** `UploadedImageDTO`. */
  datatype UploadedImage = UploadedImage(url: Option<string>, id: Option<string>)

  /** Stands for the message the JVM gives when a null is dereferenced (its wording is not modelled). */
  const NullBodyMessage := "response body is null"

  /** `uploadFile`'s result: only status 200 succeeds, and the id falls back to the original file name. */
  function UploadResult(originalFilename: Option<string>, reply: UploadReply): (r: Result<UploadedImage>)
    ensures r.Ok? <==> reply.UploadReplied? && reply.code == 200 && reply.body.Some?
    ensures r.Ok? ==> r.value.url == reply.body.value.url
    ensures r.Ok? ==> r.value.id == (if reply.body.value.id.Some? then reply.body.value.id else originalFilename)
    ensures r.Err? ==> StartsWith(r.error, UploadFailedPrefix)
  {
    match reply
    case UploadReplied(code, body) =>
      if code != 200 then
        Err(UploadFailedPrefix + UploadStatusPrefix + StatusText(code))
      else if body.None? then Err(UploadFailedPrefix + NullBodyMessage)
      else Ok(UploadedImage(body.value.url, if body.value.id.Some? then body.value.id else originalFilename))
    case UploadThrew(message) => Err(UploadFailedPrefix + message)
  }
}
