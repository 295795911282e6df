/**
 * `PDFContentController`: the name of a downloaded PDF, the defaults sent
 * with an upload to the bucket, the answers of the create endpoints (one of
 * which ignores a failed upload) and the lookup behind `downloadPDF`.
 * The PDF's content, its upload reply and the clock are parameters.
 */
module PdfContentController {
  import opened Wrappers
  import opened Text
  import opened BucketListing
  import opened BucketGateway
  import opened UploadService
  import ImageGeneration

  type Bytes = ImageGeneration.Bytes

  /** An HTTP answer: status, headers in the order they are set, and body (`None` when there is none). */
  datatype Reply<T> = Reply(status: int, headers: seq<(string, string)>, body: Option<T>)

  // ---------------------------------------------------------------------------
  // `generatePDFFilename`

  /** Appending a request parameter: "_" and its value, when it is neither null nor empty. */
  function WithPart(name: string, v: Option<string>): string {
    if v.Some? && v.value != "" then name + "_" + v.value else name
  }

  /** The closing `_<timestamp>.pdf`. */
  function WithStamp(name: string, timestamp: nat): string {
    name + "_" + NatToString(timestamp) + ".pdf"
  }

  /** The name `generatePDFFilename` builds. */
  function PdfFilename(idExterne: Option<string>, tag1: Option<string>, timestamp: nat): string {
    WithStamp(WithPart(WithPart("generated", idExterne), tag1), timestamp)
  }

  /** `generatePDFFilename`: the `StringBuilder` appends, one part after the other. */
  method GeneratePdfFilename(idExterne: Option<string>, tag1: Option<string>, timestamp: nat) returns (filename: string)
    ensures filename == PdfFilename(idExterne, tag1, timestamp)
  {
    filename := "generated";
    if idExterne.Some? && idExterne.value != "" {
      filename := filename + "_" + idExterne.value;
    }
    if tag1.Some? && tag1.value != "" {
      filename := filename + "_" + tag1.value;
    }
    filename := filename + "_" + NatToString(timestamp);
    filename := filename + ".pdf";
  }

  /** Appending keeps a prefix. */
  lemma StartsWithAppend(s: string, p: string, t: string)
    requires StartsWith(s, p)
    ensures StartsWith(s + t, p)
  {
    assert (s + t)[..|p|] == s[..|p|];
  }

  /**
   * The name starts with "generated" and its last '_' is followed by the
   * timestamp and ".pdf", whatever the identifier and tag contain.
   */
  lemma PdfFilenameShape(idExterne: Option<string>, tag1: Option<string>, timestamp: nat)
    ensures var n := PdfFilename(idExterne, tag1, timestamp);
      StartsWith(n, "generated") && AfterLast(n, '_') == NatToString(timestamp) + ".pdf"
    ensures (idExterne.None? || idExterne.value == "") && (tag1.None? || tag1.value == "") ==>
      PdfFilename(idExterne, tag1, timestamp) == "generated" + "_" + NatToString(timestamp) + ".pdf"
  {
    var g := "generated";
    var one := WithPart(g, idExterne);
    var pre := WithPart(one, tag1);
    assert StartsWith(g, g);
    if idExterne.Some? && idExterne.value != "" { StartsWithAppend(g, g, "_" + idExterne.value); assert one == g + ("_" + idExterne.value); }
    if tag1.Some? && tag1.value != "" { StartsWithAppend(one, g, "_" + tag1.value); assert pre == one + ("_" + tag1.value); }
    var post := NatToString(timestamp) + ".pdf";
    StampSplit(pre, timestamp);
    StartsWithAppend(pre, g, ['_'] + post);
    StampHasNoUnderscore(timestamp);
    AfterLastRoundTrip(pre, '_', post);
  }

  /** The stamp after a name is a '_' and the timestamp with its extension. */
  lemma StampSplit(name: string, timestamp: nat)
    ensures WithStamp(name, timestamp) == name + ['_'] + (NatToString(timestamp) + ".pdf")
    ensures WithStamp(name, timestamp) == name + (['_'] + (NatToString(timestamp) + ".pdf"))
  {
  }

  /** The timestamp and extension hold no '_'. */
  lemma StampHasNoUnderscore(timestamp: nat)
    ensures '_' !in NatToString(timestamp) + ".pdf"
  {
    var d := NatToString(timestamp);
    var post := d + ".pdf";
    forall k | 0 <= k < |post| ensures post[k] != '_' {
      if k < |d| { assert IsAsciiDigit(d[k]); } else { assert post[k] == ".pdf"[k - |d|]; }
    }
  }

  /** Two downloads with the same parameters at different times get different names. */
  lemma PdfFilenameDistinguishesTimes(idExterne: Option<string>, tag1: Option<string>, a: nat, b: nat)
    requires PdfFilename(idExterne, tag1, a) == PdfFilename(idExterne, tag1, b)
    ensures a == b
  {
    PdfFilenameShape(idExterne, tag1, a);
    PdfFilenameShape(idExterne, tag1, b);
    var sa, sb := NatToString(a), NatToString(b);
    assert sa + ".pdf" == sb + ".pdf";
    assert sa == (sa + ".pdf")[..|sa|];
    assert sb == (sb + ".pdf")[..|sb|];
    NatToStringInjective(a, b);
  }

  // ---------------------------------------------------------------------------
  // Uploading a created PDF to the bucket

  /** The arguments `uploadFile` receives after the file. */
  datatype BucketUploadArgs = BucketUploadArgs(idExterne: string, tag1: string, tag2: string, tag3: Option<string>)

  /** The request's values, or "auto_" and the time, "pdf" and "generated"; tag3 is passed unchanged. */
  function UploadDefaults(idExterne: Option<string>, tag1: Option<string>, tag2: Option<string>, tag3: Option<string>,
                          now: nat): (a: BucketUploadArgs)
    ensures idExterne.Some? ==> a.idExterne == idExterne.value
    ensures idExterne.None? ==> a.idExterne == "auto_" + NatToString(now)
    ensures a.tag1 == tag1.GetOr("pdf") && a.tag2 == tag2.GetOr("generated") && a.tag3 == tag3
  {
    BucketUploadArgs(if idExterne.Some? then idExterne.value else "auto_" + NatToString(now),
                     tag1.GetOr("pdf"), tag2.GetOr("generated"), tag3)
  }

  /** Automatic identifiers made at different times differ. */
  lemma AutoIdsDiffer(a: nat, b: nat)
    requires UploadDefaults(None, None, None, None, a).idExterne == UploadDefaults(None, None, None, None, b).idExterne
    ensures a == b
  {
    var sa, sb := NatToString(a), NatToString(b);
    assert "auto_" + sa == "auto_" + sb;
    assert sa == ("auto_" + sa)[5..];
    assert sb == ("auto_" + sb)[5..];
    NatToStringInjective(a, b);
  }

  const CreateUploadFailed := "Failed to create and upload PDF"

  /** What a handler did on the way to its answer: the upload it asked for, if any. */
  datatype Handled<T> = Handled(reply: Reply<T>, uploadSent: Option<BucketUploadArgs>)

  /** The headers of a PDF download. */
  function DownloadHeaders(filename: string, size: int): seq<(string, string)> {
    [("Content-Type", "application/pdf"),
     ("Content-Disposition", "attachment; filename=\"" + filename + "\""),
     ("Content-Length", IntToString(size))]
  }

  /**
   * `createPDF` (`/create`): the PDF's bytes under the name "generated.pdf",
   * or 500 with no body when creating the PDF or reading it back failed.
   */
  function CreatePdfEndpoint(created: Result<MultipartFile>, bytes: Result<Bytes>): (r: Reply<Bytes>)
    ensures r.status == 200 <==> created.Ok? && bytes.Ok?
    ensures r.status != 200 ==> r.status == 500 && r.body.None? && r.headers == []
    ensures r.status == 200 ==> r.body == Some(bytes.value) && r.headers == DownloadHeaders("generated.pdf", created.value.size)
  {
    if created.Err? || bytes.Err? then Reply(500, [], None)
    else Reply(200, DownloadHeaders("generated.pdf", created.value.size), Some(bytes.value))
  }

  /** The `pdfInfo` part of the answer of `/create-and-upload`. */
  datatype PdfInfo = PdfInfo(size: int, originalFilename: string, contentType: string)

  /** The answer of `/create-and-upload`: the upload and PDF descriptions, or the error and its message. */
  datatype UploadSummary =
    | UploadDone(uploadInfo: UploadedImage, pdfInfo: PdfInfo, generated: bool, timestamp: nat)
    | UploadError(error: string, message: Option<string>)

  /**
   * `createAndUploadPDF`: the created PDF is uploaded with `UploadDefaults`;
   * any failure, of the creation or of the upload, gives 500 with
   * "Failed to create and upload PDF" and the failure's message.
   */
  function CreateAndUploadPdf(created: Result<MultipartFile>, upload: UploadReply,
                              idExterne: Option<string>, tag1: Option<string>, tag2: Option<string>, tag3: Option<string>,
                              now: nat): (h: Handled<UploadSummary>)
    ensures h.uploadSent.Some? <==> created.Ok?
    ensures h.uploadSent.Some? ==> h.uploadSent.value == UploadDefaults(idExterne, tag1, tag2, tag3, now)
    ensures h.reply.status == 200 <==> created.Ok? && created.value.contentType.Some? &&
                                       UploadResult(created.value.originalFilename, upload).Ok?
    ensures created.Err? ==> h.reply.body == Some(UploadError(CreateUploadFailed, Some(created.error)))
    ensures h.reply.status != 200 ==> (h.reply.status == 500 && h.reply.body.Some? && h.reply.body.value.UploadError?
      && h.reply.body.value.error == CreateUploadFailed)
    ensures h.reply.status == 200 ==> (h.reply.body.Some? && h.reply.body.value.UploadDone?
      && h.reply.body.value.uploadInfo == UploadResult(created.value.originalFilename, upload).value
      && h.reply.body.value.pdfInfo.originalFilename == created.value.originalFilename.GetOr("generated.pdf"))
  {
    if created.Err? then Handled(Reply(500, [], Some(UploadError(CreateUploadFailed, Some(created.error)))), None)
    else
      var pdf := created.value;
      var args := UploadDefaults(idExterne, tag1, tag2, tag3, now);
      var uploaded := UploadResult(pdf.originalFilename, upload);
      if uploaded.Err? then Handled(Reply(500, [], Some(UploadError(CreateUploadFailed, Some(uploaded.error)))), Some(args))
      else if pdf.contentType.None? then
        // `Map.of` refuses the null content type with an exception that has no message
        Handled(Reply(500, [], Some(UploadError(CreateUploadFailed, None))), Some(args))
      else
        var info := PdfInfo(pdf.size, pdf.originalFilename.GetOr("generated.pdf"), pdf.contentType.value);
        Handled(Reply(200, [], Some(UploadDone(uploaded.value, info, true, now))), Some(args))
  }

  /**
   * `createUploadAndDownloadPDF`: the upload is attempted with
   * `UploadDefaults`, its failure is ignored, and the PDF comes back under
   * `PdfFilename` of the request's own identifier and first tag, marked
   * `X-Upload-Status: completed`.
   */
  function CreateUploadAndDownloadPdf(created: Result<MultipartFile>, upload: UploadReply, bytes: Result<Bytes>,
                                      idExterne: Option<string>, tag1: Option<string>, tag2: Option<string>, tag3: Option<string>,
                                      now: nat, nameTime: nat): (h: Handled<Bytes>)
    ensures h.uploadSent.Some? <==> created.Ok?
    ensures h.uploadSent.Some? ==> h.uploadSent.value == UploadDefaults(idExterne, tag1, tag2, tag3, now)
    ensures h.reply.status == 200 <==> created.Ok? && bytes.Ok?
    ensures h.reply.status != 200 ==> h.reply.status == 500 && h.reply.body.None?
    ensures h.reply.status == 200 ==> (h.reply.body == Some(bytes.value)
      && h.reply.headers == DownloadHeaders(PdfFilename(idExterne, tag1, nameTime), created.value.size)
                            + [("X-Upload-Status", "completed")])
  {
    if created.Err? then Handled(Reply(500, [], None), None)
    else
      var pdf := created.value;
      var args := UploadDefaults(idExterne, tag1, tag2, tag3, now);
      var ignored := UploadResult(pdf.originalFilename, upload);
      if bytes.Err? then Handled(Reply(500, [], None), Some(args))
      else
        var filename := PdfFilename(idExterne, tag1, nameTime);
        Handled(Reply(200, DownloadHeaders(filename, pdf.size) + [("X-Upload-Status", "completed")], Some(bytes.value)),
                Some(args))
  }

  /** The bucket's answer to the upload has no effect on the download's answer. */
  lemma UploadFailureIsSwallowed(created: Result<MultipartFile>, bytes: Result<Bytes>,
                                 idExterne: Option<string>, tag1: Option<string>, tag2: Option<string>, tag3: Option<string>,
                                 now: nat, nameTime: nat, failed: UploadReply, accepted: UploadReply)
    ensures CreateUploadAndDownloadPdf(created, failed, bytes, idExterne, tag1, tag2, tag3, now, nameTime)
         == CreateUploadAndDownloadPdf(created, accepted, bytes, idExterne, tag1, tag2, tag3, now, nameTime)
  {
  }

  // ---------------------------------------------------------------------------
  // `downloadPDF`

  /** The filter of `downloadPDF`: the name contains the id, or equals it. */
  predicate NameMatches(fileName: string, fileId: string) {
    Contains(fileName, fileId) || fileName == fileId
  }

  /** The equality test of the filter adds nothing to the containment test. */
  lemma EqualNameContains(fileId: string)
    ensures Contains(fileId, fileId)
  {
    assert ContainsAt(fileId, fileId, 0);
  }

  /** What `get("fileName").contains(...)` throws on a file without a name. */
  const NullFileNameMessage := "fileName is null"

  /**
   * `stream().filter(...).findFirst()`: the first file whose name matches;
   * reaching a file without a name before any match throws.
   */
  /** Every file before index `k` has a name and that name does not match. */
  predicate NoMatchBefore(files: seq<Record>, fileId: string, k: int)
    requires k <= |files|
  {
    forall j | 0 <= j < k :: FileName in files[j] && !NameMatches(files[j][FileName], fileId)
  }

  /** The file at `k` is the first whose name matches. */
  predicate FirstMatchAt(files: seq<Record>, fileId: string, k: int) {
    0 <= k < |files| && FileName in files[k] && NameMatches(files[k][FileName], fileId) && NoMatchBefore(files, fileId, k)
  }

  /** A first match in the tail, behind a non-matching head, is the first match of the whole. */
  lemma FirstMatchShift(files: seq<Record>, fileId: string, k: int)
    requires |files| > 0 && FileName in files[0] && !NameMatches(files[0][FileName], fileId)
    requires FirstMatchAt(files[1..], fileId, k)
    ensures FirstMatchAt(files, fileId, k + 1) && files[k + 1] == files[1..][k]
  {
    forall j | 1 <= j < k + 1 ensures FileName in files[j] && !NameMatches(files[j][FileName], fileId) {
      assert files[j] == files[1..][j - 1];
    }
  }

  /**
   * `stream().filter(...).findFirst()`: the first file whose name matches;
   * reaching a file without a name before any match throws.
   */
  function FirstFileNamed(files: seq<Record>, fileId: string): (r: Result<Option<Record>>)
    ensures r.Ok? && r.value.Some? ==> exists k :: FirstMatchAt(files, fileId, k) && files[k] == r.value.value
    ensures r.Ok? && r.value.None? ==> NoMatchBefore(files, fileId, |files|)
    ensures r.Err? ==> exists k | 0 <= k < |files| :: FileName !in files[k] && NoMatchBefore(files, fileId, k)
    ensures r.Err? ==> r.error == NullFileNameMessage
  {
    if |files| == 0 then Ok(None)
    else if FileName !in files[0] then
      assert NoMatchBefore(files, fileId, 0);
      Err(NullFileNameMessage)
    else if NameMatches(files[0][FileName], fileId) then
      assert FirstMatchAt(files, fileId, 0);
      Ok(Some(files[0]))
    else
      var r := FirstFileNamed(files[1..], fileId);
      assert forall j | 1 <= j < |files| :: files[j] == files[1..][j - 1];
      if r.Ok? && r.value.Some? then
        var k :| FirstMatchAt(files[1..], fileId, k) && files[1..][k] == r.value.value;
        FirstMatchShift(files, fileId, k);
        r
      else if r.Err? then
        var k :| 0 <= k < |files[1..]| && FileName !in files[1..][k] && NoMatchBefore(files[1..], fileId, k);
        assert FileName !in files[k + 1] && NoMatchBefore(files, fileId, k + 1);
        r
      else r
  }

  /** The `Location` answer of `downloadPDF`. */
  datatype Located = Located(location: Option<string>)

  /**
   * `downloadPDF`: 404 when no listed file matches, 500 when the listing or
   * the lookup threw, otherwise 200 pointing at the matching file's URL.
   */
  function DownloadPdf(reply: ListReply, fileId: string): (r: Reply<Located>)
    ensures ListingResult(AllImages, reply).Err? ==> r.status == 500
    ensures r.status == 404 <==> ListingResult(AllImages, reply).Ok? && FirstFileNamed(ListingResult(AllImages, reply).value, fileId) == Ok(None)
    ensures r.status == 200 <==> ListingResult(AllImages, reply).Ok? && FirstFileNamed(ListingResult(AllImages, reply).value, fileId).Ok? && FirstFileNamed(ListingResult(AllImages, reply).value, fileId).value.Some?
    ensures r.status == 200 ==> r.body.Some? && var f := FirstFileNamed(ListingResult(AllImages, reply).value, fileId).value.value;
      r.body.value.location == (if Url in f then Some(f[Url]) else None)
    ensures r.status in {200, 404, 500}
  {
    var listing := ListingResult(AllImages, reply);
    if listing.Err? then Reply(500, [], None)
    else
      var found := FirstFileNamed(listing.value, fileId);
      if found.Err? then Reply(500, [], None)
      else if found.value.None? then Reply(404, [], None)
      else
        var f := found.value.value;
        Reply(200, [], Some(Located(if Url in f then Some(f[Url]) else None)))
  }
}
