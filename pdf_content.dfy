/**
 * `PDFContentService`: the quality name read from a request, the file name
 * taken from a storage URL, the name and path of the generated PDF, and the
 * record saved for it. Drawing the PDF and generating its text are outside
 * the model; their failures are parameters.
 */
module PdfContent {
  import opened Wrappers
  import opened Text
  import opened Uploads
  import opened UploadRepository
  import opened UploadService
  import opened ImageGeneration

  // ---------------------------------------------------------------------------
  // `QualityEnum.valueOf(quality.toUpperCase())`

  /** The constant names of `QualityEnum`. */
  function QualityName(q: Quality): string {
    match q
    case Low => "LOW"
    case Medium => "MEDIUM"
    case High => "HIGH"
  }

  /** The quality a request names, in any letter case; an unknown or null name throws. */
  function ParseQuality(quality: Option<string>): (r: Result<Quality>)
    ensures quality.Some? ==> (r.Ok? <==> Upper(quality.value) in {"LOW", "MEDIUM", "HIGH"})
    ensures r.Ok? ==> quality.Some? && QualityName(r.value) == Upper(quality.value)
  {
    if quality.None? then Err("quality is null")
    else
      var name := Upper(quality.value);
      if name == "LOW" then Ok(Low)
      else if name == "MEDIUM" then Ok(Medium)
      else if name == "HIGH" then Ok(High)
      else Err("No enum constant com.ynov.Aikea.atools.QualityEnum." + name)
  }

  /** Each constant's name reads back as that constant, in upper case or in lower case. */
  lemma ParseQualityRoundTrip(q: Quality)
    ensures ParseQuality(Some(QualityName(q))) == Ok(q)
    ensures ParseQuality(Some(Lower(QualityName(q)))) == Ok(q)
  {
    var n := QualityName(q);
    UpperLower(n);
    assert forall k | 0 <= k < |n| :: UpperChar(n[k]) == n[k];
    assert Upper(n) == n;
  }

  // ---------------------------------------------------------------------------
  // `extractFilenameFromUrl`

  /** The message of the exception thrown when `split` leaves no piece to index. */
  const NoPieceMessage := "Index 0 out of bounds for length 0"

  /**
   * `extractFilenameFromUrl`: cut the URL at its first '?' with
   * `split("\\?")`, then take the match of `[^/]+$`, which is the text after the
   * last '/' (empty when the text is empty or ends with '/'). A URL made
   * only of '?' leaves `split` with no piece, and indexing it throws.
   */
  function ExtractFilenameFromUrl(url: string): (r: Result<string>)
    ensures r.Ok? ==> '/' !in r.value && '?' !in r.value
  {
    var pieces := JavaSplit(url, "?");
    if |pieces| == 0 then Err(NoPieceMessage)
    else
      JavaSplitPiecesFree(url, "?", 0);
      assert '?' !in pieces[0] by {
        forall k | 0 <= k < |pieces[0]| ensures pieces[0][k] != '?' {
          if pieces[0][k] == '?' { assert ContainsAt(pieces[0], "?", k); }
        }
      }
      var name := AfterLast(pieces[0], '/');
      assert forall c | c in name :: c in pieces[0] by {
        forall c | c in name ensures c in pieces[0] {
          var k :| 0 <= k < |name| && name[k] == c;
          assert pieces[0][|pieces[0]| - |name| + k] == c;
        }
      }
      Ok(name)
  }

  predicate AllEmpty(pieces: seq<string>) { forall k | 0 <= k < |pieces| :: pieces[k] == "" }

  predicate AllMarks(s: string) { forall k | 0 <= k < |s| :: s[k] == '?' }

  lemma AllEmptyCons(a: string, pieces: seq<string>)
    ensures AllEmpty([a] + pieces) <==> a == "" && AllEmpty(pieces)
  {
    var all := [a] + pieces;
    assert all[0] == a;
    assert forall k | 0 <= k < |pieces| :: all[k + 1] == pieces[k];
    if a == "" && AllEmpty(pieces) {
      forall k | 0 <= k < |all| ensures all[k] == "" {
        if k > 0 { assert all[k] == pieces[k - 1]; }
      }
    }
  }

  lemma AllMarksCons(s: string)
    requires |s| > 0
    ensures AllMarks(s) <==> s[0] == '?' && AllMarks(s[1..])
  {
    assert forall k | 0 <= k < |s[1..]| :: s[1..][k] == s[k + 1];
  }

  /** All pieces of a split at '?' are empty exactly when the text is all '?'. */
  lemma {:induction false} SplitAllEmptyIffAllMarks(s: string)
    ensures AllEmpty(SplitAll(s, "?")) <==> AllMarks(s)
    decreases |s|
  {
    var i := IndexOf(s, "?");
    if i < 0 {
      assert |s| > 0 && s[0] == '?' ==> ContainsAt(s, "?", 0) && Contains(s, "?");
      assert SplitAll(s, "?") == [s];
      assert AllEmpty([s]) <==> s == "" by { assert [s][0] == s; }
    } else {
      var rest := s[i + 1..];
      assert s[i] == '?' by { assert s[i..i + 1][0] == s[i]; }
      SplitAllEmptyIffAllMarks(rest);
      assert SplitAll(s, "?") == [s[..i]] + SplitAll(rest, "?");
      AllEmptyCons(s[..i], SplitAll(rest, "?"));
      AllMarksCons(s);
      if i > 0 {
        assert !ContainsAt(s, "?", 0);
      } else {
        assert s[1..] == rest;
      }
    }
  }

  /** The URL has no file name at all, and the call throws, exactly when it is a non-empty run of '?'. */
  lemma ExtractFilenameFails(url: string)
    ensures ExtractFilenameFromUrl(url).Err? <==> (|url| > 0 && forall k | 0 <= k < |url| :: url[k] == '?')
  {
    SplitAllEmptyIffAllMarks(url);
    var all := SplitAll(url, "?");
    if |url| > 0 && url[0] == '?' {
      assert ContainsAt(url, "?", 0);
    }
    if Contains(url, "?") {
      var t := DropTrailingEmpty(all);
      if |t| > 0 {
        assert t[|t| - 1] == all[|t| - 1];
      }
    }
  }

  /**
   * Only the text before the first '?' counts: the result is what follows
   * its last '/', whatever the query holds (a '/' in the query included).
   */
  lemma ExtractFilenameFirstPiece(base: string, query: string)
    requires '?' !in base && |base| > 0
    ensures ExtractFilenameFromUrl(base + "?" + query) == Ok(AfterLast(base, '/'))
    ensures ExtractFilenameFromUrl(base) == Ok(AfterLast(base, '/'))
  {
    assert !Contains(base, "?") by {
      forall j | 0 <= j <= |base| - 1 ensures !ContainsAt(base, "?", j) {
        assert base[j..j + 1][0] == base[j];
      }
    }
    var url := base + "?" + query;
    var i := IndexOf(url, "?");
    assert ContainsAt(url, "?", |base|);
    assert Contains(url, "?");
    forall j | 0 <= j < |base| ensures !ContainsAt(url, "?", j) {
      assert url[j..j + 1][0] == base[j];
    }
    assert i == |base|;
    assert url[..i] == base;
    assert SplitAll(url, "?")[0] == base;
    assert |DropTrailingEmpty(SplitAll(url, "?"))| > 0;
    assert JavaSplit(url, "?")[0] == base;
  }

  /**
   * The name after the last '/' of the part before the query, for a URL
   * `dir/name?query` whose directory has no '?', or a bare `name?query`.
   */
  lemma ExtractFilenameRoundTrip(dir: string, name: string, query: string)
    requires '?' !in dir && '/' !in name && '?' !in name
    ensures ExtractFilenameFromUrl(dir + "/" + name + "?" + query) == Ok(name)
    ensures ExtractFilenameFromUrl(dir + "/" + name) == Ok(name)
    ensures |name| > 0 ==> ExtractFilenameFromUrl(name + "?" + query) == Ok(name)
  {
    var base := dir + "/" + name;
    assert base == dir + ['/'] + name;
    assert '?' !in base;
    ExtractFilenameFirstPiece(base, query);
    AfterLastRoundTrip(dir, '/', name);
    if |name| > 0 {
      ExtractFilenameFirstPiece(name, query);
    }
  }

  /** A '?' before the last '/' cuts the URL there, so the later name is not returned. */
  lemma ExtractFilenameQueryBeforeSlash(pre: string, mid: string, name: string)
    requires '?' !in pre && '/' !in pre && |pre| > 0
    ensures ExtractFilenameFromUrl(pre + "?" + mid + "/" + name) == Ok(pre)
  {
    assert pre + "?" + mid + "/" + name == pre + "?" + (mid + "/" + name);
    ExtractFilenameFirstPiece(pre, mid + "/" + name);
  }

  // ---------------------------------------------------------------------------
  // `createPDF`

  /** The PDF is named after the external identifier's last path segment. */
  function PdfName(externalID: string): (r: string)
    ensures EndsWith(r, ".pdf") && '/' !in r
    ensures '/' !in externalID ==> r == externalID + ".pdf"
  {
    var r := AfterLast(externalID, '/') + ".pdf";
    assert r[|r| - 4..] == ".pdf";
    r
  }

  lemma PdfNameRoundTrip(folder: string, id: string)
    requires '/' !in id
    ensures PdfName(folder + "/" + id) == id + ".pdf"
  {
    assert folder + "/" + id == folder + ['/'] + id;
    AfterLastRoundTrip(folder, '/', id);
  }

  /** The PDF is written directly inside `basePath`. */
  function PdfPath(basePath: string, externalID: string): (r: string)
    ensures StartsWith(r, basePath + "/") && r[|basePath| + 1..] == PdfName(externalID)
  {
    var r := basePath + "/" + PdfName(externalID);
    assert r[..|basePath| + 1] == basePath + "/";
    r
  }

  /** The upload `createPDF` hands to `saveFile`: a PDF under the PDF's own name. */
  function PdfMultipartFile(externalID: string, size: int): (f: MultipartFile)
    ensures f.contentType == Some("application/pdf") && f.originalFilename == Some(PdfName(externalID))
  {
    MultipartFile(Some("application/pdf"), Some(PdfName(externalID)), size)
  }

  /** The generated PDF passes `saveFile`'s format check and is stored with a ".pdf" name. */
  lemma PdfIsAccepted(externalID: string, size: int, uuid: string)
    ensures IsPdfOrImage(PdfMultipartFile(externalID, size).contentType.value)
    ensures StoredFileName(uuid, PdfMultipartFile(externalID, size).originalFilename) == uuid + ".pdf"
  {
    var name := PdfName(externalID);
    var base := name[..|name| - 4];
    assert name == base + "." + "pdf";
    ExtensionRoundTrip(base, "pdf", "bin");
    assert StartsWith("application/pdf", "application/pdf");
  }

  /** The row `createPDF` stores: a public "pdf" upload of a PDF, tagged with the URL's file name. */
  ghost predicate IsPdfRecord(row: UploadRow, externalID: string, urlFileName: string, uuid: string) {
    && row.idExterne == Some("pdf") && row.tag1 == Some(urlFileName)
    && row.tag2 == Some("application/pdf") && row.tag3 == None && row.description == None
    && row.isPublic == Some(true) && row.fileName == uuid + ".pdf"
    && row.mimeType == Some("application/pdf") && row.originalName == Some(PdfName(externalID))
  }

  /** A thrown Java exception: its class name, its message, and whether the class is a checked exception. */
  datatype Thrown = Thrown(className: string, message: string, checked: bool)

  /**
   * The message of `reactor.core.Exceptions.propagate(e)`: an unchecked
   * exception is rethrown as it is, and a checked one is wrapped in a
   * `ReactiveException` whose message is the cause's `toString()`.
   */
  function Propagated(e: Thrown): (m: string)
    ensures !e.checked ==> m == e.message
    ensures e.checked ==> StartsWith(m, e.className + ": ") && m[|e.className| + 2..] == e.message
  {
    if e.checked then
      var m := e.className + ": " + e.message;
      assert m[..|e.className| + 2] == e.className + ": ";
      m
    else e.message
  }

  lemma FirstColonAfterClass(m: string, className: string, message: string)
    requires ':' !in className && m == className + ": " + message
    ensures |className| < |m| && m[|className|] == ':'
    ensures forall k | 0 <= k < |className| :: m[k] != ':'
  {
    forall k | 0 <= k < |className| ensures m[k] != ':' {
      assert m[k] == className[k];
    }
  }

  /** A wrapped checked exception still names its class, so distinct classes stay apart. */
  lemma PropagatedNamesCheckedClass(a: Thrown, b: Thrown)
    requires a.checked && b.checked && ':' !in a.className && ':' !in b.className
    requires Propagated(a) == Propagated(b)
    ensures a.className == b.className && a.message == b.message
  {
    var m := Propagated(a);
    FirstColonAfterClass(m, a.className, a.message);
    FirstColonAfterClass(m, b.className, b.message);
    assert |a.className| == |b.className|;
    assert a.className == m[..|a.className|] == b.className;
    assert a.message == m[|a.className| + 2..] == b.message;
  }

  /** `PDFContentService`, with the directory `init` resolved and the upload service it calls. */
  class PdfContentService {
    const basePath: string
    const uploads: Service

    constructor(basePath: string, uploads: Service)
      ensures this.basePath == basePath && this.uploads == uploads
    {
      this.basePath := basePath;
      this.uploads := uploads;
    }

    /**
     * `createPDF`: draw the PDF at `PdfPath` (a failure there is `drawError`),
     * then save it as a public "pdf" upload tagged with the storage URL's
     * file name and "application/pdf", with no third tag and no description
     * (`saveError` is what `saveFile` threw). Every exception leaves through
     * `Exceptions.propagate`, so a checked one comes out wrapped.
     */
    method CreatePdf(externalID: string, storageURL: string, size: int, drawError: Option<Thrown>, uuid: string, now: int,
                     saveError: Option<Thrown>)
      returns (r: Result<MultipartFile>)
      requires uploads.repo.Valid()
      modifies uploads.repo
      ensures uploads.repo.Valid()
      ensures drawError.Some? ==> r == Err(Propagated(drawError.value)) && uploads.repo.rows == old(uploads.repo.rows)
      ensures drawError.None? && ExtractFilenameFromUrl(storageURL).Err? ==>
        r == Err(ExtractFilenameFromUrl(storageURL).error) && uploads.repo.rows == old(uploads.repo.rows)
      ensures drawError.None? && ExtractFilenameFromUrl(storageURL).Ok? && saveError.Some? ==>
        r == Err(Propagated(saveError.value)) && uploads.repo.rows == old(uploads.repo.rows)
      ensures r.Ok? <==> drawError.None? && ExtractFilenameFromUrl(storageURL).Ok? && saveError.None?
      ensures r.Ok? ==>
        && r.value == PdfMultipartFile(externalID, size)
        && old(uploads.repo.nextId) in uploads.repo.rows
        && uploads.repo.rows == old(uploads.repo.rows)[old(uploads.repo.nextId) := uploads.repo.rows[old(uploads.repo.nextId)]]
        && IsPdfRecord(uploads.repo.rows[old(uploads.repo.nextId)], externalID, ExtractFilenameFromUrl(storageURL).value, uuid)
    {
      var pdfName := PdfName(externalID);
      var pdfPath := basePath + "/" + pdfName;
      if drawError.Some? {
        return Err(Propagated(drawError.value));
      }
      var multipartFile := MultipartFile(Some("application/pdf"), Some(pdfName), size);
      var tag1 := ExtractFilenameFromUrl(storageURL);
      if tag1.Err? {
        return Err(tag1.error);
      }
      PdfIsAccepted(externalID, size, uuid);
      var saved := uploads.SaveFile(multipartFile, Some("pdf"), Some(tag1.value), Some("application/pdf"), None,
                                    None, Some(true), None, None, uuid, now,
                                    if saveError.Some? then Some(saveError.value.message) else None);
      if saved.Err? {
        return Err(Propagated(saveError.value));
      }
      assert IsPdfRecord(uploads.repo.rows[old(uploads.repo.nextId)], externalID, tag1.value, uuid);
      r := Ok(multipartFile);
    }
  }

  // ---------------------------------------------------------------------------
  // `generatePDFContent`

  /** `PDFContentDTO`: the generated text beside the generated image. */
  datatype PdfContentDto = PdfContentDto(generatedText: string, generatedImage: GeneratedImage)

  /**
   * `generatePDFContent`: the quality name is read first, so a bad name
   * fails before any image is requested; then the image is generated and
   * saved, then the text is generated from it (`text` is what that call
   * returned or threw).
   */
  function GeneratePdfContent(prompt: string, quality: Option<string>, reply: DalleReply, upload: CloudUpload,
                              recordId: int, writeError: Option<string>, text: Result<string>): (r: Result<PdfContentDto>)
    ensures ParseQuality(quality).Err? ==> r == Err(ParseQuality(quality).error)
    ensures r.Ok? <==> ParseQuality(quality).Ok?
                       && GenerateAndSaveImage(prompt, ParseQuality(quality).value, reply, upload, recordId, writeError).result.Ok?
                       && text.Ok?
    ensures r.Ok? ==> (r.value.generatedText == text.value
      && r.value.generatedImage == GenerateAndSaveImage(prompt, ParseQuality(quality).value, reply, upload, recordId, writeError).result.value)
  {
    var q := ParseQuality(quality);
    if q.Err? then Err(q.error)
    else
      var image := GenerateAndSaveImage(prompt, q.value, reply, upload, recordId, writeError).result;
      if image.Err? then Err(image.error)
      else if text.Err? then Err(text.error)
      else Ok(PdfContentDto(text.value, image.value))
  }
}
