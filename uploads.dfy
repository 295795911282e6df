/**
 * The `Upload` entity: one uploaded file's record. Its counters and flags are
 * updated in place, so it is a class; `UploadRow` is the value a table row
 * holds, and `Row()` reads the entity as that value.
 */
module Uploads {
  import opened Wrappers
  import opened Text

  /** Java `Integer`: 32 bits, wrapping on overflow. */
  newtype Int32 = x: int | -0x8000_0000 <= x < 0x8000_0000

  /** `x + 1` on a Java `int`/`Integer`: the largest value wraps to the smallest. */
  function Inc32(x: Int32): (r: Int32)
    ensures x as int < 0x7fff_ffff ==> r as int == x as int + 1
    ensures x as int == 0x7fff_ffff ==> r as int == -0x8000_0000
  {
    if x == 0x7fff_ffff then -0x8000_0000 else x + 1
  }

  /** The columns of the `uploads` table. Dates are abstract timestamps; `None` stands for SQL/Java null. */
  datatype UploadRow = UploadRow(
    id: int,
    idExterne: Option<string>,
    fileName: string,
    originalName: Option<string>,
    mimeType: Option<string>,
    fileSize: Option<int>,
    filePath: string,
    tag1: Option<string>,
    tag2: Option<string>,
    tag3: Option<string>,
    isPublic: Option<bool>,
    uploadDate: int,
    uploaderId: Option<int>,
    uploaderName: Option<string>,
    description: Option<string>,
    downloadCount: Option<Int32>)

  /** `isImage`: a MIME type that starts with "image/". */
  predicate IsImageType(mimeType: Option<string>) {
    mimeType.Some? && StartsWith(mimeType.value, "image/")
  }

  /** `isPdf`: exactly "application/pdf". */
  predicate IsPdfType(mimeType: Option<string>) {
    mimeType == Some("application/pdf")
  }

  /** No MIME type is both an image type and the PDF type. */
  lemma ImageAndPdfExclusive(mimeType: Option<string>)
    ensures !(IsImageType(mimeType) && IsPdfType(mimeType))
  {
    if IsPdfType(mimeType) {
      assert mimeType.value[..6] == "applic";
    }
  }

  /** `isTextDocument`: one of four markers occurs in the MIME type. */
  predicate IsTextDocumentType(mimeType: Option<string>) {
    && mimeType.Some?
    && (|| Contains(mimeType.value, "text/")
        || Contains(mimeType.value, "document")
        || Contains(mimeType.value, "msword")
        || Contains(mimeType.value, "application/vnd.openxmlformats-officedocument"))
  }

  /**
   * The text after the last '.' of a file name, or `fallback` for a null name
   * or one without a dot. `Upload.getFileExtension` falls back to "",
   * `UploadService.getFileExtension` to "bin".
   */
  function ExtensionOr(name: Option<string>, fallback: string): (ext: string)
    ensures name.None? || '.' !in name.value ==> ext == fallback
    ensures name.Some? && '.' in name.value ==> '.' !in ext && EndsWith(name.value, "." + ext)
  {
    if name.None? || '.' !in name.value then fallback
    else
      var ext := AfterLast(name.value, '.');
      var n, j := name.value, |name.value| - |ext| - 1;
      assert n[j..] == [n[j]] + n[j + 1..];
      assert n[j..] == "." + ext;
      ext
  }

  /** A base name, a dot and a dot-free extension give back that extension. */
  lemma ExtensionRoundTrip(base: string, ext: string, fallback: string)
    requires '.' !in ext
    ensures ExtensionOr(Some(base + "." + ext), fallback) == ext
  {
    AfterLastRoundTrip(base, '.', ext);
    assert base + "." + ext == base + ['.'] + ext;
    assert (base + "." + ext)[|base|] == '.';
  }

  class Upload {
    var id: int
    var idExterne: Option<string>
    var fileName: string
    var originalName: Option<string>
    var mimeType: Option<string>
    var fileSize: Option<int>
    var filePath: string
    var tag1: Option<string>
    var tag2: Option<string>
    var tag3: Option<string>
    var isPublic: Option<bool>
    var uploadDate: int
    var uploaderId: Option<int>
    var uploaderName: Option<string>
    var description: Option<string>
    var downloadCount: Option<Int32>

    /** The entity's fields as a table row. */
    function Row(): UploadRow
      reads this
    {
      UploadRow(id, idExterne, fileName, originalName, mimeType, fileSize, filePath, tag1, tag2, tag3,
                isPublic, uploadDate, uploaderId, uploaderName, description, downloadCount)
    }

    /** An entity loaded from a row (what `findById` hands out). */
    constructor FromRow(r: UploadRow)
      ensures Row() == r
    {
      id, idExterne, fileName, originalName := r.id, r.idExterne, r.fileName, r.originalName;
      mimeType, fileSize, filePath := r.mimeType, r.fileSize, r.filePath;
      tag1, tag2, tag3 := r.tag1, r.tag2, r.tag3;
      isPublic, uploadDate, uploaderId, uploaderName := r.isPublic, r.uploadDate, r.uploaderId, r.uploaderName;
      description, downloadCount := r.description, r.downloadCount;
    }

    /** `prePersist`: a null `isPublic` becomes false and a null `downloadCount` 0; set values stay. */
    method PrePersist()
      modifies this
      ensures isPublic == Some(if old(isPublic).Some? then old(isPublic).value else false)
      ensures downloadCount == Some(if old(downloadCount).Some? then old(downloadCount).value else 0)
      ensures Row() == old(Row()).(isPublic := isPublic, downloadCount := downloadCount)
    {
      if isPublic.None? {
        isPublic := Some(false);
      }
      if downloadCount.None? {
        downloadCount := Some(0);
      }
    }

    /** `incrementDownloadCount`: null counts as 0; the stored and returned value is one more (wrapping). */
    method IncrementDownloadCount() returns (count: Int32)
      modifies this
      ensures count == Inc32(if old(downloadCount).Some? then old(downloadCount).value else 0)
      ensures downloadCount == Some(count)
      ensures Row() == old(Row()).(downloadCount := downloadCount)
    {
      if downloadCount.None? {
        downloadCount := Some(0);
      }
      downloadCount := Some(Inc32(downloadCount.value));
      count := downloadCount.value;
    }

    function IsImage(): (r: bool)
      reads this
      ensures r ==> !IsPdfType(mimeType)
      ensures mimeType.None? ==> !r
    {
      ImageAndPdfExclusive(mimeType);
      IsImageType(mimeType)
    }

    function IsPdf(): (r: bool)
      reads this
      ensures r ==> !IsImageType(mimeType)
      ensures mimeType.None? ==> !r
    {
      ImageAndPdfExclusive(mimeType);
      IsPdfType(mimeType)
    }

    function IsTextDocument(): (r: bool)
      reads this
      ensures mimeType.None? ==> !r
      ensures IsPdfType(mimeType) ==> !r
    {
      PdfIsNotText();
      IsTextDocumentType(mimeType)
    }

    /** `getFileExtension`: the original name's extension, "" when there is none. */
    function GetFileExtension(): (ext: string)
      reads this
      ensures originalName.None? || '.' !in originalName.value ==> ext == ""
      ensures originalName.Some? && '.' in originalName.value ==> EndsWith(originalName.value, "." + ext) && '.' !in ext
    {
      ExtensionOr(originalName, "")
    }
  }

  /** "application/pdf" contains none of the text-document markers. */
  lemma PdfIsNotText()
    ensures !IsTextDocumentType(Some("application/pdf"))
  {
    var m := "application/pdf";
    forall i | 0 <= i <= |m| - 5 ensures !ContainsAt(m, "text/", i) {
      assert m[i..i + 5][0] == m[i] && m[i..i + 5][1] == m[i + 1];
    }
    forall i | 0 <= i <= |m| - 8 ensures !ContainsAt(m, "document", i) {
      assert m[i..i + 8][0] == m[i] && m[i..i + 8][1] == m[i + 1];
    }
    forall i | 0 <= i <= |m| - 6 ensures !ContainsAt(m, "msword", i) {
      assert m[i..i + 6][0] == m[i];
    }
  }
}
