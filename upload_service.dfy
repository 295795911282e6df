/**
 * `UploadService`: stores uploaded files' records in the uploads table and
 * updates them in place. Writing and deleting the file bytes on disk is not
 * modelled, only whether it threw; the random UUID and the clock are parameters.
 */
module UploadService {
  import opened Wrappers
  import opened Text
  import opened Uploads
  import opened UploadRepository

  /** What the service reads from a `MultipartFile`. */
  datatype MultipartFile = MultipartFile(contentType: Option<string>, originalFilename: Option<string>, size: int)

  const UnsupportedFormat := "Format de fichier non supporté. Seuls les PDF et images sont acceptés."

  /** `isPdfOrImage`. */
  predicate IsPdfOrImage(mimeType: string) {
    StartsWith(mimeType, "image/") || mimeType == "application/pdf"
  }

  /** The service accepts exactly the MIME types an entity reports as image or PDF. */
  lemma AcceptedTypesAreImageOrPdf(mimeType: Option<string>)
    ensures (mimeType.Some? && IsPdfOrImage(mimeType.value)) <==> IsImageType(mimeType) || IsPdfType(mimeType)
  {
  }

  /** The stored name: the UUID, a dot, and the original extension or "bin". */
  function StoredFileName(uuid: string, originalFilename: Option<string>): (name: string)
    ensures StartsWith(name, uuid + ".")
    ensures originalFilename.None? || '.' !in originalFilename.value ==> name == uuid + ".bin"
    ensures originalFilename.Some? && '.' in originalFilename.value ==>
      EndsWith(originalFilename.value, name[|uuid|..]) && '.' !in name[|uuid| + 1..]
  {
    var ext := ExtensionOr(originalFilename, "bin");
    var name := uuid + "." + ext;
    assert name[..|uuid| + 1] == uuid + ".";
    assert name[|uuid|..] == "." + ext;
    name
  }

  class Service {
    const uploadDirectory: string
    const repo: UploadTable

    constructor(uploadDirectory: string, repo: UploadTable)
      ensures this.uploadDirectory == uploadDirectory && this.repo == repo
    {
      this.uploadDirectory := uploadDirectory;
      this.repo := repo;
    }

    /**
     * `saveFile`: an unsupported or missing MIME type is refused and nothing
     * is stored. Then the directory is created and the bytes copied;
     * `diskError` is the `IOException` one of them threw, and it leaves the
     * table alone. Otherwise a new row with the given metadata, a private
     * default visibility and a zero download count is inserted.
     */
    method SaveFile(file: MultipartFile, idExterne: Option<string>,
                    tag1: Option<string>, tag2: Option<string>, tag3: Option<string>,
                    description: Option<string>, isPublic: Option<bool>,
                    uploaderId: Option<int>, uploaderName: Option<string>,
                    uuid: string, now: int, diskError: Option<string>)
      returns (r: Result<Upload>)
      requires repo.Valid()
      modifies repo
      ensures repo.Valid()
      ensures file.contentType.None? || !IsPdfOrImage(file.contentType.value) ==>
        r == Err(UnsupportedFormat) && repo.rows == old(repo.rows) && repo.nextId == old(repo.nextId)
      ensures file.contentType.Some? && IsPdfOrImage(file.contentType.value) && diskError.Some? ==>
        r == Err(diskError.value) && repo.rows == old(repo.rows) && repo.nextId == old(repo.nextId)
      ensures file.contentType.Some? && IsPdfOrImage(file.contentType.value) && diskError.None? ==>
        && r.Ok? && fresh(r.value)
        && var name := StoredFileName(uuid, file.originalFilename);
           var row := UploadRow(old(repo.nextId), idExterne, name, file.originalFilename, file.contentType,
                                Some(file.size), uploadDirectory + "/" + name, tag1, tag2, tag3,
                                Some(if isPublic.Some? then isPublic.value else false), now,
                                uploaderId, uploaderName, description, Some(0));
           r.value.Row() == row && repo.rows == old(repo.rows)[row.id := row]
    {
      var mimeType := file.contentType;
      if mimeType.None? || !IsPdfOrImage(mimeType.value) {
        return Err(UnsupportedFormat);
      }
      var uniqueFilename := StoredFileName(uuid, file.originalFilename);
      var filePath := uploadDirectory + "/" + uniqueFilename;
      if diskError.Some? {
        return Err(diskError.value);
      }
      var upload := new Upload.FromRow(UploadRow(0, idExterne, uniqueFilename, file.originalFilename, mimeType,
                                                 Some(file.size), filePath, tag1, tag2, tag3,
                                                 Some(if isPublic.Some? then isPublic.value else false), now,
                                                 uploaderId, uploaderName, description, Some(0)));
      repo.Save(upload, now);
      r := Ok(upload);
    }

    /** `getFile`: the stored row as a fresh entity, or null. */
    method GetFile(id: int) returns (u: Option<Upload>)
      ensures u.Some? <==> id in repo.rows
      ensures u.Some? ==> fresh(u.value) && u.value.Row() == repo.rows[id]
    {
      u := repo.FindById(id);
    }

    /**
     * `deleteFile`: a missing id changes nothing. For a stored row the file
     * is deleted first; `deleteError` is the `IOException` that `Files.delete`
     * threw (`None` when it succeeded or the file was absent), and it keeps
     * the row. Otherwise the row goes.
     */
    method DeleteFile(id: int, deleteError: Option<string>) returns (error: Option<string>)
      requires repo.Valid()
      modifies repo
      ensures repo.Valid() && repo.nextId == old(repo.nextId)
      ensures id !in old(repo.rows) ==> error.None? && repo.rows == old(repo.rows)
      ensures id in old(repo.rows) ==> error == deleteError
      ensures error.Some? ==> repo.rows == old(repo.rows)
      ensures error.None? ==> repo.rows == old(repo.rows) - {id}
    {
      var upload := repo.FindById(id);
      if upload.Some? {
        if deleteError.Some? {
          return deleteError;
        }
        repo.Delete(upload.value);
      }
      error := None;
    }

    /** `getAllPublicFiles`. */
    method GetAllPublicFiles() returns (ids: set<int>)
      ensures ids == FindByIsPublicTrue(repo.rows)
    {
      ids := FindByIsPublicTrue(repo.rows);
    }

    /** `searchByTags`: the public-only query exactly when `publicOnly`. */
    method SearchByTags(tag1: Option<string>, tag2: Option<string>, tag3: Option<string>, publicOnly: bool)
      returns (ids: set<int>)
      ensures publicOnly ==> ids == FindPublicByTags(repo.rows, tag1, tag2, tag3)
      ensures !publicOnly ==> ids == FindByTags(repo.rows, tag1, tag2, tag3)
      ensures ids <= FindByTags(repo.rows, tag1, tag2, tag3)
    {
      if publicOnly {
        ids := FindPublicByTags(repo.rows, tag1, tag2, tag3);
      } else {
        ids := FindByTags(repo.rows, tag1, tag2, tag3);
      }
    }

    /** `incrementDownloadCount`: the stored count plus one (null read as 0), or 0 for a missing id. */
    method IncrementDownloadCount(id: int) returns (count: int)
      requires repo.Valid()
      modifies repo
      ensures repo.Valid() && repo.nextId == old(repo.nextId)
      ensures id !in old(repo.rows) ==> count == 0 && repo.rows == old(repo.rows)
      ensures id in old(repo.rows) ==>
        var before := old(repo.rows)[id];
        var after := Inc32(if before.downloadCount.Some? then before.downloadCount.value else 0);
        count == after as int && repo.rows == old(repo.rows)[id := before.(downloadCount := Some(after))]
    {
      var upload := repo.FindById(id);
      if upload.Some? {
        var u := upload.value;
        var _ := u.IncrementDownloadCount();
        repo.Save(u, u.uploadDate);
        return u.downloadCount.value as int;
      }
      return 0;
    }

    /** `updateVisibility`: true and only the flag changed when the id exists. */
    method UpdateVisibility(id: int, isPublic: bool) returns (updated: bool)
      requires repo.Valid()
      modifies repo
      ensures repo.Valid() && repo.nextId == old(repo.nextId)
      ensures updated <==> id in old(repo.rows)
      ensures updated ==> repo.rows == old(repo.rows)[id := old(repo.rows)[id].(isPublic := Some(isPublic))]
      ensures !updated ==> repo.rows == old(repo.rows)
    {
      var upload := repo.FindById(id);
      if upload.Some? {
        var u := upload.value;
        u.isPublic := Some(isPublic);
        repo.Save(u, u.uploadDate);
        return true;
      }
      return false;
    }

    /** `updateTags`: all three tags overwritten, null included, when the id exists. */
    method UpdateTags(id: int, tag1: Option<string>, tag2: Option<string>, tag3: Option<string>) returns (updated: bool)
      requires repo.Valid()
      modifies repo
      ensures repo.Valid() && repo.nextId == old(repo.nextId)
      ensures updated <==> id in old(repo.rows)
      ensures updated ==> repo.rows == old(repo.rows)[id := old(repo.rows)[id].(tag1 := tag1, tag2 := tag2, tag3 := tag3)]
      ensures !updated ==> repo.rows == old(repo.rows)
    {
      var upload := repo.FindById(id);
      if upload.Some? {
        var u := upload.value;
        u.tag1, u.tag2, u.tag3 := tag1, tag2, tag3;
        repo.Save(u, u.uploadDate);
        return true;
      }
      return false;
    }
  }
}
