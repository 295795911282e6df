# AIKEA backend and PDF catalogue, modelled in Dafny

AIKEA is a Spring backend and a React Native app. Students use them to generate images and PDFs and to keep their files in an external "bucket" service. This project models the deterministic logic of that system in Dafny and proves what it promises:

- **Bucket gateway** (`BucketGateway`, `BucketListing`, `Json`). The gateway is `ImageUploadCustomBucketService`. The model covers:
  - the two-stage parser of a curl listing: a Jackson tree first, then a split-and-regex scan of the raw text;
  - the listing fallback: an unauthenticated probe, then curl, then a synthetic `ip_filtered` record;
  - the delete escalation from HTTP to curl on a 403;
  - the JSON bodies of the search calls, the multipart form and the result of an upload;
  - `isConfigured` and `getBucketStats`.
- **Local upload bookkeeping**:
  - `Uploads`: the `Upload` entity, a class whose counter and flags change in place.
  - `UploadRepository`: the `uploads` table and its queries as filters over a map from id to row.
  - `UploadService`: a class that inserts, updates and deletes rows through the table.
- **Image generation** (`ImageGeneration`, `ImageController`):
  - the file name built from a prompt, with its length budget and early `break`;
  - the collision-free path search `getAvailablePath`;
  - the disk name of `saveOnComputer`;
  - the DALL-E request for each quality and the checks around saving;
  - the controller's quality switch, prompt cleaning and 400 answers.
- **PDF creation** (`PdfContent`, `PdfContentController`):
  - the file name taken from a storage URL;
  - the PDF's name, path and saved record;
  - the quality parsing of `generatePDFContent`;
  - the downloaded file's name, the upload defaults, the swallowed upload failure and the `downloadPDF` lookup.
- **Student endpoints** (`StudentController`): default tags, the choice between pattern search and full listing, lookup by id, deletion, and the IP-filter report of the debug endpoint.
- **Client catalogue** (`PdfCatalogue`). This is the app's `PdfService`. The model covers:
  - the local/remote merge with its counters;
  - the skip rule of a sync;
  - case-insensitive search, validation, name and tag extraction, deletion and statistics.

`Text` holds the Java and JavaScript string operations the model needs: `split` with its trailing-empty rule, `trim`, `lastIndexOf`, a regex `find`, ASCII case folding and number rendering. `Wrappers` holds `Option` and `Result`.

These inputs are parameters, not computations:

- every network call (status codes, exception messages, curl exit codes and output, the Jackson tree of that output);
- the clock (`now`, timestamps);
- the random UUID and the app's generated id;
- the set of paths that already exist on disk;
- the outcome of each disk operation: the write of `saveOnComputer` (`writeError`), the directory creation and copy of `saveFile` (`diskError`), the file delete of `deleteFile` (`deleteError`), and a failing `saveFile` inside `createPDF` (`saveError`);
- what DALL-E and the cloud upload return.

A Java exception is an `Err` carrying the message the code builds, and Java `null` is `None`.

## Model

| member | source | states |
|---|---|---|
| BucketGateway.GetBucketStats | Aikea-server/src/main/java/com/ynov/Aikea/service/ImageUploadCustomBucketService.java:348-356 | Local storage is always reported disabled; the base URL is echoed; a token is reported exactly when one is configured |
| BucketGateway.IsConfigured | Aikea-server/src/main/java/com/ynov/Aikea/service/ImageUploadCustomBucketService.java:632-640 | `isConfigured` holds exactly when the statistics report a token and a non-empty base URL |
| BucketGateway.CheckIfIpFiltered | Aikea-server/src/main/java/com/ynov/Aikea/service/ImageUploadCustomBucketService.java:416-440 | Filtering is reported exactly when the unauthenticated probe answered 403; a probe exception counts as not filtered |
| BucketGateway.IpFilteredResponse | Aikea-server/src/main/java/com/ynov/Aikea/service/ImageUploadCustomBucketService.java:445-458 | Exactly one record with exactly six keys: id "ip-filtered-info", status "ip_filtered", type "info" |
| BucketGateway.GetAllPdfsViaCurl | Aikea-server/src/main/java/com/ynov/Aikea/service/ImageUploadCustomBucketService.java:826-896 | Succeeds exactly when curl exited with 0 and its trimmed output is non-empty, and then gives the listing parse of that output; every failure carries the curl prefix |
| BucketGateway.DebugListing | Aikea-server/src/main/java/com/ynov/Aikea/service/ImageUploadCustomBucketService.java:463-581 | Succeeds exactly on a 2xx status, and then gives the empty list; every failure carries the "Failed to call external bucket" prefix |
| BucketGateway.GetAllPdfsWhenFiltered | Aikea-server/src/main/java/com/ynov/Aikea/service/ImageUploadCustomBucketService.java:373-395 | Under IP filtering the listing never fails: it is a non-empty curl parse when curl succeeded with records, and otherwise the single ip_filtered record |
| BucketGateway.GetAllPdfsWhenNotFiltered | Aikea-server/src/main/java/com/ynov/Aikea/service/ImageUploadCustomBucketService.java:373-411 | Without filtering: a 2xx gives the empty list; a failure mentioning 403 gives the ip_filtered record; any other failure is rethrown with the listing prefix |
| BucketGateway.GetAllPdfs | Aikea-server/src/main/java/com/ynov/Aikea/service/ImageUploadCustomBucketService.java:373-411 | Under IP filtering the listing never fails. It fails exactly when there is no filtering and the debug call failed with a message not mentioning 403, and then with the listing prefix before that message |
| BucketGateway.Debug403GivesIpFiltered | Aikea-server/src/main/java/com/ynov/Aikea/service/ImageUploadCustomBucketService.java:404-407 | An authenticated 403 on the debug call yields the ip_filtered record, whatever the reason phrase and error body |
| BucketGateway.DeleteWithHttpClient | Aikea-server/src/main/java/com/ynov/Aikea/service/ImageUploadCustomBucketService.java:130-153 | Reports no failure exactly when the status is 200 |
| BucketGateway.DeleteViaCurl | Aikea-server/src/main/java/com/ynov/Aikea/service/ImageUploadCustomBucketService.java:157-218 | Reports no failure exactly when curl exited with 0; failures carry the curl DELETE prefix |
| BucketGateway.DeleteImageOutcome | Aikea-server/src/main/java/com/ynov/Aikea/service/ImageUploadCustomBucketService.java:97-125 | The delete goes through HTTP exactly on a 200. It goes through curl exactly when HTTP failed with a message containing "403" and curl exited with 0. Every other case fails with the delete prefix |
| BucketGateway.DeleteImage | Aikea-server/src/main/java/com/ynov/Aikea/service/ImageUploadCustomBucketService.java:97-125 | The delete goes through HTTP exactly on a 200; through curl only when curl exited with 0; every failure starts with the delete prefix |
| BucketGateway.Delete403Escalates | Aikea-server/src/main/java/com/ynov/Aikea/service/ImageUploadCustomBucketService.java:110-114 | An HTTP 403 status escalates to curl, and curl's outcome decides the result |
| BucketGateway.TagSearchBody | Aikea-server/src/main/java/com/ynov/Aikea/service/ImageUploadCustomBucketService.java:270-273 | Each tag key is present exactly when that tag is non-null with content after trimming; it holds the untrimmed value; no other key is present |
| BucketGateway.ExternalIdSearchBody | Aikea-server/src/main/java/com/ynov/Aikea/service/ImageUploadCustomBucketService.java:313-316 | The `idExterne` key is present exactly when the id has content after trimming; it holds the untrimmed value; no other key is present |
| BucketGateway.PatternSearchBody | Aikea-server/src/main/java/com/ynov/Aikea/service/ImageUploadCustomBucketService.java:598-601 | The `pattern` key is present exactly when the pattern has content after trimming; it holds the untrimmed value; no other key is present |
| BucketGateway.BlankSearchValueOmitted | Aikea-server/src/main/java/com/ynov/Aikea/service/ImageUploadCustomBucketService.java:270-273 | A value made only of spaces and control characters never enters a body |
| BucketGateway.ListingResult | Aikea-server/src/main/java/com/ynov/Aikea/service/ImageUploadCustomBucketService.java:221-257 | A listing or search succeeds exactly on status 200, giving the body (or the empty list for a null body); every failure starts with the call's own message |
| BucketGateway.FindPdfsByPatternAsWritten | Aikea-server/src/main/java/com/ynov/Aikea/service/ImageUploadCustomBucketService.java:583-627 | With a token of at least eight characters the search result is that of the bucket's reply; a shorter token always fails with the search's error stem, whatever the bucket answered |
| BucketGateway.ShortTokenBreaksPatternSearch | Aikea-server/src/main/java/com/ynov/Aikea/service/ImageUploadCustomBucketService.java:606 | A seven-character token makes the pattern search fail although the bucket answered 200 |
| BucketGateway.FindPdfsByPattern | Aikea-server/src/main/java/com/ynov/Aikea/service/ImageUploadCustomBucketService.java:583-627 | With the token preview bounded, the search succeeds exactly when the bucket answered 200, whatever the token |
| BucketGateway.ValueOf | Aikea-server/src/main/java/com/ynov/Aikea/service/ImageUploadCustomBucketService.java:665-670 | A missing field renders as "null", as `String.valueOf` of a null value does |
| BucketGateway.UserRecord | Aikea-server/src/main/java/com/ynov/Aikea/service/ImageUploadCustomBucketService.java:665-671 | A user listing record has exactly six keys; id and name are both the upload's `idExterne`; url and the tags are its fields |
| BucketGateway.UserListing | Aikea-server/src/main/java/com/ynov/Aikea/service/ImageUploadCustomBucketService.java:660-696 | Succeeds exactly on status 200. It gives one record per upload, in order, or the empty list when the body lacks the uploads key. Failures carry the listing prefix |
| BucketGateway.ShortUserTokenBreaksListing | Aikea-server/src/main/java/com/ynov/Aikea/service/ImageUploadCustomBucketService.java:655 | A short user token fails the listing although the configured token is long enough |
| BucketGateway.GetAllPdfsForUserAsWritten | Aikea-server/src/main/java/com/ynov/Aikea/service/ImageUploadCustomBucketService.java:642-698 | With an effective token of at least eight characters the listing is the bounded-preview one; a shorter one always fails with the listing prefix |
| BucketGateway.GetAllPdfsForUser | Aikea-server/src/main/java/com/ynov/Aikea/service/ImageUploadCustomBucketService.java:642-698 | With the token preview bounded, the user listing succeeds exactly when the bucket answered 200 |
| BucketGateway.UploadFormFields | Aikea-server/src/main/java/com/ynov/Aikea/service/ImageUploadCustomBucketService.java:62-66 | The form holds `idExterne` always; then tag1, tag2, tag3 and description, each only when non-null, in that order |
| BucketGateway.UploadResult | Aikea-server/src/main/java/com/ynov/Aikea/service/ImageUploadCustomBucketService.java:46-96 | An upload succeeds exactly on status 200 with a body. The url is copied. The id is the response id, or the original file name when that is null. Failures carry the upload prefix |
| BucketListing.UploadsArray | Aikea-server/src/main/java/com/ynov/Aikea/service/ImageUploadCustomBucketService.java:905-912 | Stage one applies exactly when the tree is an object whose `studentUploadReadingDTOS` field is an array |
| BucketListing.BuildRecordIdAndUrl | Aikea-server/src/main/java/com/ynov/Aikea/service/ImageUploadCustomBucketService.java:917-930 | The id fills "id" and "name", and the url fills its three keys, only when they were read |
| BucketListing.BuildRecordTags | Aikea-server/src/main/java/com/ynov/Aikea/service/ImageUploadCustomBucketService.java:931-940 | Each tag fills its own key exactly when it was read |
| BucketListing.BuildRecordFields | Aikea-server/src/main/java/com/ynov/Aikea/service/ImageUploadCustomBucketService.java:917-946 | A built record holds the read fields and the defaults type "pdf", mimeType "application/pdf", size "0" and the upload time. It never holds the ip_filtered keys message, solution and status, nor a fileName |
| BucketListing.WithoutListingKeyEmpty | Aikea-server/src/main/java/com/ynov/Aikea/service/ImageUploadCustomBucketService.java:902 | A text that does not mention `studentUploadReadingDTOS` yields no record, whatever the tree |
| BucketListing.ParsedListing | Aikea-server/src/main/java/com/ynov/Aikea/service/ImageUploadCustomBucketService.java:899-1029 | No listing key gives no record. Otherwise there is one record per array element when Jackson finds the array, else one per block after the first; every record has type "pdf" and the upload time |
| BucketListing.BuildRecord | Aikea-server/src/main/java/com/ynov/Aikea/service/ImageUploadCustomBucketService.java:1008-1011 | Every built record holds the defaults type "pdf", mimeType "application/pdf", size "0" and the upload time |
| BucketListing.TreeStageRecords | Aikea-server/src/main/java/com/ynov/Aikea/service/ImageUploadCustomBucketService.java:913-951 | Stage one gives exactly one record per array element, keyless elements included. The id is `idExterne` under "id" and "name"; the url fills its three keys; a tag is kept only when non-empty; the defaults are always there |
| BucketListing.TreeNullTagBecomesText | Aikea-server/src/main/java/com/ynov/Aikea/service/ImageUploadCustomBucketService.java:931-933 | A JSON null tag is stored as the text "null" |
| BucketListing.TailOfDropTrailingEmpty | Aikea-server/src/main/java/com/ynov/Aikea/service/ImageUploadCustomBucketService.java:964-966 | Dropping the first piece of a split commutes with dropping trailing empty pieces |
| BucketListing.TailOfSplit | Aikea-server/src/main/java/com/ynov/Aikea/service/ImageUploadCustomBucketService.java:964-966 | The pieces after the first are the split of the text after the first separator |
| BucketListing.LaterChunksAfterFirstMarker | Aikea-server/src/main/java/com/ynov/Aikea/service/ImageUploadCustomBucketService.java:964-966 | Stage two reads no block when there is no marker. Otherwise it reads the blocks of the text after the first marker, trailing empty blocks dropped, so the text before the first marker is ignored |
| BucketListing.BlockRecordFields | Aikea-server/src/main/java/com/ynov/Aikea/service/ImageUploadCustomBucketService.java:971-1011 | In a block's record a field is present exactly when its pattern matches somewhere in the block; the id is a non-empty run without quotes |
| BucketListing.TextStageRecords | Aikea-server/src/main/java/com/ynov/Aikea/service/ImageUploadCustomBucketService.java:961-1019 | Stage two runs when the tree has no listing array or Jackson failed. It gives one record per block after the first marker, trailing empty blocks excepted |
| BucketListing.ParseCurlJsonResponse | Aikea-server/src/main/java/com/ynov/Aikea/service/ImageUploadCustomBucketService.java:899-1029 | The loops of both stages compute exactly the listing parse of the text, the tree and the clock. The parse is total, because only Jackson can throw and its failure selects stage two, so the outer `catch` never changes the result |
| BucketListing.ReadTreeUploads | Aikea-server/src/main/java/com/ynov/Aikea/service/ImageUploadCustomBucketService.java:913-951 | Stage one's loop yields one record per array element, in order |
| BucketListing.ReadTreeNode | Aikea-server/src/main/java/com/ynov/Aikea/service/ImageUploadCustomBucketService.java:915-946 | The loop body builds the record that the extracted fields of the element define |
| BucketListing.ReadTextBlocks | Aikea-server/src/main/java/com/ynov/Aikea/service/ImageUploadCustomBucketService.java:964-1016 | Stage two's loop skips the piece before the first marker and yields one record per later piece, in order |
| BucketListing.ReadBlock | Aikea-server/src/main/java/com/ynov/Aikea/service/ImageUploadCustomBucketService.java:968-1011 | The loop body builds the record that the regex reads of the block define |
| Json.Get | Aikea-server/src/main/java/com/ynov/Aikea/service/ImageUploadCustomBucketService.java:917-918 | `get` finds a field exactly when `has` does |
| Json.AsText | Aikea-server/src/main/java/com/ynov/Aikea/service/ImageUploadCustomBucketService.java:919 | `asText` of a string node is the string, and of a container is "" |
| Text.FindQuotedFromLeftmost | Aikea-server/src/main/java/com/ynov/Aikea/service/ImageUploadCustomBucketService.java:971-977 | The regex `find` fails exactly when no match starts in the text; otherwise it gives the capture of the leftmost match |
| Text.HasContentIff | Aikea-server/src/main/java/com/ynov/Aikea/service/ImageUploadCustomBucketService.java:270-273 | A value has content after `trim` exactly when one of its characters is above the space character |
| PdfCatalogue.LastWithId | aikea--app/services/PdfService.ts:300 | The map built from the local list holds, for an id, a local document with that id |
| PdfCatalogue.MapKeys | aikea--app/services/PdfService.ts:300 | The map's keys are exactly the local ids, each once, and there are no more of them than documents |
| PdfCatalogue.Without | aikea--app/services/PdfService.ts:320 | Deleting keys leaves exactly the keys not deleted, and never more of them |
| PdfCatalogue.RemoteChoice | aikea--app/services/PdfService.ts:306-317 | The document pushed for a remote position carries that remote id |
| PdfCatalogue.RemotePart | aikea--app/services/PdfService.ts:303-322 | The remote pass pushes one document per remote document |
| PdfCatalogue.MergeDocuments | aikea--app/services/PdfService.ts:295-330 | The merge computes the remote part followed by the local-only part. `newDocuments` and `updatedDocuments` are their counts, and `deletedDocuments` is 0 |
| PdfCatalogue.MergeRemote | aikea--app/services/PdfService.ts:303-322 | The pass over the remote list pushes, counts and deletes from the map as the merge specifies |
| PdfCatalogue.MergeStep | aikea--app/services/PdfService.ts:304-321 | One remote document is pushed as new, as an update or as the local version, and its id is deleted from the map |
| PdfCatalogue.MergeAdvance | aikea--app/services/PdfService.ts:304-321 | One turn of the pass extends the pushed list and the counters and keeps the map's invariant |
| PdfCatalogue.BuildLocalMap | aikea--app/services/PdfService.ts:300 | The key list and values are those of a JavaScript `Map` filled from the local list: each local id once, mapped to the last local document with it |
| PdfCatalogue.MapSet | aikea--app/services/PdfService.ts:300 | One `set` while building keeps the map equal to that of the list read so far |
| PdfCatalogue.MapValues | aikea--app/services/PdfService.ts:325-327 | The map's remaining values, in key order, are the local-only documents |
| PdfCatalogue.MergedIdsAreUnion | aikea--app/services/PdfService.ts:300-327 | With distinct remote ids, the merged ids are exactly the union of local and remote ids, each appearing once |
| PdfCatalogue.MergeRemotePositions | aikea--app/services/PdfService.ts:303-322 | Remote documents come first, in remote order. A remote id absent locally is taken as is and counted new. A shared id takes the remote version only when it is strictly newer |
| PdfCatalogue.CountNewIsAbsentLocally | aikea--app/services/PdfService.ts:306-309 | With distinct remote ids, `newDocuments` counts the remote documents whose id the local list lacks |
| PdfCatalogue.CountUpdatedIsNewerShared | aikea--app/services/PdfService.ts:310-316 | With distinct remote ids, `updatedDocuments` counts the shared ids whose remote copy is strictly newer |
| PdfCatalogue.LocalOnlyInLocalOrder | aikea--app/services/PdfService.ts:325-327 | With distinct local ids, the documents after the remote part are the local documents the server did not name, in local order |
| PdfCatalogue.LocalOnlyFromLocal | aikea--app/services/PdfService.ts:325-327 | Every document after the remote part is a local document whose id the server did not send |
| PdfCatalogue.LocalOnlyIds | aikea--app/services/PdfService.ts:320-327 | The local-only part has exactly the local ids minus the remote ids, each once |
| PdfCatalogue.RemotePartIds | aikea--app/services/PdfService.ts:303-322 | With distinct remote ids, the remote part has exactly the remote ids, each once |
| PdfCatalogue.DistinctLastWithId | aikea--app/services/PdfService.ts:300 | With distinct local ids each local document is its own id's map value |
| PdfCatalogue.MapKeysOfDistinct | aikea--app/services/PdfService.ts:300 | With distinct local ids the map's keys are the local ids in list order |
| PdfCatalogue.WithoutIdSeq | aikea--app/services/PdfService.ts:320 | Deleting keys from the id list is filtering the documents by id |
| PdfCatalogue.FetchRemoteDocuments | aikea--app/services/PdfService.ts:264-293 | A non-empty remote list only comes from a 2xx answer whose body is an array, and is that array; every failure reads as the empty list |
| PdfCatalogue.Catalogue.SyncWithRemoteApi | aikea--app/services/PdfService.ts:44-97 | Always reports success with the local and remote counts and no error. An empty server list with a non-empty local list changes nothing and counts nothing. Otherwise the stored list becomes the merge, the sync time is now, and the new and updated counts are the merge's |
| PdfCatalogue.Catalogue.GetAllDocuments | aikea--app/services/PdfService.ts:102-114 | A sync happens only when forced or due. Without one, the list and the sync time are unchanged. With one, they are what the sync makes of the fetched documents: an empty fetch keeps a non-empty list and the old sync time, anything else stores the merge and the current time. The answer is the stored list |
| PdfCatalogue.FilterMatching | aikea--app/services/PdfService.ts:122-130 | Keeps exactly the documents whose name, original name, description or some tag contains the search text, lower-cased |
| PdfCatalogue.Catalogue.SearchDocuments | aikea--app/services/PdfService.ts:119-130 | The list and sync time change only when a sync is due, and then as the sync computes them. The answer is the matching documents of the stored list |
| PdfCatalogue.SearchIgnoresCase | aikea--app/services/PdfService.ts:121-127 | The search gives the same answer for the upper-cased and the lower-cased search text |
| PdfCatalogue.EmptySearchKeepsAll | aikea--app/services/PdfService.ts:119-130 | The empty search text keeps every document |
| PdfCatalogue.SearchSnoc | aikea--app/services/PdfService.ts:122-130 | The search keeps the documents' order |
| PdfCatalogue.Catalogue.GetDocumentById | aikea--app/services/PdfService.ts:135-138 | The list and sync time change only when a sync is due, and then as the sync computes them. A document with the id is found exactly when the stored list has one, and it is the first such document |
| PdfCatalogue.ValidatePdfFile | aikea--app/services/PdfService.ts:399-417 | The checks apply in order: missing file, size 0, size over 50 MB, then a name not ending in ".pdf" in any case. The file passes exactly when none of them fails |
| PdfCatalogue.Catalogue.AddDocument | aikea--app/services/PdfService.ts:143-182 | A rejected file leaves the list unchanged with the validation message. An accepted one appends a new document: the custom name or the extension-less name, the original name, size, time and the tags drawn from the name |
| PdfCatalogue.ExtractFileName | aikea--app/services/PdfService.ts:423-425 | Only a final extension without '/' or '.' is removed |
| PdfCatalogue.ExtractFileNameRoundTrip | aikea--app/services/PdfService.ts:423-425 | A base and a '.'-free, '/'-free extension come apart again |
| PdfCatalogue.ExtractFileNameKeepsDotless | aikea--app/services/PdfService.ts:423-425 | A name without '.' is kept whole |
| PdfCatalogue.KeptTags | aikea--app/services/PdfService.ts:427-437 | The tags are a subsequence of facture, contrat, rapport, date, holding each keyword exactly when its test holds |
| PdfCatalogue.ExtractTagsFromName | aikea--app/services/PdfService.ts:427-437 | Each keyword tag is present exactly when the lower-cased name contains it; "date" is present exactly when four consecutive digits occur; the order is fixed |
| PdfCatalogue.SubsequenceConcat | aikea--app/services/PdfService.ts:427-437 | Tags pushed in order keep the fixed keyword order |
| PdfCatalogue.ShouldSync | aikea--app/services/PdfService.ts:381-390 | A sync is due when there was none, or when the last one is more than five minutes old |
| PdfCatalogue.Catalogue.DeleteDocument | aikea--app/services/PdfService.ts:187-212 | Returns true exactly when the id was stored. Every document with the id is removed and nothing else. With no match nothing is saved and the list is unchanged |
| PdfCatalogue.WithoutId | aikea--app/services/PdfService.ts:193-196 | Filtering by id keeps every other document and no document with that id |
| PdfCatalogue.WithoutIdKeepsAll | aikea--app/services/PdfService.ts:196-199 | Filtering removes something exactly when the id occurs |
| PdfCatalogue.Catalogue.Stats | aikea--app/services/PdfService.ts:217-230 | The count and total size are those of the stored list; the last sync time is reported |
| PdfCatalogue.TotalSizeAppend | aikea--app/services/PdfService.ts:219-221 | The total size of two lists is the sum of their totals |
| PdfCatalogue.Catalogue.ClearLocalCache | aikea--app/services/PdfService.ts:243-246 | Both stored values are removed |
| PdfCatalogue.Catalogue.constructor | aikea--app/services/PdfService.ts:35-37 | A new catalogue holds no document and no sync time |
| Uploads.Inc32 | Aikea-server/src/main/java/com/ynov/Aikea/entity/Upload.java:82-88 | A Java `Integer` increment: one more, with the largest value wrapping to the smallest |
| Uploads.Upload.PrePersist | Aikea-server/src/main/java/com/ynov/Aikea/entity/Upload.java:69-77 | A null visibility becomes false and a null count becomes 0; set values and every other field stay |
| Uploads.Upload.IncrementDownloadCount | Aikea-server/src/main/java/com/ynov/Aikea/entity/Upload.java:82-88 | A null count reads as 0; the stored and the returned count is one more; no other field changes |
| Uploads.Upload.IsImage | Aikea-server/src/main/java/com/ynov/Aikea/entity/Upload.java:94-97 | Never for a null type, and never together with `isPdf` |
| Uploads.Upload.IsPdf | Aikea-server/src/main/java/com/ynov/Aikea/entity/Upload.java:104-107 | Never for a null type, and never together with `isImage` |
| Uploads.ImageAndPdfExclusive | Aikea-server/src/main/java/com/ynov/Aikea/entity/Upload.java:94-107 | No MIME type is both an image type and the PDF type |
| Uploads.Upload.IsTextDocument | Aikea-server/src/main/java/com/ynov/Aikea/entity/Upload.java:114-120 | Never for a null type, and never for "application/pdf" |
| Uploads.PdfIsNotText | Aikea-server/src/main/java/com/ynov/Aikea/entity/Upload.java:114-120 | "application/pdf" contains none of the four text-document markers |
| Uploads.ExtensionOr | Aikea-server/src/main/java/com/ynov/Aikea/entity/Upload.java:127-132 | A null or dot-less name gives the fallback; otherwise the result is dot-free and the name ends with "." plus the result |
| Uploads.Upload.GetFileExtension | Aikea-server/src/main/java/com/ynov/Aikea/entity/Upload.java:127-132 | "" for a null or dot-less original name; otherwise the dot-free text the name ends with after a '.' |
| Uploads.ExtensionRoundTrip | Aikea-server/src/main/java/com/ynov/Aikea/entity/Upload.java:127-132 | A base, a dot and a dot-free extension give back that extension |
| Uploads.Upload.FromRow | Aikea-server/src/main/java/com/ynov/Aikea/entity/Upload.java:17-67 | The entity holds exactly the row's columns |
| UploadRepository.FindByIsPublicTrue | Aikea-server/src/main/java/com/ynov/Aikea/repository/UploadRepository.java:17 | Exactly the ids of public rows |
| UploadRepository.FindByTags | Aikea-server/src/main/java/com/ynov/Aikea/repository/UploadRepository.java:22-28 | A row is kept exactly when each tag parameter is null, empty, or equal to the stored tag |
| UploadRepository.WildcardTagsReturnAll | Aikea-server/src/main/java/com/ynov/Aikea/repository/UploadRepository.java:23-25 | With every parameter null or empty the whole table is returned |
| UploadRepository.NullTagNeverMatches | Aikea-server/src/main/java/com/ynov/Aikea/repository/UploadRepository.java:23 | A stored null tag never matches a non-empty parameter |
| UploadRepository.FindPublicByTags | Aikea-server/src/main/java/com/ynov/Aikea/repository/UploadRepository.java:33-40 | A row is kept exactly when it is public and matches the tags |
| UploadRepository.PublicByTagsIsRestriction | Aikea-server/src/main/java/com/ynov/Aikea/repository/UploadRepository.java:33-40 | The public tag query is the tag query restricted to public rows |
| UploadRepository.FindPublicByGroupId | Aikea-server/src/main/java/com/ynov/Aikea/repository/UploadRepository.java:45-46 | Exactly the public rows whose `idExterne` equals the group; a null group matches nothing |
| UploadRepository.FindByIdExterne | Aikea-server/src/main/java/com/ynov/Aikea/repository/UploadRepository.java:56 | Exactly the rows whose `idExterne` equals the argument, with null matching null |
| UploadRepository.GroupIsPublicByIdExterne | Aikea-server/src/main/java/com/ynov/Aikea/repository/UploadRepository.java:45-56 | A group's public rows are exactly the public rows with that external id |
| UploadRepository.FindByOriginalNameContainingIgnoreCase | Aikea-server/src/main/java/com/ynov/Aikea/repository/UploadRepository.java:51 | Exactly the rows whose original name contains the text, ignoring case |
| UploadRepository.NameSearchIgnoresCase | Aikea-server/src/main/java/com/ynov/Aikea/repository/UploadRepository.java:51 | Any ASCII casing of the searched text gives the same rows |
| UploadRepository.EmptyNameFindsNamed | Aikea-server/src/main/java/com/ynov/Aikea/repository/UploadRepository.java:51 | The empty text finds every row that has an original name |
| UploadRepository.CountByIsPublicTrue | Aikea-server/src/main/java/com/ynov/Aikea/repository/UploadRepository.java:61 | The count is at most the table size, and equals it exactly when every row is public |
| UploadRepository.CountIsPublicListing | Aikea-server/src/main/java/com/ynov/Aikea/repository/UploadRepository.java:17-61 | The public count is the size of the public listing |
| UploadRepository.PublicCountBounds | Aikea-server/src/main/java/com/ynov/Aikea/repository/UploadRepository.java:17-61 | The public listing is no larger than the table, and is as large only when every row is public |
| UploadRepository.NewestExists | Aikea-server/src/main/java/com/ynov/Aikea/repository/UploadRepository.java:66 | Every non-empty set of rows has a newest row |
| UploadRepository.FindRecentUploads | Aikea-server/src/main/java/com/ynov/Aikea/repository/UploadRepository.java:66-67 | At most `limit` rows of the table, all of them when the table is smaller, newest upload date first |
| UploadRepository.RecentListIsNewest | Aikea-server/src/main/java/com/ynov/Aikea/repository/UploadRepository.java:66-67 | Every row left out of the recent list is no newer than any row in it |
| UploadRepository.UploadTable.Save | Aikea-server/src/main/java/com/ynov/Aikea/repository/UploadRepository.java:12 | A stored entity overwrites its row. A new one gets the next identity, `prePersist` defaults and the creation time. Nothing else changes |
| UploadRepository.UploadTable.FindById | Aikea-server/src/main/java/com/ynov/Aikea/repository/UploadRepository.java:12 | A fresh entity holding the stored row exactly when the id is stored |
| UploadRepository.UploadTable.Delete | Aikea-server/src/main/java/com/ynov/Aikea/repository/UploadRepository.java:12 | Exactly the entity's row is removed |
| UploadRepository.UploadTable.constructor | Aikea-server/src/main/java/com/ynov/Aikea/repository/UploadRepository.java:12 | A new table is empty |
| UploadService.AcceptedTypesAreImageOrPdf | Aikea-server/src/main/java/com/ynov/Aikea/service/UploadService.java:161-163 | The service accepts exactly the MIME types the entity calls image or PDF |
| UploadService.StoredFileName | Aikea-server/src/main/java/com/ynov/Aikea/service/UploadService.java:64-66 | The stored name is the UUID and a dot, then the original extension, or "bin" for a null or dot-less name. The original name ends with the extension, and the extension holds no dot, so it is the text after the last dot |
| UploadService.Service.SaveFile | Aikea-server/src/main/java/com/ynov/Aikea/service/UploadService.java:46-98 | A null or unsupported MIME type is refused and the table is unchanged. A disk failure (creating the directory or copying the bytes) is rethrown and the table is unchanged. Otherwise one new row is inserted with the given metadata, the stored name and path, visibility defaulting to false and a zero count |
| UploadService.Service.GetFile | Aikea-server/src/main/java/com/ynov/Aikea/service/UploadService.java:105-107 | The stored row exactly when the id is stored |
| UploadService.Service.DeleteFile | Aikea-server/src/main/java/com/ynov/Aikea/service/UploadService.java:114-130 | A missing id changes nothing and succeeds. For a stored id, a failure deleting the file on disk is rethrown before the row is touched, so the row stays. Otherwise exactly that row goes |
| UploadService.Service.GetAllPublicFiles | Aikea-server/src/main/java/com/ynov/Aikea/service/UploadService.java:136-138 | Exactly the public rows |
| UploadService.Service.SearchByTags | Aikea-server/src/main/java/com/ynov/Aikea/service/UploadService.java:148-154 | The public-only query exactly when `publicOnly`; the result is always within the tag query |
| UploadService.Service.IncrementDownloadCount | Aikea-server/src/main/java/com/ynov/Aikea/service/UploadService.java:182-190 | An existing row's count (null read as 0) is stored and returned plus one. A missing id returns 0 and the table is unchanged |
| UploadService.Service.UpdateVisibility | Aikea-server/src/main/java/com/ynov/Aikea/service/UploadService.java:198-206 | True exactly when the id exists, and then only that row's visibility changes |
| UploadService.Service.UpdateTags | Aikea-server/src/main/java/com/ynov/Aikea/service/UploadService.java:216-226 | True exactly when the id exists, and then only that row's three tags are overwritten, null included |
| UploadService.Service.constructor | Aikea-server/src/main/java/com/ynov/Aikea/service/UploadService.java:22-30 | The service keeps its upload directory and its table |
| ImageGeneration.RunLength | Aikea-server/src/main/java/com/ynov/Aikea/service/ImageGenerationService.java:213 | A leading run of non-space characters is maximal |
| ImageGeneration.Tokens | Aikea-server/src/main/java/com/ynov/Aikea/service/ImageGenerationService.java:213 | The words of the prompt are non-empty |
| ImageGeneration.CleanWords | Aikea-server/src/main/java/com/ynov/Aikea/service/ImageGenerationService.java:216-217 | The cleaned words are non-empty and made only of ASCII letters and digits |
| ImageGeneration.TakenFrom | Aikea-server/src/main/java/com/ynov/Aikea/service/ImageGenerationService.java:215-228 | Every prefix taken fits the budget, and the next word would overflow it |
| ImageGeneration.GenerateFileNameFromPrompt | Aikea-server/src/main/java/com/ynov/Aikea/service/ImageGenerationService.java:209-231 | The loop with its `break` computes `FileNameFromPrompt`, whose shape the lemmas FileNameShape and FileNameIsFile state |
| ImageGeneration.JoinFitting | Aikea-server/src/main/java/com/ynov/Aikea/service/ImageGenerationService.java:212-228 | The loop joins, with "_", exactly the longest fitting prefix of the cleaned words |
| ImageGeneration.FitStep | Aikea-server/src/main/java/com/ynov/Aikea/service/ImageGenerationService.java:215-228 | One word is skipped, ends the loop, or is appended, keeping the loop invariant |
| ImageGeneration.AppendWord | Aikea-server/src/main/java/com/ynov/Aikea/service/ImageGenerationService.java:216-227 | A word without letters or digits is skipped; a word that would overflow stops the loop; otherwise it is appended after a "_" |
| ImageGeneration.FileNameShape | Aikea-server/src/main/java/com/ynov/Aikea/service/ImageGenerationService.java:209-231 | The name is "file", or a lower-case snake name of at most the budget followed by ".png" |
| ImageGeneration.FileNameIsFile | Aikea-server/src/main/java/com/ynov/Aikea/service/ImageGenerationService.java:210-230 | The name is "file" exactly when the prompt is null or blank, no word keeps a letter or digit, or the first clean word alone overflows |
| ImageGeneration.TakenIsLongestFit | Aikea-server/src/main/java/com/ynov/Aikea/service/ImageGenerationService.java:219-221 | A prefix of the clean words fits exactly when it is no longer than the one taken: the loop breaks, it does not skip |
| ImageGeneration.JoinedMonotone | Aikea-server/src/main/java/com/ynov/Aikea/service/ImageGenerationService.java:219-227 | Adding words never shortens the joined name |
| ImageGeneration.CleanWordsOfPrefix | Aikea-server/src/main/java/com/ynov/Aikea/service/ImageGenerationService.java:215-217 | The clean words of a prefix of the words are a prefix of the clean words |
| ImageGeneration.SnakeJoin | Aikea-server/src/main/java/com/ynov/Aikea/service/ImageGenerationService.java:223-227 | Clean words joined by "_" have no leading, trailing or doubled "_" |
| ImageGeneration.LowerSnake | Aikea-server/src/main/java/com/ynov/Aikea/service/ImageGenerationService.java:230 | Lower-casing such a name keeps its shape and leaves no upper-case letter |
| ImageGeneration.StemExtensionSplit | Aikea-server/src/main/java/com/ynov/Aikea/service/ImageGenerationService.java:190-195 | Stem and extension split a name at its last '.', the extension starting with it |
| ImageGeneration.ProbeInjective | Aikea-server/src/main/java/com/ynov/Aikea/service/ImageGenerationService.java:198-203 | Different probe numbers give different paths |
| ImageGeneration.ProbeStep | Aikea-server/src/main/java/com/ynov/Aikea/service/ImageGenerationService.java:198-203 | Probe number n differs from every earlier probe, so each turn of the loop tests a new path |
| ImageGeneration.GetAvailablePath | Aikea-server/src/main/java/com/ynov/Aikea/service/ImageGenerationService.java:185-207 | The result does not exist. It is the original path when that does not exist, and otherwise the first `name_k.ext` that does not exist |
| ImageGeneration.ProbeKeepsExtension | Aikea-server/src/main/java/com/ynov/Aikea/service/ImageGenerationService.java:198-203 | A renamed probe stays in the same directory and keeps the extension; the stem gains "_k" |
| ImageGeneration.DiskFileName | Aikea-server/src/main/java/com/ynov/Aikea/service/ImageGenerationService.java:153-159 | The disk name ends in ".png" |
| ImageGeneration.DiskFileNameShape | Aikea-server/src/main/java/com/ynov/Aikea/service/ImageGenerationService.java:153-159 | The disk stem has at most 20 characters, no capital, ',', '\'' or ' '; each of its characters comes from the first 20 of the lower-cased prompt or is "_" |
| ImageGeneration.DiskFileNameKeepsPlainPrompt | Aikea-server/src/main/java/com/ynov/Aikea/service/ImageGenerationService.java:153-159 | A prompt of at most 20 characters with no capital, ',', '\'' or ' ' is its own disk stem: the name is the prompt plus ".png" |
| ImageGeneration.SaveOnComputer | Aikea-server/src/main/java/com/ynov/Aikea/service/ImageGenerationService.java:144-183 | Null bytes fail with the null-bytes message; a write error fails with its message; otherwise the bytes go to the images directory under the disk name |
| ImageGeneration.RequestFor | Aikea-server/src/main/java/com/ynov/Aikea/service/ImageGenerationService.java:65-96 | LOW asks dall-e-2 at 256 px; MEDIUM asks dall-e-3 at 1024 px; HIGH asks dall-e-3 at 1792 px in HD. It asks for one image by URL for the prompt |
| ImageGeneration.GetImageFromDalle | Aikea-server/src/main/java/com/ynov/Aikea/service/ImageGenerationService.java:98-118 | No URL fails with "No URL sent by OpenAI"; a download failure fails with its message; otherwise the downloaded body |
| ImageGeneration.SaveImage | Aikea-server/src/main/java/com/ynov/Aikea/service/ImageGenerationService.java:121-142 | Succeeds exactly when the cloud gave both a URL and an ID. The record is named by the prompt with a budget of 100 and holds what the cloud returned |
| ImageGeneration.SaveGenerated | Aikea-server/src/main/java/com/ynov/Aikea/service/ImageGenerationService.java:50-61 | The answer succeeds exactly when the record and the disk write succeed, and then holds the generated bytes written to disk |
| ImageGeneration.GenerateAndSaveImageAsWritten | Aikea-server/src/main/java/com/ynov/Aikea/service/ImageGenerationService.java:40-62 | A success made two DALL-E requests and uploaded the second call's image |
| ImageGeneration.SecondImageIsUploaded | Aikea-server/src/main/java/com/ynov/Aikea/service/ImageGenerationService.java:42-53 | Two different DALL-E images: the first is returned and written to disk, the second is uploaded |
| ImageGeneration.GenerateAndSaveImage | Aikea-server/src/main/java/com/ynov/Aikea/service/ImageGenerationService.java:40-62 | One request. A missing or empty image fails. It succeeds exactly when the image is usable, saving succeeds and the disk write succeeds; the same image is then returned, uploaded and written |
| ImageController.QualityFromRequest | Aikea-server/src/main/java/com/ynov/Aikea/controller/ImageController.java:23-32 | "Medium" and "High" exactly give those qualities; null and every other text give Low |
| ImageController.RequestQualityAgreesWithParse | Aikea-server/src/main/java/com/ynov/Aikea/controller/ImageController.java:28-32 | The three accepted spellings agree with the PDF service's reading, but "HIGH" is Low here |
| ImageController.CleanPrompt | Aikea-server/src/main/java/com/ynov/Aikea/controller/ImageController.java:36 | The cleaned prompt has no '"' and no leading or trailing character at or below the space |
| ImageController.CleanPromptIdempotent | Aikea-server/src/main/java/com/ynov/Aikea/controller/ImageController.java:36 | Cleaning a cleaned prompt changes nothing |
| ImageController.CleanPromptKeepsClean | Aikea-server/src/main/java/com/ynov/Aikea/controller/ImageController.java:36 | A prompt with no '"' and no character at or below the space at either end is returned unchanged |
| ImageController.CleanPromptIsSlice | Aikea-server/src/main/java/com/ynov/Aikea/controller/ImageController.java:36 | The cleaned prompt is one contiguous run of the prompt without its '"', and only characters at or below the space are dropped around it |
| Text.RemoveAbsentChar | Aikea-server/src/main/java/com/ynov/Aikea/service/ImageGenerationService.java:156-157 | Removing a character that does not occur changes nothing |
| Text.RemoveCharAppend | Aikea-server/src/main/java/com/ynov/Aikea/service/ImageGenerationService.java:156-157 | Removal distributes over concatenation and keeps a single character exactly when it is not the removed one |
| ImageController.GenerateImageAndSend | Aikea-server/src/main/java/com/ynov/Aikea/controller/ImageController.java:20-48 | 200 with the image exactly when the prompt is non-null and generation from the cleaned prompt succeeds; every other case is 400 with no body |
| ImageController.GenerateImage | Aikea-server/src/main/java/com/ynov/Aikea/controller/ImageController.java:51-67 | 200 with the generated image's description exactly when generation succeeds; otherwise 400 with no body |
| PdfContent.ParseQuality | Aikea-server/src/main/java/com/ynov/Aikea/service/PDFContentService.java:69-71 | Succeeds exactly when the upper-cased name is LOW, MEDIUM or HIGH, and gives the constant with that name |
| PdfContent.ParseQualityRoundTrip | Aikea-server/src/main/java/com/ynov/Aikea/service/PDFContentService.java:69-71 | Each constant's name, upper- or lower-case, reads back as that constant |
| PdfContent.GeneratePdfContent | Aikea-server/src/main/java/com/ynov/Aikea/service/PDFContentService.java:66-80 | A bad quality fails before any image. Success needs the image and the text, and holds both |
| PdfContent.ExtractFilenameFromUrl | Aikea-server/src/main/java/com/ynov/Aikea/service/PDFContentService.java:82-89 | The result has no '/' and no '?' |
| PdfContent.ExtractFilenameFails | Aikea-server/src/main/java/com/ynov/Aikea/service/PDFContentService.java:84-88 | The call throws exactly for a non-empty URL made only of '?' |
| PdfContent.ExtractFilenameRoundTrip | Aikea-server/src/main/java/com/ynov/Aikea/service/PDFContentService.java:82-89 | For `dir/name?query` or `dir/name` with no '?' in dir and name, and for a bare `name?query`, the result is `name` |
| PdfContent.ExtractFilenameFirstPiece | Aikea-server/src/main/java/com/ynov/Aikea/service/PDFContentService.java:82-89 | Only the text before the first '?' counts: the result is what follows its last '/', whatever the query holds |
| PdfContent.ExtractFilenameQueryBeforeSlash | Aikea-server/src/main/java/com/ynov/Aikea/service/PDFContentService.java:82-89 | A '?' before the last '/' cuts the URL there, so the name after that '/' is not returned |
| PdfContent.SplitAllEmptyIffAllMarks | Aikea-server/src/main/java/com/ynov/Aikea/service/PDFContentService.java:84 | Every piece of a split at '?' is empty exactly when the text is all '?' |
| PdfContent.PdfName | Aikea-server/src/main/java/com/ynov/Aikea/service/PDFContentService.java:93 | The name ends in ".pdf" and has no '/'; an id without '/' gives the id plus ".pdf" |
| PdfContent.PdfNameRoundTrip | Aikea-server/src/main/java/com/ynov/Aikea/service/PDFContentService.java:93 | The name is the id's last path segment plus ".pdf" |
| PdfContent.PdfPath | Aikea-server/src/main/java/com/ynov/Aikea/service/PDFContentService.java:94 | The PDF is written directly inside the base directory under its name |
| PdfContent.PdfMultipartFile | Aikea-server/src/main/java/com/ynov/Aikea/service/PDFContentService.java:126-128 | The upload is a PDF under the PDF's own name |
| PdfContent.PdfIsAccepted | Aikea-server/src/main/java/com/ynov/Aikea/service/PDFContentService.java:126-136 | The generated PDF passes the upload format check and is stored under the UUID plus ".pdf" |
| PdfContent.Propagated | Aikea-server/src/main/java/com/ynov/Aikea/service/PDFContentService.java:139-142 | `Exceptions.propagate` rethrows an unchecked exception unchanged; a checked one is wrapped, and the message becomes the class name, ": " and the original message |
| PdfContent.PropagatedNamesCheckedClass | Aikea-server/src/main/java/com/ynov/Aikea/service/PDFContentService.java:139-142 | Two wrapped checked exceptions with the same message have the same class and the same original message |
| PdfContent.PdfContentService.CreatePdf | Aikea-server/src/main/java/com/ynov/Aikea/service/PDFContentService.java:91-144 | A drawing failure, a URL without a file name, or a failure of `saveFile` fails and leaves the table unchanged. A drawing or saving exception leaves through `Exceptions.propagate`: wrapped with its class name when checked, as it is otherwise. A URL without a file name throws unchecked and is rethrown as it is. Otherwise exactly one row is added: idExterne "pdf", tag1 the URL's file name, tag2 "application/pdf", no tag3, no description, public, stored under the UUID plus ".pdf" |
| PdfContent.PdfContentService.constructor | Aikea-server/src/main/java/com/ynov/Aikea/service/PDFContentService.java:30-36 | The service keeps its base directory and the upload service |
| PdfContentController.GeneratePdfFilename | Aikea-server/src/main/java/com/ynov/Aikea/controller/PDFContentController.java:173-187 | The chain of appends computes `PdfFilename`, whose shape and injectivity in the time the two lemmas below state |
| PdfContentController.PdfFilenameShape | Aikea-server/src/main/java/com/ynov/Aikea/controller/PDFContentController.java:173-187 | The name starts with "generated" and ends with its last "_" followed by the time and ".pdf"; with no id and no tag it is "generated_<time>.pdf" |
| PdfContentController.PdfFilenameDistinguishesTimes | Aikea-server/src/main/java/com/ynov/Aikea/controller/PDFContentController.java:185-186 | The same parameters at different times give different names |
| PdfContentController.StampHasNoUnderscore | Aikea-server/src/main/java/com/ynov/Aikea/controller/PDFContentController.java:185-186 | The time and extension hold no "_" |
| PdfContentController.UploadDefaults | Aikea-server/src/main/java/com/ynov/Aikea/controller/PDFContentController.java:72-75 | A missing id becomes "auto_" and the time; missing tags become "pdf" and "generated"; tag3 passes unchanged |
| PdfContentController.AutoIdsDiffer | Aikea-server/src/main/java/com/ynov/Aikea/controller/PDFContentController.java:72 | Automatic ids made at different times differ |
| PdfContentController.CreatePdfEndpoint | Aikea-server/src/main/java/com/ynov/Aikea/controller/PDFContentController.java:35-53 | 200 with the bytes and the download headers exactly when creation and reading succeed; otherwise 500 with no body |
| PdfContentController.CreateAndUploadPdf | Aikea-server/src/main/java/com/ynov/Aikea/controller/PDFContentController.java:56-98 | The upload is sent with the defaults exactly when the PDF was created. 200 with the upload and PDF descriptions exactly when the upload succeeds; any failure is 500 with the error text |
| PdfContentController.CreateUploadAndDownloadPdf | Aikea-server/src/main/java/com/ynov/Aikea/controller/PDFContentController.java:101-144 | 200 exactly when creation and reading succeed, whatever the upload did. The answer then has the generated file name, the download headers and `X-Upload-Status: completed` |
| PdfContentController.UploadFailureIsSwallowed | Aikea-server/src/main/java/com/ynov/Aikea/controller/PDFContentController.java:115-126 | The bucket's upload answer has no effect on the download's answer |
| PdfContentController.EqualNameContains | Aikea-server/src/main/java/com/ynov/Aikea/controller/PDFContentController.java:153-154 | The equality half of the filter adds nothing to its containment half |
| PdfContentController.FirstMatchShift | Aikea-server/src/main/java/com/ynov/Aikea/controller/PDFContentController.java:152-155 | A first match behind a non-matching head is the first match of the whole list |
| PdfContentController.FirstFileNamed | Aikea-server/src/main/java/com/ynov/Aikea/controller/PDFContentController.java:152-155 | The first file whose name contains the id. A file without a name reached before any match throws. No match means every file was checked |
| PdfContentController.DownloadPdf | Aikea-server/src/main/java/com/ynov/Aikea/controller/PDFContentController.java:147-171 | 404 exactly when no listed file matches; 500 when the listing or lookup fails; 200 pointing at the matching file's URL |
| StudentController.StudentDefaults | Aikea-server/src/main/java/com/ynov/Aikea/controller/StudentController.java:37-47 | Missing tags become "pdf", "student" and "upload"; given ones pass unchanged |
| StudentController.UploadFile | Aikea-server/src/main/java/com/ynov/Aikea/controller/StudentController.java:26-64 | The gateway gets the defaulted tags and the answer echoes them. 200 exactly when the upload succeeds; otherwise 500 with success false and the failure's message |
| StudentController.UploadWithoutTags | Aikea-server/src/main/java/com/ynov/Aikea/controller/StudentController.java:40-50 | With no tags, both the bucket and the answer carry "pdf", "student", "upload" |
| StudentController.SearchSourceFor | Aikea-server/src/main/java/com/ynov/Aikea/controller/StudentController.java:76-81 | The pattern search is used exactly when the pattern is non-null and non-blank |
| StudentController.SearchPdfs | Aikea-server/src/main/java/com/ynov/Aikea/controller/StudentController.java:69-90 | 200 with the chosen call's listing exactly when it succeeds; otherwise 500 with no body |
| StudentController.BlankPatternListsAll | Aikea-server/src/main/java/com/ynov/Aikea/controller/StudentController.java:76-81 | A blank pattern searches exactly as no pattern does |
| StudentController.FilteredSearchSucceeds | Aikea-server/src/main/java/com/ynov/Aikea/controller/StudentController.java:76-81 | Behind IP filtering a search without a pattern never answers 500 |
| StudentController.FirstWithId | Aikea-server/src/main/java/com/ynov/Aikea/controller/StudentController.java:99-103 | The first record whose "id" equals the id; none exactly when no record has it |
| StudentController.GetPdfById | Aikea-server/src/main/java/com/ynov/Aikea/controller/StudentController.java:93-117 | 200 with the first record carrying the id, 404 when none does, 500 exactly when the listing fails |
| StudentController.PlaceholderFoundById | Aikea-server/src/main/java/com/ynov/Aikea/controller/StudentController.java:99-111 | Under filtering with curl failing, the placeholder's id finds the placeholder |
| StudentController.DeletePdf | Aikea-server/src/main/java/com/ynov/Aikea/controller/StudentController.java:121-145 | `success` is true exactly when the delete returned normally; then 200 with the message, otherwise 500 with the error |
| StudentController.DeleteSucceedsIff | Aikea-server/src/main/java/com/ynov/Aikea/controller/StudentController.java:121-145 | A delete reports success exactly when HTTP answered 200, or a 403 failure was recovered by curl |
| StudentController.IpFilteringOf | Aikea-server/src/main/java/com/ynov/Aikea/controller/StudentController.java:219-239 | Detected exactly when the listing's first record has status "ip_filtered" and a message and solution; unknown exactly when listing fails; a detection without message or solution throws |
| StudentController.GetDebugStatus | Aikea-server/src/main/java/com/ynov/Aikea/controller/StudentController.java:198-259 | 200 with the configuration and the ip-filtering block exactly when that block succeeds; otherwise 500 with "Debug status failed: null" |
| StudentController.PlaceholderIsDetected | Aikea-server/src/main/java/com/ynov/Aikea/controller/StudentController.java:223-231 | The gateway's placeholder record is reported as detected, with its message and solution |
| StudentController.FilteredProbeIsReported | Aikea-server/src/main/java/com/ynov/Aikea/controller/StudentController.java:219-239 | A 403 probe with curl failing makes the debug endpoint report detected filtering |

## Left out

- Network and process mechanics are outside the model. This covers RestTemplate and HttpURLConnection setup, headers, curl command building, OS detection, stream draining, timeouts and logging. Only their outcomes enter as parameters.
- Jackson decoding is not modelled. Stage one works on an abstract tree (`Json`), and a `readTree` failure is `None`.
- `testNetworkConnectivity` and `getAllPdfsWithHttpURLConnection` of the gateway are left out: they are network diagnostics that `getAllPdfs()` does not use.
- `uploadImage`, `findPdfById` and `findPdfsByExternalId` of the gateway are left out: they only throw `UnsupportedOperationException`.
- The reason phrase Spring appends to a status code in exception messages is left out of `StatusText`; it holds no digit, so it cannot add or hide a "403".
- The OpenAI and Cloudinary services, the text generation service and controller, and iText drawing inside `createPDF` are left out: they are foreign library calls. Their outcomes are parameters (`DalleReply`, `CloudUpload`, `drawError`, `text`).
- The disk write of `saveOnComputer` and `Files.exists` in `getAvailablePath` are left out as I/O. The write's outcome is a parameter, and existing paths are a finite set.
- `PDFContentService.init` is left out: it resolves the output directory on disk. The base path is a constructor parameter.
- `PdfContent.PdfContentService.CreatePdf`: the model does not read the drawn bytes back; the file size is a parameter.
- The clock, UUIDs and the app's `generateUniqueId` are parameters.
- Dates are integers: an ISO date string is its parsed milliseconds. In a document's `uploadedAt`, `None` stands for an unparsable date, which compares as "not newer". In the catalogue's `lastSync`, `None` means no sync was ever stored, and it makes a sync due.
- `PdfCatalogue.ShouldSync`: a stored sync time that does not parse gives `NaN` in the app, and then no sync is ever due. The model's `lastSync` is always a parsed time, because only `Some(now)` is ever stored, so that case is left out.
- `PdfCatalogue.Doc` leaves out `downloadUrl`, `viewUrl`, `type` and `mimeType` of the app's `PdfDocument`. No modelled operation reads or changes them, and `type` and `mimeType` are constants.
- Java strings are sequences of UTF-16 code units, and Dafny strings here are sequences of characters. The two agree for text without characters outside the Basic Multilingual Plane. This matters for the 20-unit cut of `ImageGeneration.DiskFileName` and for the 8-unit token previews of `BucketGateway.FindPdfsByPatternAsWritten` and `BucketGateway.GetAllPdfsForUserAsWritten`.
- `ImageController.GenerateImageAndSend` is built on the corrected `GenerateAndSaveImage`, which calls DALL-E once. As written, the source calls DALL-E a second time for the upload, so a first reply with an image and a second reply that fails gives 400 there, while the model gives 200. `ImageGeneration.GenerateAndSaveImageAsWritten` models that second call.
- `ImageController.GenerateImage` is built on the corrected `GenerateAndSaveImage` too. As written, it fails (400) when the second DALL-E reply fails, even though the first was usable.
- `PdfContent.GeneratePdfContent` is built on the corrected `GenerateAndSaveImage` too. As written, it throws when the second DALL-E reply fails, even though the first was usable.
- `StudentController.SearchPdfs` is built on the corrected `BucketGateway.FindPdfsByPattern`. As written, a configured token shorter than eight characters makes every pattern search answer 500, for example with token "abcdefg" and pattern "x". `BucketGateway.FindPdfsByPatternAsWritten` models that.
- `UploadService.Service.SaveFile` joins the directory and the name with one "/". `Path.resolve` also normalises the directory, which removes a trailing "/" and resolves against the working directory for an empty one. The model treats the configured directory as already normalised; the default "uploads" is.
- `UploadRepository.UploadTable.Save` decides between insert and update on whether the id is stored. Spring Data decides on whether the id is 0. The two agree for every caller in the model: new entities carry id 0, which is never stored, and updated entities come from a stored row. A merge of an unstored non-zero id is left out.
- One `now` parameter stands for clock reads that the source makes separately. These are the `uploadedAt` of every record of one parse, and the generated id and the timestamp of one app upload.
- `BucketGateway.Config` holds strings, so a null `bucket.token` or `bucket.base-url` is not modelled. Spring refuses to start without `bucket.token`, and `isConfigured` treats null like the empty string.
- Exceptions thrown by the OpenAI client while fetching an image are folded into the `DownloadFailed` reply of `DalleReply`, with their message.
- `PDFContentService.java:73` calls `getUrl()` on `GeneratedImageDTO`, which declares no such getter. The model passes the text generation's outcome as the `text` parameter, so it does not depend on that call.
- `StudentController.getServiceConfig` is left out: it only packs `getBucketStats` and `isConfigured`, which are modelled.
- In `getDebugStatus`, the network test, the fixed summary block and the `errorType` of `uploadFile`'s error answer are left out: they are diagnostics text.
- `getIpInfo` and `testNetworkConnectivity` of `StudentController` are left out: they are network diagnostics.
- `BucketController` is left out: it delegates to the gateway and answers 500 on an exception.
- `PdfCatalogue.Catalogue.Stats`: `totalSizeMB` (floating point) and `lastUpdated` (the clock) are left out; the count, byte total and last sync are modelled.
- `uploadToRemoteApi` and `deleteFromRemoteApi` of the app are left out: they are fire-and-forget network calls whose failure is only logged, so the stored list does not depend on them.
- AsyncStorage failures inside the app's methods are left out; storage reads and writes always succeed in the model.
- `forceSyncWithRemote` is `Catalogue.SyncWithRemoteApi` itself and has no separate member.
- Case folding (`toLowerCase`, `toUpperCase`, `IgnoreCase`) is modelled on ASCII letters only; other letters keep their case.
- `UploadRepository.FindRecentUploads`: the SQL leaves the order of equal upload dates open; the model orders them by ascending id.
- The JVM's messages for a dereferenced null or an out-of-range index are stood in for by fixed texts. Only the fact that a call fails is modelled, not the wording.
- `java.lang.Long` sizes and ids are unbounded integers here. Only the `Integer` download counter wraps (`Inc32`).
- `PdfContent.Thrown` carries a non-null message. A checked exception whose message is null would be wrapped as its bare class name, and that case is left out.
- `PdfCatalogue.FetchRemoteDocuments` takes the elements of a remote array as well-formed documents. In the app, any array is accepted, and a null element makes reading its `id` throw a `TypeError`, which the sync's catch turns into a failed sync. Malformed elements are left out.
- `UploadService.Service.SaveFile` inserts a row whose `originalName` is `None` when the upload has no original file name. The entity declares that column `nullable = false`, so depending on the schema and Hibernate's settings the database could refuse that row. Database constraints are left out.
- The app screens, hooks, authentication context, configuration and data-holder classes are left out: they contain no logic of the modelled core.

## Findings

| source | as written | input that shows it | evidently intended | confidence | as-written member | corrected member |
|---|---|---|---|---|---|---|
| Aikea-server/src/main/java/com/ynov/Aikea/service/ImageUploadCustomBucketService.java:606 | The log line previews the token with `jwtToken.substring(0, 8)`, which throws for a token shorter than eight characters, so the whole pattern search fails | configured token "abcdefg", bucket answering 200 | Logging should not decide the outcome; the search succeeds whenever the bucket answers 200 | medium, not executed | BucketGateway.FindPdfsByPatternAsWritten, BucketGateway.ShortTokenBreaksPatternSearch | BucketGateway.FindPdfsByPattern |
| Aikea-server/src/main/java/com/ynov/Aikea/service/ImageUploadCustomBucketService.java:655 | The same eight-character preview, of the user token when one is given, throws before the request is sent | user token "tok" with a long configured token, bucket answering 200 | The listing succeeds whenever the bucket answers 200 | medium, not executed | BucketGateway.GetAllPdfsForUserAsWritten, BucketGateway.ShortUserTokenBreaksListing | BucketGateway.GetAllPdfsForUser |
| Aikea-server/src/main/java/com/ynov/Aikea/service/ImageGenerationService.java:50 | `saveImage` receives a second call to DALL-E, so the image uploaded and recorded in the cloud differs from the one returned and written to disk | two DALL-E replies with different bytes | One generated image is returned, uploaded and written | high, not executed | ImageGeneration.GenerateAndSaveImageAsWritten, ImageGeneration.SecondImageIsUploaded | ImageGeneration.GenerateAndSaveImage |
