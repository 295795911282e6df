/**
 * The tolerant parser the bucket gateway applies to a listing fetched through
 * curl (`parseCurlJsonResponse`). Stage one reads the `studentUploadReadingDTOS`
 * array of the Jackson tree; when the tree has no such array, or Jackson fails,
 * stage two cuts the raw text at every `{"idExterne":` marker and reads each
 * field of a chunk with a regular expression. Every record also gets fixed
 * defaults and an upload time taken from the clock (a parameter here).
 */
module BucketListing {
  import opened Wrappers
  import opened Text
  import opened Json

  /**
   * The keys the gateway and its callers use in a listed file's map; `KeyName`
   * gives the Java string of each.
   */
  datatype Key =
    | Id | Name | Url | DownloadUrl | ViewUrl | Tag1 | Tag2 | Tag3
    | Type | MimeType | UploadedAt | Size | Message | Solution | Status | FileName

  function KeyName(k: Key): string {
    match k
    case Id => "id"  case Name => "name"  case Url => "url"  case DownloadUrl => "downloadUrl"
    case ViewUrl => "viewUrl"  case Tag1 => "tag1"  case Tag2 => "tag2"  case Tag3 => "tag3"
    case Type => "type"  case MimeType => "mimeType"  case UploadedAt => "uploadedAt"  case Size => "size"
    case Message => "message"  case Solution => "solution"  case Status => "status"  case FileName => "fileName"
  }

  /** A listed file as the gateway returns it: Java `Map<String, String>`, keyed by `Key`. */
  type Record = map<Key, string>

  const ListingKey := "studentUploadReadingDTOS"
  const BlockMarker := "{\"idExterne\":"

  /** The fields read from one upload, whichever stage read them. */
  datatype Extracted = Extracted(
    id: Option<string>, url: Option<string>,
    tag1: Option<string>, tag2: Option<string>, tag3: Option<string>)

  function PutIf(r: Record, key: Key, v: Option<string>): Record {
    if v.Some? then r[key := v.value] else r
  }

  /**
   * The record built from the extracted fields, in the order the parser's
   * `put` calls run: id and name, the three URLs, the tags, then the four
   * defaults.
   */
  function BuildRecord(e: Extracted, now: string): (r: Record)
    ensures Type in r && MimeType in r && UploadedAt in r && Size in r
    ensures r[Type] == "pdf" && r[MimeType] == "application/pdf" && r[UploadedAt] == now && r[Size] == "0"
  {
    var withId := PutIf(PutIf(map[], Id, e.id), Name, e.id);
    var withUrl := PutIf(PutIf(PutIf(withId, Url, e.url), DownloadUrl, e.url), ViewUrl, e.url);
    var withTags := PutIf(PutIf(PutIf(withUrl, Tag1, e.tag1), Tag2, e.tag2), Tag3, e.tag3);
    withTags[Type := "pdf"][MimeType := "application/pdf"][UploadedAt := now][Size := "0"]
  }

  /** The identifier and the URL fill two and three keys, and only when they were read. */
  lemma BuildRecordIdAndUrl(e: Extracted, now: string)
    ensures var r := BuildRecord(e, now);
      && (Id in r <==> e.id.Some?) && (Name in r <==> e.id.Some?)
      && (e.id.Some? ==> r[Id] == e.id.value && r[Name] == e.id.value)
      && (Url in r <==> e.url.Some?) && (DownloadUrl in r <==> e.url.Some?) && (ViewUrl in r <==> e.url.Some?)
      && (e.url.Some? ==> r[Url] == e.url.value && r[DownloadUrl] == e.url.value && r[ViewUrl] == e.url.value)
  {
  }

  /** Each tag fills its own key when it was read. */
  lemma BuildRecordTags(e: Extracted, now: string)
    ensures var r := BuildRecord(e, now);
      && (Tag1 in r <==> e.tag1.Some?) && (e.tag1.Some? ==> r[Tag1] == e.tag1.value)
      && (Tag2 in r <==> e.tag2.Some?) && (e.tag2.Some? ==> r[Tag2] == e.tag2.value)
      && (Tag3 in r <==> e.tag3.Some?) && (e.tag3.Some? ==> r[Tag3] == e.tag3.value)
  {
  }

  /** What a built record holds, key by key: nothing else than the read fields and the four defaults. */
  lemma BuildRecordFields(e: Extracted, now: string)
    ensures var r := BuildRecord(e, now);
      && r[Type] == "pdf" && r[MimeType] == "application/pdf" && r[UploadedAt] == now && r[Size] == "0"
      && (Id in r <==> e.id.Some?) && (Name in r <==> e.id.Some?)
      && (e.id.Some? ==> r[Id] == e.id.value && r[Name] == e.id.value)
      && (Url in r <==> e.url.Some?) && (DownloadUrl in r <==> e.url.Some?) && (ViewUrl in r <==> e.url.Some?)
      && (e.url.Some? ==> r[Url] == e.url.value && r[DownloadUrl] == e.url.value && r[ViewUrl] == e.url.value)
      && (Tag1 in r <==> e.tag1.Some?) && (e.tag1.Some? ==> r[Tag1] == e.tag1.value)
      && (Tag2 in r <==> e.tag2.Some?) && (e.tag2.Some? ==> r[Tag2] == e.tag2.value)
      && (Tag3 in r <==> e.tag3.Some?) && (e.tag3.Some? ==> r[Tag3] == e.tag3.value)
      && Message !in r && Solution !in r && Status !in r && FileName !in r
  {
    BuildRecordIdAndUrl(e, now);
    BuildRecordTags(e, now);
  }

  // ---------------------------------------------------------------------------
  // Stage one: the Jackson tree

  /** `asText` of a field the node has, kept only when it is not empty. */
  function TagField(node: Json, key: string): Option<string> {
    if Has(node, key) && AsText(node.fields[key]) != "" then Some(AsText(node.fields[key])) else None
  }

  function Field(node: Json, key: string): Option<string> {
    if Has(node, key) then Some(AsText(node.fields[key])) else None
  }

  function TreeFields(node: Json): Extracted {
    Extracted(Field(node, "idExterne"), Field(node, "url"),
              TagField(node, "tag1"), TagField(node, "tag2"), TagField(node, "tag3"))
  }

  /** The elements of the root's `studentUploadReadingDTOS` array, when the tree has one. */
  function UploadsArray(tree: Option<Json>): (r: Option<seq<Json>>)
    ensures r.Some? <==> tree.Some? && Has(tree.value, ListingKey) && tree.value.fields[ListingKey].JArray?
  {
    if tree.Some? && Has(tree.value, ListingKey) && tree.value.fields[ListingKey].JArray?
    then Some(tree.value.fields[ListingKey].items) else None
  }

  // ---------------------------------------------------------------------------
  // Stage two: the raw text

  const IdPrefix := "\""
  const UrlPrefix := "\"url\":\""
  const Tag1Prefix := "\"tag1\":\""
  const Tag2Prefix := "\"tag2\":\""
  const Tag3Prefix := "\"tag3\":\""

  /** The regular-expression reads of one chunk; the first quoted run is the id. */
  function ChunkFields(chunk: string): Extracted {
    Extracted(FindQuoted(chunk, IdPrefix), FindQuoted(chunk, UrlPrefix),
              FindQuoted(chunk, Tag1Prefix), FindQuoted(chunk, Tag2Prefix), FindQuoted(chunk, Tag3Prefix))
  }

  /** The chunks the fallback loop visits: every piece of the split but the first. */
  function LaterChunks(text: string): seq<string> {
    var pieces := JavaSplit(text, BlockMarker);
    if |pieces| <= 1 then [] else pieces[1..]
  }

  // ---------------------------------------------------------------------------
  // The whole parse, as a function of the text, the tree Jackson makes of it
  // (`None` when `readTree` throws) and the clock reading

  function ParsedListing(text: string, tree: Option<Json>, now: string): (r: seq<Record>)
    ensures !Contains(text, ListingKey) ==> r == []
    ensures Contains(text, ListingKey) && UploadsArray(tree).Some? ==> |r| == |UploadsArray(tree).value|
    ensures Contains(text, ListingKey) && UploadsArray(tree).None? ==> |r| == |LaterChunks(text)|
    ensures forall k | 0 <= k < |r| :: Type in r[k] && r[k][Type] == "pdf" && UploadedAt in r[k] && r[k][UploadedAt] == now
  {
    if !Contains(text, ListingKey) then []
    else if UploadsArray(tree).Some? then
      var items := UploadsArray(tree).value;
      seq(|items|, k requires 0 <= k < |items| => BuildRecord(TreeFields(items[k]), now))
    else
      var chunks := LaterChunks(text);
      seq(|chunks|, k requires 0 <= k < |chunks| => BuildRecord(ChunkFields(chunks[k]), now))
  }

  // ---------------------------------------------------------------------------
  // Properties of the parse

  /** A text that does not mention the listing key yields no record, whatever the tree. */
  lemma WithoutListingKeyEmpty(text: string, tree: Option<Json>, now: string)
    requires !Contains(text, ListingKey)
    ensures ParsedListing(text, tree, now) == []
  {
  }

  /**
   * Stage one gives exactly one record per array element, elements with no known
   * key included: the id is the element's `idExterne` under both "id" and "name",
   * the url under its three keys, a tag only when its text is not empty; the
   * defaults are always there.
   */
  lemma TreeStageRecords(text: string, tree: Option<Json>, now: string, k: nat)
    requires Contains(text, ListingKey) && UploadsArray(tree).Some?
    ensures var items := UploadsArray(tree).value;
      var files := ParsedListing(text, tree, now);
      |files| == |items| &&
      (k < |items| ==>
        var r, node := files[k], items[k];
        && r[Type] == "pdf" && r[MimeType] == "application/pdf" && r[Size] == "0" && r[UploadedAt] == now
        && (Id in r <==> Has(node, "idExterne")) && (Name in r <==> Has(node, "idExterne"))
        && (Has(node, "idExterne") ==> r[Id] == AsText(node.fields["idExterne"]) == r[Name])
        && (Url in r <==> Has(node, "url")) && (DownloadUrl in r <==> Has(node, "url")) && (ViewUrl in r <==> Has(node, "url"))
        && (Has(node, "url") ==> r[Url] == AsText(node.fields["url"]) == r[DownloadUrl] == r[ViewUrl])
        && (Tag1 in r <==> Has(node, "tag1") && AsText(node.fields["tag1"]) != "")
        && (Tag1 in r ==> r[Tag1] == AsText(node.fields["tag1"]) && r[Tag1] != "")
        && (Tag2 in r <==> Has(node, "tag2") && AsText(node.fields["tag2"]) != "")
        && (Tag2 in r ==> r[Tag2] == AsText(node.fields["tag2"]) && r[Tag2] != "")
        && (Tag3 in r <==> Has(node, "tag3") && AsText(node.fields["tag3"]) != "")
        && (Tag3 in r ==> r[Tag3] == AsText(node.fields["tag3"]) && r[Tag3] != ""))
  {
    var items := UploadsArray(tree).value;
    if k < |items| {
      BuildRecordFields(TreeFields(items[k]), now);
    }
  }

  /** A tag that is JSON `null` is stored as the text "null" (Jackson's `asText` of a null node). */
  lemma TreeNullTagBecomesText(node: Json, now: string)
    requires node.JObject? && "tag1" in node.fields && node.fields["tag1"] == JNull
    ensures var r := BuildRecord(TreeFields(node), now); Tag1 in r && r[Tag1] == "null"
  {
    BuildRecordFields(TreeFields(node), now);
  }

  function Tail(c: seq<string>): seq<string> {
    if |c| <= 1 then [] else c[1..]
  }

  lemma {:induction false} TailOfDropTrailingEmpty(a: string, r: seq<string>)
    ensures Tail(DropTrailingEmpty([a] + r)) == DropTrailingEmpty(r)
    decreases |r|
  {
    if |r| > 0 && r[|r| - 1] == "" {
      assert ([a] + r)[..|r|] == [a] + r[..|r| - 1];
      TailOfDropTrailingEmpty(a, r[..|r| - 1]);
    } else if |r| > 0 {
      assert ([a] + r)[1..] == r;
    }
  }

  /**
   * The blocks stage two reads: none when the text has no marker; otherwise the
   * split of the text after the first marker with trailing empty blocks dropped,
   * so everything before the first marker is ignored.
   */
  lemma {:induction false} LaterChunksAfterFirstMarker(text: string)
    ensures !Contains(text, BlockMarker) ==> LaterChunks(text) == []
    ensures Contains(text, BlockMarker) ==>
      var i := IndexOf(text, BlockMarker);
      LaterChunks(text) == DropTrailingEmpty(SplitAll(text[i + |BlockMarker|..], BlockMarker))
  {
    TailOfSplit(text, BlockMarker);
    assert LaterChunks(text) == Tail(JavaSplit(text, BlockMarker));
  }

  /** The pieces after the first of a split are the split of what follows the first separator. */
  lemma {:induction false} TailOfSplit(text: string, sep: string)
    requires |sep| > 0
    ensures !Contains(text, sep) ==> Tail(JavaSplit(text, sep)) == []
    ensures Contains(text, sep) ==>
      Tail(JavaSplit(text, sep)) == DropTrailingEmpty(SplitAll(text[IndexOf(text, sep) + |sep|..], sep))
  {
    if Contains(text, sep) {
      var i := IndexOf(text, sep);
      var rest := text[i + |sep|..];
      assert SplitAll(text, sep) == [text[..i]] + SplitAll(rest, sep);
      TailOfDropTrailingEmpty(text[..i], SplitAll(rest, sep));
    }
  }

  /**
   * The record of one block: a field is present exactly when its pattern
   * matches somewhere in the block, and the id is a non-empty run without quotes.
   */
  lemma BlockRecordFields(block: string, now: string)
    ensures var r := BuildRecord(ChunkFields(block), now);
      && r[Type] == "pdf" && r[MimeType] == "application/pdf" && r[Size] == "0" && r[UploadedAt] == now
      && (Id in r <==> exists i :: QuotedMatchAt(block, IdPrefix, i))
      && (Id in r ==> Name in r && r[Name] == r[Id] && r[Id] != "" && '"' !in r[Id])
      && (Url in r <==> exists i :: QuotedMatchAt(block, UrlPrefix, i))
      && (Url in r ==> r[DownloadUrl] == r[Url] && r[ViewUrl] == r[Url])
      && (Tag1 in r <==> exists i :: QuotedMatchAt(block, Tag1Prefix, i))
      && (Tag2 in r <==> exists i :: QuotedMatchAt(block, Tag2Prefix, i))
      && (Tag3 in r <==> exists i :: QuotedMatchAt(block, Tag3Prefix, i))
  {
    BuildRecordFields(ChunkFields(block), now);
    FindQuotedFromLeftmost(block, IdPrefix, 0);
    FindQuotedFromLeftmost(block, UrlPrefix, 0);
    FindQuotedFromLeftmost(block, Tag1Prefix, 0);
    FindQuotedFromLeftmost(block, Tag2Prefix, 0);
    FindQuotedFromLeftmost(block, Tag3Prefix, 0);
  }

  /**
   * Stage two runs when the tree has no `studentUploadReadingDTOS` array (or
   * Jackson failed): no record without a marker; otherwise one record per block
   * of the text after the first marker, trailing empty blocks excepted.
   */
  lemma TextStageRecords(text: string, tree: Option<Json>, now: string)
    requires Contains(text, ListingKey) && UploadsArray(tree).None?
    ensures !Contains(text, BlockMarker) ==> ParsedListing(text, tree, now) == []
    ensures Contains(text, BlockMarker) ==>
      var blocks := DropTrailingEmpty(SplitAll(text[IndexOf(text, BlockMarker) + |BlockMarker|..], BlockMarker));
      var files := ParsedListing(text, tree, now);
      |files| == |blocks| && forall k | 0 <= k < |blocks| :: files[k] == BuildRecord(ChunkFields(blocks[k]), now)
  {
    LaterChunksAfterFirstMarker(text);
  }

  /**
   * `parseCurlJsonResponse`: the two stages with their loops. Nothing in it can
   * throw once the tree is given, so the outer catch never changes the result.
   */
  method ParseCurlJsonResponse(text: string, tree: Option<Json>, now: string) returns (files: seq<Record>)
    ensures files == ParsedListing(text, tree, now)
  {
    files := [];
    if !Contains(text, ListingKey) {
      return;
    }
    var uploads := UploadsArray(tree);
    if uploads.Some? {
      files := ReadTreeUploads(uploads.value, now);
    } else {
      files := ReadTextBlocks(JavaSplit(text, BlockMarker), now);
    }
  }

  /** Stage one's loop: one record per array element. */
  method ReadTreeUploads(items: seq<Json>, now: string) returns (files: seq<Record>)
    ensures files == seq(|items|, k requires 0 <= k < |items| => BuildRecord(TreeFields(items[k]), now))
  {
    files := [];
    for k := 0 to |items|
      invariant files == seq(k, j requires 0 <= j < k => BuildRecord(TreeFields(items[j]), now))
    {
      var file := ReadTreeNode(items[k], now);
      assert Type in file;
      if file != map[] {
        files := files + [file];
      }
    }
  }

  /** The body of stage one's loop: the fields of one array element. */
  method ReadTreeNode(node: Json, now: string) returns (file: Record)
    ensures file == BuildRecord(TreeFields(node), now)
  {
    file := map[];
    if Has(node, "idExterne") {
      var idExterne := AsText(node.fields["idExterne"]);
      file := file[Id := idExterne][Name := idExterne];
    }
    if Has(node, "url") {
      var url := AsText(node.fields["url"]);
      file := file[Url := url][DownloadUrl := url][ViewUrl := url];
    }
    if Has(node, "tag1") && AsText(node.fields["tag1"]) != "" { file := file[Tag1 := AsText(node.fields["tag1"])]; }
    if Has(node, "tag2") && AsText(node.fields["tag2"]) != "" { file := file[Tag2 := AsText(node.fields["tag2"])]; }
    if Has(node, "tag3") && AsText(node.fields["tag3"]) != "" { file := file[Tag3 := AsText(node.fields["tag3"])]; }
    file := file[Type := "pdf"][MimeType := "application/pdf"][UploadedAt := now][Size := "0"];
    assert file == BuildRecord(TreeFields(node), now);
  }

  /** Stage two's loop over the split text, skipping the piece before the first marker. */
  method ReadTextBlocks(blocks: seq<string>, now: string) returns (files: seq<Record>)
    ensures var chunks := if |blocks| <= 1 then [] else blocks[1..];
      files == seq(|chunks|, k requires 0 <= k < |chunks| => BuildRecord(ChunkFields(chunks[k]), now))
  {
    files := [];
    var i := 1;
    while i < |blocks|
      invariant 1 <= i && (|blocks| >= 1 ==> i <= |blocks|)
      invariant |blocks| <= 1 ==> i == 1
      invariant |files| == i - 1
      invariant forall j | 0 <= j < i - 1 :: files[j] == BuildRecord(ChunkFields(blocks[j + 1]), now)
    {
      var file := ReadBlock(blocks[i], now);
      assert Type in file;
      if file != map[] {
        files := files + [file];
      }
      i := i + 1;
    }
  }

  /** The body of stage two's loop: the regular-expression reads of one block. */
  method ReadBlock(block: string, now: string) returns (file: Record)
    ensures file == BuildRecord(ChunkFields(block), now)
  {
    file := map[];
    var id := FindQuoted(block, IdPrefix);
    if id.Some? { file := file[Id := id.value][Name := id.value]; }
    var url := FindQuoted(block, UrlPrefix);
    if url.Some? { file := file[Url := url.value][DownloadUrl := url.value][ViewUrl := url.value]; }
    var tag1 := FindQuoted(block, Tag1Prefix);
    if tag1.Some? && tag1.value != "" { file := file[Tag1 := tag1.value]; }
    var tag2 := FindQuoted(block, Tag2Prefix);
    if tag2.Some? && tag2.value != "" { file := file[Tag2 := tag2.value]; }
    var tag3 := FindQuoted(block, Tag3Prefix);
    if tag3.Some? && tag3.value != "" { file := file[Tag3 := tag3.value]; }
    file := file[Type := "pdf"][MimeType := "application/pdf"][UploadedAt := now][Size := "0"];
  }
}
