/**
 * The `uploads` table and the queries `UploadRepository` declares over it.
 * The table maps each id to its row. A query whose SQL has no ORDER BY
 * yields the set of matching ids, since SQL leaves their order open;
 * `findRecentUploads` yields a sequence.
 */
module UploadRepository {
  import opened Wrappers
  import opened Text
  import opened Uploads

  type Table = map<int, UploadRow>

  /** `(:tag IS NULL OR :tag = '' OR u.tag = :tag)`; a NULL column equals nothing. */
  predicate TagMatches(param: Option<string>, stored: Option<string>) {
    param.None? || param.value == "" || stored == Some(param.value)
  }

  predicate TagsMatch(row: UploadRow, tag1: Option<string>, tag2: Option<string>, tag3: Option<string>) {
    TagMatches(tag1, row.tag1) && TagMatches(tag2, row.tag2) && TagMatches(tag3, row.tag3)
  }

  predicate IsPublicRow(row: UploadRow) { row.isPublic == Some(true) }

  /** `findByIsPublicTrue`. */
  function FindByIsPublicTrue(table: Table): (ids: set<int>)
    ensures ids <= table.Keys
    ensures forall k | k in table :: k in ids <==> IsPublicRow(table[k])
  {
    set k | k in table && IsPublicRow(table[k])
  }

  /** `findByTags`. */
  function FindByTags(table: Table, tag1: Option<string>, tag2: Option<string>, tag3: Option<string>): (ids: set<int>)
    ensures ids <= table.Keys
    ensures forall k | k in table :: k in ids <==> TagsMatch(table[k], tag1, tag2, tag3)
  {
    set k | k in table && TagsMatch(table[k], tag1, tag2, tag3)
  }

  /** `findPublicByTags`. */
  function FindPublicByTags(table: Table, tag1: Option<string>, tag2: Option<string>, tag3: Option<string>): (ids: set<int>)
    ensures ids <= table.Keys
    ensures forall k | k in table :: k in ids <==> IsPublicRow(table[k]) && TagsMatch(table[k], tag1, tag2, tag3)
  {
    set k | k in table && IsPublicRow(table[k]) && TagsMatch(table[k], tag1, tag2, tag3)
  }

  /** With every tag parameter null or empty, `findByTags` returns the whole table. */
  lemma WildcardTagsReturnAll(table: Table, tag1: Option<string>, tag2: Option<string>, tag3: Option<string>)
    requires tag1.None? || tag1 == Some("")
    requires tag2.None? || tag2 == Some("")
    requires tag3.None? || tag3 == Some("")
    ensures FindByTags(table, tag1, tag2, tag3) == table.Keys
  {
  }

  /** A stored null tag never matches a non-empty parameter. */
  lemma NullTagNeverMatches(table: Table, k: int, tag1: string, tag2: Option<string>, tag3: Option<string>)
    requires k in table && table[k].tag1.None? && tag1 != ""
    ensures k !in FindByTags(table, Some(tag1), tag2, tag3)
  {
  }

  /** `findPublicByTags` is `findByTags` restricted to public rows. */
  lemma PublicByTagsIsRestriction(table: Table, tag1: Option<string>, tag2: Option<string>, tag3: Option<string>)
    ensures FindPublicByTags(table, tag1, tag2, tag3) == FindByTags(table, tag1, tag2, tag3) * FindByIsPublicTrue(table)
  {
  }

  /** `findPublicByGroupID`: `u.idExterne = :groupID AND u.isPublic = true`; a null group matches nothing. */
  function FindPublicByGroupId(table: Table, groupId: Option<string>): (ids: set<int>)
    ensures ids <= FindByIsPublicTrue(table)
    ensures groupId.None? ==> ids == {}
    ensures forall k | k in table :: k in ids <==> groupId.Some? && table[k].idExterne == groupId && IsPublicRow(table[k])
  {
    set k | k in table && groupId.Some? && table[k].idExterne == groupId && IsPublicRow(table[k])
  }

  /** `findByIdExterne`: the derived query compares with `IS NULL` when the argument is null. */
  function FindByIdExterne(table: Table, idExterne: Option<string>): (ids: set<int>)
    ensures ids <= table.Keys
    ensures forall k | k in table :: k in ids <==> table[k].idExterne == idExterne
  {
    set k | k in table && table[k].idExterne == idExterne
  }

  /** The public rows of a group are exactly the public rows with that external id. */
  lemma GroupIsPublicByIdExterne(table: Table, groupId: string)
    ensures FindPublicByGroupId(table, Some(groupId)) == FindByIdExterne(table, Some(groupId)) * FindByIsPublicTrue(table)
  {
  }

  /** `findByOriginalNameContainingIgnoreCase`: `upper(originalName) LIKE upper('%' + name + '%')`. */
  predicate NameContainsIgnoringCase(row: UploadRow, name: string) {
    row.originalName.Some? && Contains(Upper(row.originalName.value), Upper(name))
  }

  function FindByOriginalNameContainingIgnoreCase(table: Table, name: string): (ids: set<int>)
    ensures ids <= table.Keys
    ensures forall k | k in table :: k in ids <==> NameContainsIgnoringCase(table[k], name)
  {
    set k | k in table && NameContainsIgnoringCase(table[k], name)
  }

  lemma UpperLower(s: string)
    ensures Upper(Lower(s)) == Upper(s) && Upper(Upper(s)) == Upper(s)
  {
  }

  /** The name search gives the same rows for any ASCII casing of the searched text. */
  lemma NameSearchIgnoresCase(table: Table, name: string)
    ensures FindByOriginalNameContainingIgnoreCase(table, Lower(name)) == FindByOriginalNameContainingIgnoreCase(table, name)
    ensures FindByOriginalNameContainingIgnoreCase(table, Upper(name)) == FindByOriginalNameContainingIgnoreCase(table, name)
  {
    UpperLower(name);
  }

  /** The empty search text finds every row that has an original name. */
  lemma EmptyNameFindsNamed(table: Table, k: int)
    requires k in table && table[k].originalName.Some?
    ensures k in FindByOriginalNameContainingIgnoreCase(table, "")
  {
    assert ContainsAt(Upper(table[k].originalName.value), "", 0);
  }

  /** `countByIsPublicTrue`. */
  function CountByIsPublicTrue(table: Table): (n: nat)
    ensures n <= |table|
    ensures n == |table| <==> forall k | k in table :: IsPublicRow(table[k])
  {
    PublicCountBounds(table);
    |FindByIsPublicTrue(table)|
  }

  lemma PublicCountBounds(table: Table)
    ensures |FindByIsPublicTrue(table)| <= |table|
    ensures |FindByIsPublicTrue(table)| == |table| <==> forall k | k in table :: IsPublicRow(table[k])
  {
    var ids := FindByIsPublicTrue(table);
    var rest := table.Keys - ids;
    assert table.Keys == ids + rest && ids !! rest;
    assert |table.Keys| == |ids| + |rest|;
    if !forall k | k in table :: IsPublicRow(table[k]) {
      var k :| k in table && !IsPublicRow(table[k]);
      assert k in rest;
    } else {
      assert rest == {};
    }
  }

  /** The count agrees with the public listing. */
  lemma CountIsPublicListing(table: Table)
    ensures CountByIsPublicTrue(table) == |FindByIsPublicTrue(table)|
  {
  }

  // ---------------------------------------------------------------------------
  // `findRecentUploads`: `ORDER BY u.uploadDate DESC LIMIT :limit`

  /** Newer first; equal dates by ascending id (SQL leaves ties open, the model fixes one order). */
  predicate Precedes(table: Table, a: int, b: int)
    requires a in table && b in table
  {
    table[a].uploadDate > table[b].uploadDate || (table[a].uploadDate == table[b].uploadDate && a <= b)
  }

  lemma PickKey(keys: set<int>) returns (x: int)
    requires |keys| > 0
    ensures x in keys
  {
    if forall y :: y !in keys {
      assert false;
    }
    x :| x in keys;
  }

  lemma {:induction false} NewestExists(table: Table, keys: set<int>)
    requires |keys| > 0 && keys <= table.Keys
    ensures exists k | k in keys :: forall j | j in keys :: Precedes(table, k, j)
    decreases |keys|
  {
    var x := PickKey(keys);
    if |keys| > 1 {
      NewestExists(table, keys - {x});
      var k :| k in keys - {x} && forall j | j in keys - {x} :: Precedes(table, k, j);
      if Precedes(table, k, x) {
        assert forall j | j in keys :: Precedes(table, k, j);
      } else {
        forall j | j in keys ensures Precedes(table, x, j) {
          if j != x { assert Precedes(table, k, j); }
        }
      }
    } else {
      assert |keys - {x}| == |keys| - 1 == 0;
      assert keys == {x};
      assert Precedes(table, x, x);
    }
  }

  ghost function RecentKeys(table: Table, keys: set<int>, limit: nat): (r: seq<int>)
    requires keys <= table.Keys
    ensures |r| == if limit < |keys| then limit else |keys|
    ensures forall i | 0 <= i < |r| :: r[i] in keys
    ensures forall i, j | 0 <= i < j < |r| :: r[i] != r[j] && Precedes(table, r[i], r[j])
    ensures forall k | k in keys && k !in r :: forall i | 0 <= i < |r| :: Precedes(table, r[i], k)
    decreases limit
  {
    if limit == 0 || |keys| == 0 then []
    else
      NewestExists(table, keys);
      var k :| k in keys && forall j | j in keys :: Precedes(table, k, j);
      var rest := RecentKeys(table, keys - {k}, limit - 1);
      [k] + rest
  }

  /** `findRecentUploads(limit)`: at most `limit` rows of the table, newest first. */
  ghost function FindRecentUploads(table: Table, limit: nat): (r: seq<UploadRow>)
    ensures |r| == if limit < |table| then limit else |table|
    ensures forall i | 0 <= i < |r| :: r[i] in table.Values
    ensures forall i, j | 0 <= i < j < |r| :: r[i].uploadDate >= r[j].uploadDate
  {
    var keys := RecentKeys(table, table.Keys, limit);
    assert |table.Keys| == |table|;
    var r := seq(|keys|, i requires 0 <= i < |keys| => table[keys[i]]);
    assert forall i, j | 0 <= i < j < |r| :: Precedes(table, keys[i], keys[j]);
    r
  }

  /** Every row left out of the recent list is no newer than any row in it. */
  lemma RecentListIsNewest(table: Table, limit: nat, k: int)
    requires k in table && k !in RecentKeys(table, table.Keys, limit)
    ensures forall i | 0 <= i < |FindRecentUploads(table, limit)| :: FindRecentUploads(table, limit)[i].uploadDate >= table[k].uploadDate
  {
  }

  /** The table as `JpaRepository` changes it: `save`, `findById`, `delete`, and the identity counter. */
  class UploadTable {
    var rows: Table
    var nextId: int

    ghost predicate Valid()
      reads this
    {
      0 < nextId && forall k | k in rows :: rows[k].id == k && 0 < k < nextId
    }

    constructor()
      ensures rows == map[] && nextId == 1 && Valid()
    {
      rows := map[];
      nextId := 1;
    }

    /**
     * `save`: an entity without a stored row is inserted under the next
     * identity value, after `prePersist` and with the creation time; one with
     * a stored row overwrites it.
     */
    method Save(u: Upload, now: int)
      requires Valid()
      modifies this, u
      ensures Valid()
      ensures u.id in rows && rows == old(rows)[u.id := u.Row()]
      ensures old(u.id) in old(rows) ==> u.Row() == old(u.Row()) && nextId == old(nextId)
      ensures old(u.id) !in old(rows) ==>
        && u.id == old(nextId) && nextId == old(nextId) + 1
        && u.Row() == old(u.Row()).(id := u.id, uploadDate := now,
             isPublic := Some(if old(u.isPublic).Some? then old(u.isPublic).value else false),
             downloadCount := Some(if old(u.downloadCount).Some? then old(u.downloadCount).value else 0))
    {
      if u.id !in rows {
        u.PrePersist();
        u.id := nextId;
        u.uploadDate := now;
        nextId := nextId + 1;
      }
      rows := rows[u.id := u.Row()];
    }

    /** `findById`: a fresh entity holding the stored row, or none. */
    method FindById(id: int) returns (u: Option<Upload>)
      ensures u.Some? <==> id in rows
      ensures u.Some? ==> fresh(u.value) && u.value.Row() == rows[id]
    {
      if id in rows {
        var e := new Upload.FromRow(rows[id]);
        u := Some(e);
      } else {
        u := None;
      }
    }

    /** `delete`: the entity's row goes. */
    method Delete(u: Upload)
      requires Valid()
      modifies this
      ensures Valid()
      ensures rows == old(rows) - {u.id} && nextId == old(nextId)
    {
      rows := rows - {u.id};
    }
  }
}
