/**
 * The client-side PDF catalogue of the mobile app (`PdfService`): a list of
 * documents kept in device storage, merged with the server's list, searched,
 * extended and pruned. Storage is the two fields of `PdfCatalogue`; the clock,
 * the generated id and the server's answer are parameters. Dates are kept as
 * the milliseconds `new Date(...)` parses them to, `None` for an invalid date.
 */
module PdfCatalogue {
  import opened Wrappers
  import opened Text

  datatype Doc = Doc(
    id: string,
    name: string,
    originalName: Option<string>,
    size: int,
    uploadedAt: Option<int>,
    tags: Option<seq<string>>,
    description: Option<string>)

  // ---------------------------------------------------------------------------
  // Document ids and the JavaScript `Map` built from the local list

  function Ids(docs: seq<Doc>): set<string> {
    set k | 0 <= k < |docs| :: docs[k].id
  }

  predicate DistinctIds(docs: seq<Doc>) {
    forall i, j | 0 <= i < j < |docs| :: docs[i].id != docs[j].id
  }

  predicate DistinctKeys(ks: seq<string>) {
    forall i, j | 0 <= i < j < |ks| :: ks[i] != ks[j]
  }

  lemma IdsSnoc(docs: seq<Doc>, d: Doc)
    ensures Ids(docs + [d]) == Ids(docs) + {d.id}
  {
    var s := docs + [d];
    forall x | x in Ids(s) ensures x in Ids(docs) + {d.id} {
      var k :| 0 <= k < |s| && s[k].id == x;
      if k < |docs| { assert docs[k].id == x; }
    }
    forall x | x in Ids(docs) ensures x in Ids(s) {
      var k :| 0 <= k < |docs| && docs[k].id == x;
      assert s[k].id == x;
    }
    assert s[|docs|].id == d.id;
  }

  lemma IdsConcat(a: seq<Doc>, b: seq<Doc>)
    ensures Ids(a + b) == Ids(a) + Ids(b)
  {
    var s := a + b;
    forall x | x in Ids(s) ensures x in Ids(a) + Ids(b) {
      var k :| 0 <= k < |s| && s[k].id == x;
      if k < |a| { assert a[k].id == x; } else { assert b[k - |a|].id == x; }
    }
    forall x | x in Ids(a) ensures x in Ids(s) {
      var k :| 0 <= k < |a| && a[k].id == x;
      assert s[k].id == x;
    }
    forall x | x in Ids(b) ensures x in Ids(s) {
      var k :| 0 <= k < |b| && b[k].id == x;
      assert s[|a| + k].id == x;
    }
  }

  lemma DistinctConcat(a: seq<Doc>, b: seq<Doc>)
    requires DistinctIds(a) && DistinctIds(b) && Ids(a) !! Ids(b)
    ensures DistinctIds(a + b)
  {
    var s := a + b;
    forall i, j | 0 <= i < j < |s| ensures s[i].id != s[j].id {
      if j < |a| {
        assert s[i] == a[i] && s[j] == a[j];
      } else if i < |a| {
        assert s[i] == a[i] && a[i].id in Ids(a);
        assert s[j] == b[j - |a|] && b[j - |a|].id in Ids(b);
      } else {
        assert s[i] == b[i - |a|] && s[j] == b[j - |a|];
      }
    }
  }

  /** The value `new Map(docs.map(d => [d.id, d]))` holds for `id`: the last document with it. */
  function LastWithId(docs: seq<Doc>, id: string): (d: Doc)
    requires id in Ids(docs)
    ensures d.id == id && d in docs
  {
    var last := docs[|docs| - 1];
    if last.id == id then last
    else
      assert id in Ids(docs[..|docs| - 1]) by {
        var k :| 0 <= k < |docs| && docs[k].id == id;
        assert docs[..|docs| - 1][k].id == id;
      }
      LastWithId(docs[..|docs| - 1], id)
  }

  /** The keys of that map in iteration order: each id where it first occurs. */
  function MapKeys(docs: seq<Doc>): (ks: seq<string>)
    ensures forall x :: x in ks <==> x in Ids(docs)
    ensures DistinctKeys(ks)
    ensures |ks| <= |docs|
  {
    if |docs| == 0 then []
    else
      var init := docs[..|docs| - 1];
      var ks := MapKeys(init);
      assert docs == init + [docs[|docs| - 1]];
      IdsSnoc(init, docs[|docs| - 1]);
      if docs[|docs| - 1].id in ks then ks else ks + [docs[|docs| - 1].id]
  }

  /** `ks` without the keys in `gone`, in order (what `Map.delete` leaves). */
  function Without(ks: seq<string>, gone: set<string>): (r: seq<string>)
    ensures forall x :: x in r <==> x in ks && x !in gone
    ensures |r| <= |ks|
  {
    if |ks| == 0 then [] else (if ks[0] in gone then [] else [ks[0]]) + Without(ks[1..], gone)
  }

  lemma {:induction false} WithoutNothing(ks: seq<string>)
    ensures Without(ks, {}) == ks
  {
    if |ks| > 0 { WithoutNothing(ks[1..]); }
  }

  lemma {:induction false} WithoutWithout(ks: seq<string>, gone: set<string>, x: string)
    ensures Without(Without(ks, gone), {x}) == Without(ks, gone + {x})
  {
    if |ks| > 0 {
      WithoutWithout(ks[1..], gone, x);
      var w := Without(ks, gone);
      if ks[0] !in gone {
        assert w == [ks[0]] + Without(ks[1..], gone);
        assert w[0] == ks[0] && w[1..] == Without(ks[1..], gone);
        assert Without(w, {x}) == (if ks[0] in {x} then [] else [ks[0]]) + Without(w[1..], {x});
      } else {
        assert w == Without(ks[1..], gone);
      }
    }
  }

  lemma {:induction false} WithoutDistinct(ks: seq<string>, gone: set<string>)
    requires DistinctKeys(ks)
    ensures DistinctKeys(Without(ks, gone))
  {
    if |ks| > 0 {
      assert DistinctKeys(ks[1..]) by {
        forall i, j | 0 <= i < j < |ks[1..]| ensures ks[1..][i] != ks[1..][j] {
          assert ks[1..][i] == ks[i + 1] && ks[1..][j] == ks[j + 1];
        }
      }
      WithoutDistinct(ks[1..], gone);
      var rest := Without(ks[1..], gone);
      var r := Without(ks, gone);
      if ks[0] !in gone {
        assert r == [ks[0]] + rest;
        assert ks[0] !in ks[1..] by {
          forall k | 0 <= k < |ks[1..]| ensures ks[1..][k] != ks[0] { assert ks[1..][k] == ks[k + 1]; }
        }
        assert ks[0] !in rest;
        forall i, j | 0 <= i < j < |r| ensures r[i] != r[j] {
          assert r[j] == rest[j - 1];
          if i > 0 { assert r[i] == rest[i - 1]; } else { assert r[j] in rest; }
        }
      } else {
        assert r == rest;
      }
    }
  }

  // ---------------------------------------------------------------------------
  // The merge, stated remote position by remote position

  /** `new Date(remote) > new Date(local)`: false as soon as either date is invalid. */
  predicate Newer(remote: Doc, local: Doc) {
    remote.uploadedAt.Some? && local.uploadedAt.Some? && remote.uploadedAt.value > local.uploadedAt.value
  }

  /** The map no longer holds the id at step `i`: never there, or deleted by an earlier remote document. */
  predicate IsNew(local: seq<Doc>, remote: seq<Doc>, i: nat)
    requires i < |remote|
  {
    remote[i].id !in Ids(local) || remote[i].id in Ids(remote[..i])
  }

  predicate IsUpdate(local: seq<Doc>, remote: seq<Doc>, i: nat)
    requires i < |remote|
  {
    !IsNew(local, remote, i) && Newer(remote[i], LastWithId(local, remote[i].id))
  }

  /** The document pushed for `remote[i]`. */
  function RemoteChoice(local: seq<Doc>, remote: seq<Doc>, i: nat): (d: Doc)
    requires i < |remote|
    ensures d.id == remote[i].id
  {
    if IsNew(local, remote, i) || IsUpdate(local, remote, i) then remote[i] else LastWithId(local, remote[i].id)
  }

  /** One document per remote position. */
  function RemotePart(local: seq<Doc>, remote: seq<Doc>): (r: seq<Doc>)
    ensures |r| == |remote|
  {
    seq(|remote|, i requires 0 <= i < |remote| => RemoteChoice(local, remote, i))
  }

  /** The local documents no remote document named, in the map's order. */
  function LocalOnly(local: seq<Doc>, remote: seq<Doc>): (r: seq<Doc>)
  {
    var ks := Without(MapKeys(local), Ids(remote));
    seq(|ks|, k requires 0 <= k < |ks| => LastWithId(local, ks[k]))
  }

  /** The merged list: the remote part, then the local-only part. */
  function Merged(local: seq<Doc>, remote: seq<Doc>): seq<Doc> {
    RemotePart(local, remote) + LocalOnly(local, remote)
  }

  function CountNew(local: seq<Doc>, remote: seq<Doc>, n: nat): nat
    requires n <= |remote|
  {
    if n == 0 then 0 else CountNew(local, remote, n - 1) + (if IsNew(local, remote, n - 1) then 1 else 0)
  }

  function CountUpdated(local: seq<Doc>, remote: seq<Doc>, n: nat): nat
    requires n <= |remote|
  {
    if n == 0 then 0 else CountUpdated(local, remote, n - 1) + (if IsUpdate(local, remote, n - 1) then 1 else 0)
  }

  datatype MergeStats = MergeStats(newDocuments: nat, updatedDocuments: nat, deletedDocuments: nat)

  /** The JavaScript `Map` of the local list after the ids in `gone` were deleted: keys in order, values. */
  predicate MapHolds(local: seq<Doc>, gone: set<string>, keys: seq<string>, values: map<string, Doc>) {
    && keys == Without(MapKeys(local), gone)
    && values.Keys == Ids(local) - gone
    && forall k | k in values :: values[k] == LastWithId(local, k)
  }

  /** Appending a document: its id joins the keys unless present, and it becomes that id's value. */
  lemma MapSnoc(prefix: seq<Doc>, doc: Doc)
    ensures MapKeys(prefix + [doc]) == if doc.id in MapKeys(prefix) then MapKeys(prefix) else MapKeys(prefix) + [doc.id]
    ensures Ids(prefix + [doc]) == Ids(prefix) + {doc.id}
    ensures forall k | k in Ids(prefix + [doc]) ::
      LastWithId(prefix + [doc], k) == if k == doc.id then doc else LastWithId(prefix, k)
  {
    var s := prefix + [doc];
    assert s[..|s| - 1] == prefix;
    IdsSnoc(prefix, doc);
  }

  /** The map of the documents `docs` as keys in order and values. */
  predicate MapOf(docs: seq<Doc>, keys: seq<string>, values: map<string, Doc>) {
    && keys == MapKeys(docs)
    && values.Keys == Ids(docs)
    && forall k | k in values :: values[k] == LastWithId(docs, k)
  }

  /** `Map.set(doc.id, doc)` while the map is built. */
  method MapSet(prefix: seq<Doc>, doc: Doc, keys: seq<string>, values: map<string, Doc>)
    returns (keys': seq<string>, values': map<string, Doc>)
    requires MapOf(prefix, keys, values)
    ensures MapOf(prefix + [doc], keys', values')
  {
    MapSnoc(prefix, doc);
    keys' := if doc.id in values then keys else keys + [doc.id];
    values' := values[doc.id := doc];
  }

  /** `new Map(local.map((doc) => [doc.id, doc]))`. */
  method BuildLocalMap(local: seq<Doc>) returns (keys: seq<string>, values: map<string, Doc>)
    ensures MapHolds(local, {}, keys, values)
  {
    keys := [];
    values := map[];
    for j := 0 to |local|
      invariant MapOf(local[..j], keys, values)
    {
      assert local[..j + 1] == local[..j] + [local[j]];
      keys, values := MapSet(local[..j], local[j], keys, values);
    }
    assert local[..|local|] == local;
    WithoutNothing(keys);
  }

  /** One remote document: the document to push, which counter grows, and the map after `delete`. */
  method MergeStep(local: seq<Doc>, remote: seq<Doc>, i: nat, keys: seq<string>, values: map<string, Doc>)
    returns (pushed: Doc, isNew: bool, isUpdate: bool, keys': seq<string>, values': map<string, Doc>)
    requires i < |remote| && MapHolds(local, Ids(remote[..i]), keys, values)
    ensures pushed == RemoteChoice(local, remote, i)
    ensures isNew == IsNew(local, remote, i) && isUpdate == IsUpdate(local, remote, i)
    ensures MapHolds(local, Ids(remote[..i + 1]), keys', values')
  {
    var remoteDoc := remote[i];
    isNew, isUpdate := false, false;
    if remoteDoc.id !in values {
      pushed := remoteDoc;
      isNew := true;
    } else if Newer(remoteDoc, values[remoteDoc.id]) {
      pushed := remoteDoc;
      isUpdate := true;
    } else {
      pushed := values[remoteDoc.id];
    }
    // localMap.delete(remoteDoc.id)
    assert remote[..i + 1] == remote[..i] + [remoteDoc];
    IdsSnoc(remote[..i], remoteDoc);
    WithoutWithout(MapKeys(local), Ids(remote[..i]), remoteDoc.id);
    keys' := Without(keys, {remoteDoc.id});
    values' := values - {remoteDoc.id};
  }

  /** What the pass over the remote list has produced after `i` remote documents. */
  ghost predicate Merging(local: seq<Doc>, remote: seq<Doc>, i: nat, merged: seq<Doc>, newDocuments: nat, updatedDocuments: nat)
    requires i <= |remote|
  {
    && |merged| == i && (forall k | 0 <= k < i :: merged[k] == RemoteChoice(local, remote, k))
    && newDocuments == CountNew(local, remote, i)
    && updatedDocuments == CountUpdated(local, remote, i)
  }

  /** One turn of the pass: push the chosen document and count it. */
  method MergeAdvance(local: seq<Doc>, remote: seq<Doc>, i: nat, merged: seq<Doc>, newDocuments: nat, updatedDocuments: nat,
                      keys: seq<string>, values: map<string, Doc>)
    returns (merged': seq<Doc>, newDocuments': nat, updatedDocuments': nat, keys': seq<string>, values': map<string, Doc>)
    requires i < |remote| && MapHolds(local, Ids(remote[..i]), keys, values)
    requires Merging(local, remote, i, merged, newDocuments, updatedDocuments)
    ensures MapHolds(local, Ids(remote[..i + 1]), keys', values')
    ensures Merging(local, remote, i + 1, merged', newDocuments', updatedDocuments')
  {
    var pushed, isNew, isUpdate;
    pushed, isNew, isUpdate, keys', values' := MergeStep(local, remote, i, keys, values);
    merged' := merged + [pushed];
    newDocuments' := if isNew then newDocuments + 1 else newDocuments;
    updatedDocuments' := if isUpdate then updatedDocuments + 1 else updatedDocuments;
  }

  /** The pass over the remote list. */
  method MergeRemote(local: seq<Doc>, remote: seq<Doc>, keys0: seq<string>, values0: map<string, Doc>)
    returns (merged: seq<Doc>, keys: seq<string>, values: map<string, Doc>, newDocuments: nat, updatedDocuments: nat)
    requires MapHolds(local, {}, keys0, values0)
    ensures MapHolds(local, Ids(remote), keys, values)
    ensures merged == RemotePart(local, remote)
    ensures newDocuments == CountNew(local, remote, |remote|)
    ensures updatedDocuments == CountUpdated(local, remote, |remote|)
  {
    keys, values := keys0, values0;
    merged := [];
    newDocuments, updatedDocuments := 0, 0;
    assert Ids(remote[..0]) == {};
    for i := 0 to |remote|
      invariant MapHolds(local, Ids(remote[..i]), keys, values)
      invariant Merging(local, remote, i, merged, newDocuments, updatedDocuments)
    {
      merged, newDocuments, updatedDocuments, keys, values :=
        MergeAdvance(local, remote, i, merged, newDocuments, updatedDocuments, keys, values);
    }
    assert remote[..|remote|] == remote;
  }

  /** `localMap.forEach((localDoc) => merged.push(localDoc))`: the map's values in its key order. */
  method MapValues(local: seq<Doc>, remote: seq<Doc>, keys: seq<string>, values: map<string, Doc>) returns (rest: seq<Doc>)
    requires MapHolds(local, Ids(remote), keys, values)
    ensures rest == LocalOnly(local, remote)
  {
    rest := [];
    for j := 0 to |keys|
      invariant |rest| == j && forall k | 0 <= k < j :: rest[k] == LastWithId(local, keys[k])
    {
      rest := rest + [values[keys[j]]];
    }
  }

  /**
   * `mergeDocuments`: a `Map` of the local list, one pass over the remote list
   * that pushes and deletes, then the map's remaining values in its order.
   */
  method MergeDocuments(local: seq<Doc>, remote: seq<Doc>) returns (merged: seq<Doc>, stats: MergeStats)
    ensures merged == Merged(local, remote)
    ensures stats == MergeStats(CountNew(local, remote, |remote|), CountUpdated(local, remote, |remote|), 0)
  {
    var keys0, values0 := BuildLocalMap(local);
    var head, keys, values, newDocuments, updatedDocuments := MergeRemote(local, remote, keys0, values0);
    var rest := MapValues(local, remote, keys, values);
    merged := head + rest;
    stats := MergeStats(newDocuments, updatedDocuments, 0);
  }

  // ---------------------------------------------------------------------------
  // What the merge promises

  lemma RemotePartIds(local: seq<Doc>, remote: seq<Doc>)
    requires DistinctIds(remote)
    ensures Ids(RemotePart(local, remote)) == Ids(remote) && DistinctIds(RemotePart(local, remote))
  {
    var r := RemotePart(local, remote);
    assert forall i | 0 <= i < |r| :: r[i].id == remote[i].id;
  }

  lemma LocalOnlyIds(local: seq<Doc>, remote: seq<Doc>)
    ensures Ids(LocalOnly(local, remote)) == Ids(local) - Ids(remote)
    ensures DistinctIds(LocalOnly(local, remote))
  {
    var ks := Without(MapKeys(local), Ids(remote));
    var r := LocalOnly(local, remote);
    assert forall k | 0 <= k < |r| :: r[k].id == ks[k];
    WithoutDistinct(MapKeys(local), Ids(remote));
    forall x | x in Ids(local) - Ids(remote) ensures x in Ids(r) {
      var k :| 0 <= k < |ks| && ks[k] == x;
      assert r[k].id == x;
    }
  }

  /**
   * With distinct remote ids the merged ids are exactly the union of the local
   * and remote ids, each appearing once.
   */
  lemma MergedIdsAreUnion(local: seq<Doc>, remote: seq<Doc>)
    requires DistinctIds(remote)
    ensures Ids(Merged(local, remote)) == Ids(local) + Ids(remote)
    ensures DistinctIds(Merged(local, remote))
  {
    RemotePartIds(local, remote);
    LocalOnlyIds(local, remote);
    IdsConcat(RemotePart(local, remote), LocalOnly(local, remote));
    DistinctConcat(RemotePart(local, remote), LocalOnly(local, remote));
  }

  /**
   * Remote documents come first, in remote order: a remote document the local
   * list lacks is taken as is and counted new; one the local list has is
   * replaced by it only when strictly newer.
   */
  lemma MergeRemotePositions(local: seq<Doc>, remote: seq<Doc>, i: nat)
    requires DistinctIds(remote) && i < |remote|
    ensures var m := Merged(local, remote);
      && |m| >= |remote|
      && (remote[i].id !in Ids(local) ==> m[i] == remote[i] && IsNew(local, remote, i))
      && (remote[i].id in Ids(local) ==>
           (!IsNew(local, remote, i) &&
            m[i] == (if Newer(remote[i], LastWithId(local, remote[i].id)) then remote[i]
                     else LastWithId(local, remote[i].id))))
  {
    forall k | 0 <= k < i ensures remote[..i][k].id != remote[i].id {
      assert remote[..i][k] == remote[k];
    }
  }

  /** How many of the first `n` remote documents have an id the local list lacks. */
  function CountAbsentLocally(local: seq<Doc>, remote: seq<Doc>, n: nat): nat
    requires n <= |remote|
  {
    if n == 0 then 0 else CountAbsentLocally(local, remote, n - 1) + (if remote[n - 1].id !in Ids(local) then 1 else 0)
  }

  /** With distinct remote ids, `newDocuments` counts the remote documents the local list lacks. */
  lemma {:induction false} CountNewIsAbsentLocally(local: seq<Doc>, remote: seq<Doc>, n: nat)
    requires DistinctIds(remote) && n <= |remote|
    ensures CountNew(local, remote, n) == CountAbsentLocally(local, remote, n)
  {
    if n > 0 {
      CountNewIsAbsentLocally(local, remote, n - 1);
      MergeRemotePositions(local, remote, n - 1);
    }
  }

  /** How many of the first `n` remote documents share an id with the local list and are strictly newer. */
  function CountNewerShared(local: seq<Doc>, remote: seq<Doc>, n: nat): nat
    requires n <= |remote|
  {
    if n == 0 then 0
    else
      var d := remote[n - 1];
      CountNewerShared(local, remote, n - 1) + (if d.id in Ids(local) && Newer(d, LastWithId(local, d.id)) then 1 else 0)
  }

  /** With distinct remote ids, `updatedDocuments` counts the shared ids whose remote copy is strictly newer. */
  lemma {:induction false} CountUpdatedIsNewerShared(local: seq<Doc>, remote: seq<Doc>, n: nat)
    requires DistinctIds(remote) && n <= |remote|
    ensures CountUpdated(local, remote, n) == CountNewerShared(local, remote, n)
  {
    if n > 0 {
      CountUpdatedIsNewerShared(local, remote, n - 1);
      MergeRemotePositions(local, remote, n - 1);
    }
  }

  function IdSeq(docs: seq<Doc>): (r: seq<string>)
    ensures |r| == |docs| && forall k | 0 <= k < |docs| :: r[k] == docs[k].id
  {
    seq(|docs|, k requires 0 <= k < |docs| => docs[k].id)
  }

  /** The documents whose id is not in `gone`, in order. */
  function FilterOut(docs: seq<Doc>, gone: set<string>): (r: seq<Doc>)
    ensures forall d | d in r :: d in docs && d.id !in gone
  {
    if |docs| == 0 then [] else (if docs[0].id in gone then [] else [docs[0]]) + FilterOut(docs[1..], gone)
  }

  lemma {:induction false} MapKeysOfDistinct(docs: seq<Doc>)
    requires DistinctIds(docs)
    ensures MapKeys(docs) == IdSeq(docs)
  {
    if |docs| > 0 {
      var init := docs[..|docs| - 1];
      MapKeysOfDistinct(init);
      assert docs[|docs| - 1].id !in Ids(init);
      assert IdSeq(docs) == IdSeq(init) + [docs[|docs| - 1].id];
    }
  }

  lemma IdSeqCons(d: Doc, rest: seq<Doc>)
    ensures IdSeq([d] + rest) == [d.id] + IdSeq(rest)
  {
  }

  lemma WithoutCons(x: string, ks: seq<string>, gone: set<string>)
    ensures Without([x] + ks, gone) == (if x in gone then [] else [x]) + Without(ks, gone)
  {
    assert ([x] + ks)[1..] == ks;
  }

  lemma {:induction false} WithoutIdSeq(t: seq<Doc>, gone: set<string>)
    ensures Without(IdSeq(t), gone) == IdSeq(FilterOut(t, gone))
  {
    if |t| > 0 {
      var rest := FilterOut(t[1..], gone);
      WithoutIdSeq(t[1..], gone);
      assert t == [t[0]] + t[1..];
      IdSeqCons(t[0], t[1..]);
      WithoutCons(t[0].id, IdSeq(t[1..]), gone);
      if t[0].id !in gone {
        IdSeqCons(t[0], rest);
      }
    }
  }

  /**
   * With distinct local ids the local-only part is the local list itself,
   * filtered to the ids the server did not send, in local order.
   */
  lemma LocalOnlyInLocalOrder(local: seq<Doc>, remote: seq<Doc>)
    requires DistinctIds(local)
    ensures LocalOnly(local, remote) == FilterOut(local, Ids(remote))
  {
    MapKeysOfDistinct(local);
    WithoutIdSeq(local, Ids(remote));
    var u := FilterOut(local, Ids(remote));
    var r := LocalOnly(local, remote);
    forall k | 0 <= k < |u| ensures r[k] == u[k] {
      assert u[k] in local;
      var j :| 0 <= j < |local| && local[j] == u[k];
      DistinctLastWithId(local, j);
    }
  }

  /** The local-only part holds local documents in the map's order, none of them named by the server. */
  lemma LocalOnlyFromLocal(local: seq<Doc>, remote: seq<Doc>)
    ensures |LocalOnly(local, remote)| <= |local|
    ensures forall d | d in LocalOnly(local, remote) :: d in local && d.id !in Ids(remote)
  {
    var ks := Without(MapKeys(local), Ids(remote));
    forall d | d in LocalOnly(local, remote) ensures d in local && d.id !in Ids(remote) {
      var k :| 0 <= k < |ks| && LocalOnly(local, remote)[k] == d;
      assert d == LastWithId(local, ks[k]);
    }
  }

  /** With distinct local ids a local document keeps its own value in the merge. */
  lemma {:induction false} DistinctLastWithId(docs: seq<Doc>, k: nat)
    requires DistinctIds(docs) && k < |docs|
    ensures LastWithId(docs, docs[k].id) == docs[k]
  {
    if k < |docs| - 1 {
      var init := docs[..|docs| - 1];
      assert init[k] == docs[k];
      DistinctLastWithId(init, k);
    }
  }

  // ---------------------------------------------------------------------------
  // Reading the server's list

  /** The answer to `GET /api/pdfs`: status and, when the JSON is an array, its documents; or a failure. */
  datatype FetchOutcome = Fetched(status: int, items: Option<seq<Doc>>) | FetchFailed

  /** `fetchRemoteDocuments`: every failure and every non-array body reads as the empty list. */
  function FetchRemoteDocuments(o: FetchOutcome): (docs: seq<Doc>)
    ensures docs != [] ==> o.Fetched? && 200 <= o.status <= 299 && o.items.Some? && docs == o.items.value
    ensures o.Fetched? && 200 <= o.status <= 299 && o.items.Some? ==> docs == o.items.value
  {
    match o
    case Fetched(status, items) =>
      if status == 404 then []
      else if !(200 <= status <= 299) then []
      else if items.Some? then items.value else []
    case FetchFailed => []
  }

  // ---------------------------------------------------------------------------
  // Searching, validation and naming

  /** The search text occurs, lower-cased, in the name, the original name, the description or a tag. */
  predicate Matches(d: Doc, searchLower: string) {
    || Contains(Lower(d.name), searchLower)
    || (d.originalName.Some? && Contains(Lower(d.originalName.value), searchLower))
    || (d.description.Some? && Contains(Lower(d.description.value), searchLower))
    || (d.tags.Some? && exists t | t in d.tags.value :: Contains(Lower(t), searchLower))
  }

  function FilterMatching(docs: seq<Doc>, searchLower: string): (r: seq<Doc>)
    ensures |r| <= |docs|
    ensures forall d | d in r :: d in docs && Matches(d, searchLower)
    ensures forall d | d in docs && Matches(d, searchLower) :: d in r
  {
    if |docs| == 0 then []
    else (if Matches(docs[0], searchLower) then [docs[0]] else []) + FilterMatching(docs[1..], searchLower)
  }

  /** `searchDocuments` applied to the documents `getAllDocuments` returned. */
  function SearchResults(docs: seq<Doc>, searchText: string): seq<Doc> {
    FilterMatching(docs, Lower(searchText))
  }

  /** The search ignores the case of ASCII letters in the search text. */
  lemma SearchIgnoresCase(docs: seq<Doc>, searchText: string)
    ensures SearchResults(docs, Upper(searchText)) == SearchResults(docs, searchText)
    ensures SearchResults(docs, Lower(searchText)) == SearchResults(docs, searchText)
  {
    assert Lower(Upper(searchText)) == Lower(searchText);
    LowerIdempotent(searchText);
  }

  /** The empty search text keeps every document. */
  lemma {:induction false} EmptySearchKeepsAll(docs: seq<Doc>)
    ensures SearchResults(docs, "") == docs
  {
    if |docs| > 0 {
      assert ContainsAt(Lower(docs[0].name), "", 0);
      EmptySearchKeepsAll(docs[1..]);
    }
  }

  /** The search keeps the documents' order: filtering a longer list extends the result. */
  lemma {:induction false} SearchSnoc(docs: seq<Doc>, d: Doc, searchText: string)
    ensures SearchResults(docs + [d], searchText)
         == SearchResults(docs, searchText) + (if Matches(d, Lower(searchText)) then [d] else [])
  {
    if |docs| > 0 {
      assert (docs + [d])[1..] == docs[1..] + [d];
      SearchSnoc(docs[1..], d, searchText);
    } else {
      assert [d][1..] == [];
    }
  }

  /** The picked file as the app sees it: a name and a size, each possibly missing. */
  datatype PickedFile = PickedFile(name: Option<string>, size: Option<int>)

  const MaxPdfSize := 50 * 1024 * 1024

  /** `validatePdfFile`: the first failed check, or `None` when the file is acceptable. */
  function ValidatePdfFile(file: Option<PickedFile>): (error: Option<string>)
    ensures file.None? ==> error == Some("Aucun fichier fourni")
    ensures file.Some? && file.value.size == Some(0) ==> error == Some("Le fichier est vide")
    ensures file.Some? && file.value.size != Some(0) && file.value.size.Some? && file.value.size.value > MaxPdfSize
            ==> error == Some("Le fichier est trop volumineux (max 50MB)")
    ensures error.None? <==>
            (file.Some? && file.value.size != Some(0)
            && !(file.value.size.Some? && file.value.size.value > MaxPdfSize)
            && file.value.name.Some? && EndsWith(Lower(file.value.name.value), ".pdf"))
  {
    if file.None? then Some("Aucun fichier fourni")
    else if file.value.size == Some(0) then Some("Le fichier est vide")
    else if file.value.size.Some? && file.value.size.value > MaxPdfSize then Some("Le fichier est trop volumineux (max 50MB)")
    else
      var fileName := if file.value.name.Some? then Lower(file.value.name.value) else "";
      if !EndsWith(fileName, ".pdf") then Some("Le fichier doit être un PDF") else None
  }

  /** Whether `\.[^/.]+$` matches: a last dot followed by a non-empty run free of '/' and '.'. */
  predicate HasExtension(name: string) {
    var dot := LastIndexOfChar(name, '.');
    dot >= 0 && dot + 1 < |name| && '/' !in name[dot + 1..]
  }

  /** `extractFileName`: the name without its final extension. */
  function ExtractFileName(name: string): (r: string)
    ensures HasExtension(name) ==> r == name[..LastIndexOfChar(name, '.')]
    ensures !HasExtension(name) ==> r == name
  {
    if HasExtension(name) then name[..LastIndexOfChar(name, '.')] else name
  }

  /** Only the final extension goes: a base and an extension without '/' or '.' come apart again. */
  lemma ExtractFileNameRoundTrip(base: string, ext: string)
    requires |ext| > 0 && '.' !in ext && '/' !in ext
    ensures ExtractFileName(base + "." + ext) == base
  {
    var name := base + "." + ext;
    assert name[|base|] == '.';
    assert forall j | |base| < j < |name| :: name[j] == ext[j - |base| - 1];
    assert LastIndexOfChar(name, '.') == |base|;
    assert name[|base| + 1..] == ext;
  }

  /** A name whose last segment has no dot is kept whole. */
  lemma ExtractFileNameKeepsDotless(name: string)
    requires '.' !in name
    ensures ExtractFileName(name) == name
  {
  }

  predicate HasFourDigits(s: string) {
    exists i | 0 <= i <= |s| - 4 :: IsAsciiDigit(s[i]) && IsAsciiDigit(s[i + 1]) && IsAsciiDigit(s[i + 2]) && IsAsciiDigit(s[i + 3])
  }

  /** `r` is `s` with some elements left out, the rest in order. */
  predicate IsSubsequence(r: seq<string>, s: seq<string>) {
    || |r| == 0
    || (|s| > 0 && (IsSubsequence(r, s[1..]) || (r[0] == s[0] && IsSubsequence(r[1..], s[1..]))))
  }

  lemma {:induction false} SubsequenceConcat(r1: seq<string>, s1: seq<string>, r2: seq<string>, s2: seq<string>)
    requires IsSubsequence(r1, s1) && IsSubsequence(r2, s2)
    ensures IsSubsequence(r1 + r2, s1 + s2)
    decreases |s1|
  {
    if |s1| == 0 {
      assert r1 + r2 == r2 && s1 + s2 == s2;
    } else {
      assert (s1 + s2)[1..] == s1[1..] + s2;
      if |r1| == 0 {
        SubsequenceConcat(r1, s1[1..], r2, s2);
        assert r1 + r2 == r2;
      } else if IsSubsequence(r1, s1[1..]) {
        SubsequenceConcat(r1, s1[1..], r2, s2);
      } else {
        SubsequenceConcat(r1[1..], s1[1..], r2, s2);
        assert (r1 + r2)[1..] == r1[1..] + r2;
      }
    }
  }

  lemma OptionalSingleton(keep: bool, t: string)
    ensures IsSubsequence(if keep then [t] else [], [t])
  {
    assert [t][1..] == [];
  }

  const KnownTags := ["facture", "contrat", "rapport", "date"]

  /** The tags in the order the checks push them. */
  function KeptTags(facture: bool, contrat: bool, rapport: bool, date: bool): (tags: seq<string>)
    ensures IsSubsequence(tags, KnownTags)
    ensures "facture" in tags <==> facture
    ensures "contrat" in tags <==> contrat
    ensures "rapport" in tags <==> rapport
    ensures "date" in tags <==> date
  {
    var a := if facture then ["facture"] else [];
    var b := if contrat then ["contrat"] else [];
    var c := if rapport then ["rapport"] else [];
    var d := if date then ["date"] else [];
    OptionalSingleton(facture, "facture"); OptionalSingleton(contrat, "contrat");
    OptionalSingleton(rapport, "rapport"); OptionalSingleton(date, "date");
    SubsequenceConcat(a, ["facture"], b, ["contrat"]);
    assert ["facture"] + ["contrat"] == ["facture", "contrat"];
    SubsequenceConcat(a + b, ["facture", "contrat"], c, ["rapport"]);
    assert ["facture", "contrat"] + ["rapport"] == ["facture", "contrat", "rapport"];
    SubsequenceConcat(a + b + c, ["facture", "contrat", "rapport"], d, ["date"]);
    assert ["facture", "contrat", "rapport"] + ["date"] == KnownTags;
    a + b + c + d
  }

  /**
   * `extractTagsFromName`: a keyword tag for each keyword in the lower-cased
   * name, and "date" for a run of four digits. Lower-casing only the ASCII
   * letters is exact here: no other character lower-cases into a letter of
   * these keywords.
   */
  function ExtractTagsFromName(fileName: string): (tags: seq<string>)
    ensures IsSubsequence(tags, KnownTags)
    ensures "facture" in tags <==> Contains(Lower(fileName), "facture")
    ensures "contrat" in tags <==> Contains(Lower(fileName), "contrat")
    ensures "rapport" in tags <==> Contains(Lower(fileName), "rapport")
    ensures "date" in tags <==> HasFourDigits(fileName)
  {
    var lower := Lower(fileName);
    KeptTags(Contains(lower, "facture"), Contains(lower, "contrat"), Contains(lower, "rapport"), HasFourDigits(fileName))
  }

  const SyncInterval := 5 * 60 * 1000

  /** `shouldSync`: never synced, or the last sync is more than five minutes old. */
  function ShouldSync(lastSync: Option<int>, now: int): (r: bool)
    ensures lastSync.None? ==> r
    ensures lastSync.Some? ==> (r <==> now - lastSync.value > 300000)
  {
    lastSync.None? || now - lastSync.value > SyncInterval
  }

  function TotalSize(docs: seq<Doc>): int {
    if |docs| == 0 then 0 else TotalSize(docs[..|docs| - 1]) + docs[|docs| - 1].size
  }

  lemma {:induction false} TotalSizeAppend(a: seq<Doc>, b: seq<Doc>)
    ensures TotalSize(a + b) == TotalSize(a) + TotalSize(b)
    decreases |b|
  {
    if |b| > 0 {
      assert (a + b)[..|a + b| - 1] == a + b[..|b| - 1];
      TotalSizeAppend(a, b[..|b| - 1]);
    } else {
      assert a + b == a;
    }
  }

  /** The integer part of `getStats`. */
  datatype PdfStats = PdfStats(totalPdfs: nat, totalSizeBytes: int, lastSync: Option<int>)

  datatype SyncResult = SyncResult(
    success: bool, localCount: nat, remoteCount: nat,
    newDocuments: nat, updatedDocuments: nat, deletedDocuments: nat, errors: seq<string>)

  /**
   * The stored list and sync time after `syncWithRemoteApi` got `remote`:
   * unchanged when the server sent nothing and the device holds documents,
   * otherwise the merge, synced at `now`.
   */
  function AfterSync(local: seq<Doc>, lastSync: Option<int>, remote: seq<Doc>, now: int): (seq<Doc>, Option<int>) {
    if |remote| == 0 && |local| > 0 then (local, lastSync) else (Merged(local, remote), Some(now))
  }

  /** The state `PdfService` keeps in device storage: the document list and the last sync time. */
  class Catalogue {
    var documents: seq<Doc>
    var lastSync: Option<int>

    constructor()
      ensures documents == [] && lastSync == None
    {
      documents := [];
      lastSync := None;
    }

    /**
     * `syncWithRemoteApi`: an empty server list leaves a non-empty local list
     * alone; otherwise the merge replaces the list and the sync time is updated.
     */
    method SyncWithRemoteApi(fetched: FetchOutcome, now: int) returns (r: SyncResult)
      modifies this
      ensures var remote := FetchRemoteDocuments(fetched);
        r.success && r.localCount == |old(documents)| && r.remoteCount == |remote| && r.errors == []
      ensures var remote := FetchRemoteDocuments(fetched);
        if |remote| == 0 && |old(documents)| > 0 then
          documents == old(documents) && lastSync == old(lastSync)
          && r.newDocuments == 0 && r.updatedDocuments == 0
        else
          documents == Merged(old(documents), remote) && lastSync == Some(now)
          && r.newDocuments == CountNew(old(documents), remote, |remote|)
          && r.updatedDocuments == CountUpdated(old(documents), remote, |remote|)
      ensures r.deletedDocuments == 0
    {
      var local := documents;
      var remote := FetchRemoteDocuments(fetched);
      r := SyncResult(false, |local|, |remote|, 0, 0, 0, []);
      if |remote| == 0 && |local| > 0 {
        r := r.(success := true);
        return;
      }
      var merged, stats := MergeDocuments(local, remote);
      r := r.(newDocuments := stats.newDocuments, updatedDocuments := stats.updatedDocuments,
              deletedDocuments := stats.deletedDocuments);
      documents := merged;
      lastSync := Some(now);
      r := r.(success := true);
    }

    /** `getAllDocuments`: sync first when forced or due, then the stored list. */
    method GetAllDocuments(forceSync: bool, fetched: FetchOutcome, now: int) returns (docs: seq<Doc>)
      modifies this
      ensures docs == documents
      ensures !forceSync && !ShouldSync(old(lastSync), now) ==> documents == old(documents) && lastSync == old(lastSync)
      ensures forceSync || ShouldSync(old(lastSync), now) ==>
        (documents, lastSync) == AfterSync(old(documents), old(lastSync), FetchRemoteDocuments(fetched), now)
    {
      if forceSync || ShouldSync(lastSync, now) {
        var _ := SyncWithRemoteApi(fetched, now);
      }
      docs := documents;
    }

    /** `searchDocuments`: the matching documents of `getAllDocuments()`. */
    method SearchDocuments(searchText: string, fetched: FetchOutcome, now: int) returns (found: seq<Doc>)
      modifies this
      ensures found == SearchResults(documents, searchText)
      ensures !ShouldSync(old(lastSync), now) ==> documents == old(documents) && lastSync == old(lastSync)
      ensures ShouldSync(old(lastSync), now) ==>
        (documents, lastSync) == AfterSync(old(documents), old(lastSync), FetchRemoteDocuments(fetched), now)
    {
      var docs := GetAllDocuments(false, fetched, now);
      found := SearchResults(docs, searchText);
    }

    /** `getDocumentById`: the first document with the id, or null. */
    method GetDocumentById(id: string, fetched: FetchOutcome, now: int) returns (found: Option<Doc>)
      modifies this
      ensures found.Some? ==> exists k | 0 <= k < |documents| ::
        documents[k] == found.value && found.value.id == id && forall j | 0 <= j < k :: documents[j].id != id
      ensures found.None? <==> id !in Ids(documents)
      ensures !ShouldSync(old(lastSync), now) ==> documents == old(documents) && lastSync == old(lastSync)
      ensures ShouldSync(old(lastSync), now) ==>
        (documents, lastSync) == AfterSync(old(documents), old(lastSync), FetchRemoteDocuments(fetched), now)
    {
      var docs := GetAllDocuments(false, fetched, now);
      found := None;
      for k := 0 to |docs|
        invariant found.None? ==> forall j | 0 <= j < k :: docs[j].id != id
        invariant found.Some? ==> exists m | 0 <= m < k ::
          docs[m] == found.value && found.value.id == id && forall j | 0 <= j < m :: docs[j].id != id
      {
        if found.None? && docs[k].id == id {
          found := Some(docs[k]);
        }
      }
    }

    /**
     * `addDocument`: a validated file becomes a new document appended to the
     * list; a rejected one leaves the list unchanged.
     */
    method AddDocument(file: Option<PickedFile>, customName: Option<string>, newId: string, now: int)
      returns (r: Result<Doc>)
      modifies this
      ensures ValidatePdfFile(file).Some? ==> r == Err(ValidatePdfFile(file).value) && documents == old(documents)
      ensures ValidatePdfFile(file).None? ==> r.Ok? && documents == old(documents) + [r.value]
      ensures r.Ok? ==> var d := r.value; var name := file.value.name.value;
        && d.id == newId && d.originalName == Some(name) && d.uploadedAt == Some(now)
        && d.name == (if customName.Some? && customName.value != "" then customName.value else ExtractFileName(name))
        && d.size == (if file.value.size.Some? then file.value.size.value else 0)
        && d.tags == Some(ExtractTagsFromName(name)) && d.description.None?
      ensures lastSync == old(lastSync)
    {
      var error := ValidatePdfFile(file);
      if error.Some? {
        return Err(error.value);
      }
      var name := file.value.name.value;
      var doc := Doc(newId,
                     if customName.Some? && customName.value != "" then customName.value else ExtractFileName(name),
                     Some(name),
                     if file.value.size.Some? then file.value.size.value else 0,
                     Some(now),
                     Some(ExtractTagsFromName(name)),
                     None);
      documents := documents + [doc];
      r := Ok(doc);
    }

    /** `deleteDocument`: drops every document with the id; false, and nothing saved, when none had it. */
    method DeleteDocument(id: string) returns (deleted: bool)
      modifies this
      ensures deleted <==> id in Ids(old(documents))
      ensures id !in Ids(documents)
      ensures deleted ==> documents == WithoutId(old(documents), id)
      ensures !deleted ==> documents == old(documents)
      ensures lastSync == old(lastSync)
    {
      var filtered := WithoutId(documents, id);
      if |filtered| == |documents| {
        WithoutIdKeepsAll(documents, id);
        return false;
      }
      WithoutIdKeepsAll(documents, id);
      documents := filtered;
      deleted := true;
    }

    /** `clearLocalCache`: both storage keys removed. */
    method ClearLocalCache()
      modifies this
      ensures documents == [] && lastSync == None
    {
      documents := [];
      lastSync := None;
    }

    /** `getStats`: the count and total size of the stored documents, and the last sync time. */
    function Stats(): (s: PdfStats)
      reads this
      ensures s.totalPdfs == |documents| && s.lastSync == lastSync && s.totalSizeBytes == TotalSize(documents)
    {
      PdfStats(|documents|, TotalSize(documents), lastSync)
    }
  }

  /** `documents.filter((doc) => doc.id !== id)`. */
  function WithoutId(docs: seq<Doc>, id: string): (r: seq<Doc>)
    ensures |r| <= |docs|
    ensures id !in Ids(r)
    ensures forall d | d in r :: d in docs
    ensures forall d | d in docs && d.id != id :: d in r
  {
    if |docs| == 0 then []
    else
      var rest := WithoutId(docs[1..], id);
      var r := (if docs[0].id != id then [docs[0]] else []) + rest;
      assert forall k | 0 <= k < |r| :: r[k].id != id;
      r
  }

  /** Filtering removes something exactly when the id occurs. */
  lemma {:induction false} WithoutIdKeepsAll(docs: seq<Doc>, id: string)
    ensures |WithoutId(docs, id)| == |docs| <==> id !in Ids(docs)
    ensures id !in Ids(docs) ==> WithoutId(docs, id) == docs
  {
    if |docs| > 0 {
      WithoutIdKeepsAll(docs[1..], id);
      IdsCons(docs);
      var rest := WithoutId(docs[1..], id);
      if docs[0].id == id {
        assert WithoutId(docs, id) == rest;
      } else {
        assert WithoutId(docs, id) == [docs[0]] + rest;
      }
    }
  }

  lemma IdsCons(docs: seq<Doc>)
    requires |docs| > 0
    ensures Ids(docs) == {docs[0].id} + Ids(docs[1..])
  {
    forall x | x in Ids(docs) ensures x in {docs[0].id} + Ids(docs[1..]) {
      var k :| 0 <= k < |docs| && docs[k].id == x;
      if k > 0 { assert docs[1..][k - 1].id == x; }
    }
    forall x | x in Ids(docs[1..]) ensures x in Ids(docs) {
      var k :| 0 <= k < |docs[1..]| && docs[1..][k].id == x;
      assert docs[k + 1].id == x;
    }
    assert docs[0].id in Ids(docs);
  }
}
