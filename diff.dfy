/**
  The difference between the desired records and the records in the store,
  as `sync_collection` obtains it: the records to create, the pairs to
  update and the records to delete, each list keyed by the records' "id".
  The desired records are compared one by one, so each of two desired
  records with one identifier is created or updated on its own. Only the
  lookups go through an index by identifier (the stored side's, and the
  desired side's for the deletions), and an index keeps the last record
  for an identifier, as a Python dict comprehension would.
 */
module Diff {
  import opened Wrappers
  import opened Json
  import opened Records

  /** The field the store stamps on every record it holds. */
  const Stamp := "last_modified"

  /** Two records agree on everything but the store's revision stamp. */
  predicate SameContent(a: Record, b: Record)
  {
    a - {Stamp} == b - {Stamp}
  }

  /** Two records have the same content exactly when they hold the same keys other than the stamp, with the same values. */
  lemma SameContentFields(a: Record, b: Record)
    ensures SameContent(a, b) <==> && (forall k :: k != Stamp ==> (k in a <==> k in b))
                                   && (forall k :: k != Stamp && k in a ==> a[k] == b[k])
  {
    var (a', b') := (a - {Stamp}, b - {Stamp});
    if SameContent(a, b) {
      forall k | k != Stamp && k in a
        ensures k in b && a[k] == b[k]
      {
        assert k in a' && a'[k] == a[k];
      }
      forall k | k != Stamp && k in b
        ensures k in a
      {
        assert k in b';
      }
    }
    if (forall k :: k != Stamp ==> (k in a <==> k in b)) && (forall k :: k != Stamp && k in a ==> a[k] == b[k]) {
      forall k
        ensures k in a' <==> k in b'
      {
      }
      forall k | k in a'
        ensures a'[k] == b'[k]
      {
        assert k != Stamp;
      }
      assert a' == b';
    }
  }

  /** The identifiers of some records. */
  function Ids(records: seq<Record>): set<Json>
  {
    set r | r in records :: r["id"]
  }

  /** No two records share an identifier. */
  predicate UniqueIds(records: seq<Record>)
  {
    forall i, j :: 0 <= i < j < |records| ==> records[i]["id"] != records[j]["id"]
  }

  /** `{r["id"]: r for r in records}`: each identifier maps to the last record carrying it. */
  function Index(records: seq<Record>): (idx: map<Json, Record>)
    ensures idx.Keys == Ids(records)
    ensures forall id :: id in idx ==> idx[id] in records && idx[id]["id"] == id
    decreases |records|
  {
    if records == [] then map[]
    else
      var last := records[|records| - 1];
      var init := records[..|records| - 1];
      assert records == init + [last];
      Index(init)[last["id"] := last]
  }

  /**
    The records whose identifier the index does not hold, in their order:
    the desired records to create against the stored index, and the stored
    records to delete against the desired index.
   */
  function Unmatched(records: seq<Record>, idx: map<Json, Record>): (r: seq<Record>)
    ensures forall x :: x in r <==> x in records && x["id"] !in idx
    ensures |r| <= |records|
    decreases |records|
  {
    if records == [] then []
    else
      var init := records[..|records| - 1];
      var last := records[|records| - 1];
      assert records == init + [last];
      Unmatched(init, idx) + (if last["id"] !in idx then [last] else [])
  }

  /**
    For each desired record whose identifier the store holds with other
    content, the pair (stored record, desired record), in the desired order.
   */
  function Updates(source: seq<Record>, dest: map<Json, Record>): (r: seq<(Record, Record)>)
    ensures forall p :: p in r <==>
              p.1 in source && p.1["id"] in dest && p.0 == dest[p.1["id"]] && !SameContent(p.1, p.0)
    ensures |r| <= |source|
    decreases |source|
  {
    if source == [] then []
    else
      var init := source[..|source| - 1];
      var last := source[|source| - 1];
      assert source == init + [last];
      var id := last["id"];
      Updates(init, dest) + (if id in dest && !SameContent(last, dest[id]) then [(dest[id], last)] else [])
  }

  /** The three lists `collection_diff` returns. */
  datatype Changes = Changes(toCreate: seq<Record>, toUpdate: seq<(Record, Record)>, toDelete: seq<Record>)
  {
    predicate IsEmpty()
    {
      toCreate == [] && toUpdate == [] && toDelete == []
    }
  }

  /**
    `collection_diff(source, dest)`: a desired record is created exactly
    when the store lacks its identifier, a stored record is deleted exactly
    when no desired record carries its identifier, and every update pairs a
    stored record with a desired record of the same identifier and other
    content.
   */
  function CollectionDiff(source: seq<Record>, dest: seq<Record>): (c: Changes)
    ensures forall r :: r in c.toCreate <==> r in source && r["id"] !in Ids(dest)
    ensures forall r :: r in c.toDelete <==> r in dest && r["id"] !in Ids(source)
    ensures forall p :: p in c.toUpdate ==> p.0 in dest && p.1 in source && p.0["id"] == p.1["id"] && !SameContent(p.1, p.0)
  {
    Changes(Unmatched(source, Index(dest)), Updates(source, Index(dest)), Unmatched(dest, Index(source)))
  }

  // ---------------------------------------------------------------------------
  // Properties

  /** With identifiers unique, a record is determined by its identifier. */
  lemma SameIdSameRecord(records: seq<Record>, r1: Record, r2: Record)
    requires UniqueIds(records) && r1 in records && r2 in records && r1["id"] == r2["id"]
    ensures r1 == r2
  {
    var i :| 0 <= i < |records| && records[i] == r1;
    var j :| 0 <= j < |records| && records[j] == r2;
  }

  /** With identifiers unique in the store, the record an identifier indexes is the one that carries it. */
  lemma IndexUnique(records: seq<Record>, r: Record)
    requires UniqueIds(records) && r in records
    ensures Index(records)[r["id"]] == r
  {
    assert r["id"] in Ids(records);
    SameIdSameRecord(records, Index(records)[r["id"]], r);
  }

  /**
    A desired record is updated exactly when the store holds its identifier
    with other content than its own (ignoring the revision stamp); the pair
    carries the stored record first.
   */
  lemma UpdatesExactly(source: seq<Record>, dest: seq<Record>, r: Record)
    requires UniqueIds(dest) && r in source
    ensures (exists prior :: (prior, r) in CollectionDiff(source, dest).toUpdate) <==>
              exists d :: d in dest && d["id"] == r["id"] && !SameContent(r, d)
    ensures forall prior :: (prior, r) in CollectionDiff(source, dest).toUpdate ==> prior in dest && prior["id"] == r["id"]
  {
    var idx := Index(dest);
    if exists d :: d in dest && d["id"] == r["id"] && !SameContent(r, d) {
      var d :| d in dest && d["id"] == r["id"] && !SameContent(r, d);
      IndexUnique(dest, d);
      assert (d, r) in CollectionDiff(source, dest).toUpdate;
    }
    if exists prior :: (prior, r) in CollectionDiff(source, dest).toUpdate {
      var prior :| (prior, r) in CollectionDiff(source, dest).toUpdate;
      assert prior in dest && prior["id"] == r["id"];
    }
  }

  /** Every desired record is either created, updated, or already in the store with the same content, and only one of these. */
  lemma SourcePartition(source: seq<Record>, dest: seq<Record>, r: Record)
    requires r in source
    ensures var c := CollectionDiff(source, dest);
      var created := r in c.toCreate;
      var updated := exists prior :: (prior, r) in c.toUpdate;
      var kept := r["id"] in Ids(dest) && SameContent(r, Index(dest)[r["id"]]);
      && (created || updated || kept)
      && !(created && updated) && !(created && kept) && !(updated && kept)
  {
    var idx := Index(dest);
    if r["id"] in idx && !SameContent(r, idx[r["id"]]) {
      assert (idx[r["id"]], r) in CollectionDiff(source, dest).toUpdate;
    }
  }

  /** Nothing is left unmatched when the index holds every identifier: nothing to create, or nothing to delete. */
  lemma {:induction false} UnmatchedNone(records: seq<Record>, idx: map<Json, Record>)
    requires forall r :: r in records ==> r["id"] in idx
    ensures Unmatched(records, idx) == []
    decreases |records|
  {
    if records != [] {
      UnmatchedNone(records[..|records| - 1], idx);
    }
  }

  /** Nothing is updated when every desired record matches the stored one. */
  lemma {:induction false} UpdatesNone(source: seq<Record>, dest: map<Json, Record>)
    requires forall r :: r in source ==> r["id"] in dest && SameContent(r, dest[r["id"]])
    ensures Updates(source, dest) == []
    decreases |source|
  {
    if source != [] {
      UpdatesNone(source[..|source| - 1], dest);
    }
  }

  /** With nothing to create or update, every desired record is stored with the same content. */
  lemma NoCreatesNoUpdates(source: seq<Record>, dest: map<Json, Record>, r: Record)
    requires Unmatched(source, dest) == [] && Updates(source, dest) == [] && r in source
    ensures r["id"] in dest && SameContent(r, dest[r["id"]])
  {
    assert r !in Unmatched(source, dest);
    if r["id"] in dest {
      assert (dest[r["id"]], r) !in Updates(source, dest);
    }
  }

  /** With nothing to delete, every stored identifier is desired. */
  lemma NoDeletes(dest: seq<Record>, source: map<Json, Record>, d: Record)
    requires Unmatched(dest, source) == [] && d in dest
    ensures d["id"] in source
  {
    assert d !in Unmatched(dest, source);
  }

  /** An empty difference means both sides hold the same identifiers and every desired record matches the stored one. */
  lemma EmptyDiffMatches(source: seq<Record>, dest: seq<Record>)
    requires CollectionDiff(source, dest).IsEmpty()
    ensures Ids(source) == Ids(dest)
    ensures forall r :: r in source ==> r["id"] in Index(dest) && SameContent(r, Index(dest)[r["id"]])
  {
    var idx := Index(dest);
    forall r | r in source ensures r["id"] in idx && SameContent(r, idx[r["id"]]) {
      NoCreatesNoUpdates(source, idx, r);
    }
    forall d | d in dest ensures d["id"] in Ids(source) {
      NoDeletes(dest, Index(source), d);
    }
  }

  /** When both sides hold the same identifiers and every desired record matches the stored one, the difference is empty. */
  lemma MatchesEmptyDiff(source: seq<Record>, dest: seq<Record>)
    requires Ids(source) == Ids(dest)
    requires forall r :: r in source ==> r["id"] in Index(dest) && SameContent(r, Index(dest)[r["id"]])
    ensures CollectionDiff(source, dest).IsEmpty()
  {
    UnmatchedNone(source, Index(dest));
    UpdatesNone(source, Index(dest));
    UnmatchedNone(dest, Index(source));
  }

  /** No operation is needed exactly when both sides hold the same identifiers and every desired record matches the stored one. */
  lemma EmptyDiff(source: seq<Record>, dest: seq<Record>)
    ensures CollectionDiff(source, dest).IsEmpty() <==>
              && Ids(source) == Ids(dest)
              && forall r :: r in source ==> r["id"] in Index(dest) && SameContent(r, Index(dest)[r["id"]])
  {
    if CollectionDiff(source, dest).IsEmpty() {
      EmptyDiffMatches(source, dest);
    } else if Ids(source) == Ids(dest) && forall r :: r in source ==> r["id"] in Index(dest) && SameContent(r, Index(dest)[r["id"]]) {
      MatchesEmptyDiff(source, dest);
    }
  }

  /** Two desired records with one identifier, against an empty store: each is created on its own, in order. */
  lemma DuplicatesEachCreated(r1: Record, r2: Record)
    requires r1["id"] == r2["id"]
    ensures CollectionDiff([r1, r2], []).toCreate == [r1, r2]
  {
    assert [r1, r2][..1] == [r1];
    assert [r1][..0] == [];
  }

  /** Comparing the store against itself needs no operation. */
  lemma SelfDiffEmpty(records: seq<Record>)
    requires UniqueIds(records)
    ensures CollectionDiff(records, records).IsEmpty()
  {
    forall r | r in records ensures SameContent(r, Index(records)[r["id"]]) {
      IndexUnique(records, r);
    }
    EmptyDiff(records, records);
  }

  /** A stored record that differs from the desired one only by its revision stamp needs no update. */
  lemma StampIgnored(desired: Record, stamp: Json)
    ensures CollectionDiff([desired], [desired[Stamp := stamp]]).IsEmpty()
  {
    var stored := desired[Stamp := stamp];
    assert stored - {Stamp} == desired - {Stamp};
    assert Ids([desired]) == Ids([stored]) by {
      assert stored["id"] == desired["id"];
    }
    assert Index([stored])[desired["id"]] == stored;
    EmptyDiff([desired], [stored]);
  }
}
