/**
  What the calls of `sync_collection` do to the store's collection, and the
  round trip it exists for: once the batch has been applied, the store holds
  the desired records (up to revision stamps), so a second run has nothing
  to do.

  The store keeps one record per identifier. A create or an update stores
  the payload under its identifier with a fresh revision stamp; a delete
  drops the identifier; the other calls leave the records as they are.
 */
module Store {
  import opened Wrappers
  import opened Json
  import opened Records
  import opened Diff
  import opened Sync

  /** The records the store holds, by identifier. */
  type Collection = map<Json, Record>

  /** A create or an update: a call that stores its payload. */
  predicate IsWrite(c: Call)
  {
    c.CreateRecord? || c.UpdateRecord?
  }

  /** The identifier a create, an update or a delete names. */
  function Key(c: Call): Json
  {
    match c
    case CreateRecord(data) => data["id"]
    case UpdateRecord(data) => data["id"]
    case DeleteRecord(id) => id
    case _ => JNull
  }

  /** What the store keeps for a create or an update: its payload, stamped with the new revision. */
  function Stored(c: Call, stamp: Json): (r: Record)
    requires IsWrite(c)
    ensures r["id"] == Key(c) && SameContent(r, c.data)
  {
    c.data[Stamp := stamp]
  }

  /** The effect of one call on the collection, `stamp` being the revision the store assigns. */
  function ApplyCall(store: Collection, c: Call, stamp: Json): (after: Collection)
    ensures IsWrite(c) ==> Key(c) in after && after[Key(c)]["id"] == Key(c) && SameContent(after[Key(c)], c.data)
    ensures c.DeleteRecord? ==> c.id !in after
    ensures forall id :: id != Key(c) ==> (id in after <==> id in store)
    ensures forall id :: id != Key(c) && id in store ==> after[id] == store[id]
  {
    if IsWrite(c) then store[Key(c) := Stored(c, stamp)]
    else if c.DeleteRecord? then store - {c.id}
    else store
  }

  /** No call of `calls` names `id`. */
  predicate Untouched(calls: seq<Call>, id: Json)
  {
    forall c :: c in calls ==> Key(c) != id
  }

  /** The effect of some calls, one after the other: an identifier no call names keeps its record, or its absence. */
  function Apply(store: Collection, calls: seq<Call>, stamp: Json): (after: Collection)
    ensures forall id :: Untouched(calls, id) ==> (id in after <==> id in store)
    ensures forall id :: Untouched(calls, id) && id in store ==> after[id] == store[id]
    decreases |calls|
  {
    if calls == [] then store
    else
      var init := calls[..|calls| - 1];
      assert forall c :: c in init ==> c in calls;
      assert calls[|calls| - 1] in calls;
      ApplyCall(Apply(store, init, stamp), calls[|calls| - 1], stamp)
  }

  /** Applying two runs of calls is applying the first, then the second. */
  lemma {:induction false} ApplyAppend(store: Collection, a: seq<Call>, b: seq<Call>, stamp: Json)
    ensures Apply(store, a + b, stamp) == Apply(Apply(store, a, stamp), b, stamp)
    decreases |b|
  {
    if b == [] {
      assert a + b == a;
    } else {
      var init := b[..|b| - 1];
      assert (a + b)[..|a + b| - 1] == a + init;
      ApplyAppend(store, a, init, stamp);
    }
  }

  /** Only writes, and writes that name one identifier are the same call. */
  predicate KeyedWrites(calls: seq<Call>)
  {
    && (forall c :: c in calls ==> IsWrite(c))
    && forall c1, c2 :: c1 in calls && c2 in calls && Key(c1) == Key(c2) ==> c1 == c2
  }

  /** The identifiers some writes name. */
  function WrittenIds(calls: seq<Call>): set<Json>
  {
    set c | c in calls && IsWrite(c) :: Key(c)
  }

  /** One write more: the identifier it carries is written too. */
  lemma WrittenIdsStep(calls: seq<Call>)
    requires calls != [] && IsWrite(calls[|calls| - 1])
    ensures WrittenIds(calls) == WrittenIds(calls[..|calls| - 1]) + {Key(calls[|calls| - 1])}
  {
    var init := calls[..|calls| - 1];
    assert calls == init + [calls[|calls| - 1]];
  }

  /** After writes, the store holds its own identifiers and the written ones. */
  lemma {:induction false} ApplyWritesKeys(store: Collection, calls: seq<Call>, stamp: Json)
    requires forall c :: c in calls ==> IsWrite(c)
    ensures Apply(store, calls, stamp).Keys == store.Keys + WrittenIds(calls)
    decreases |calls|
  {
    if calls != [] {
      var init := calls[..|calls| - 1];
      assert forall c :: c in init ==> c in calls;
      WrittenIdsStep(calls);
      ApplyWritesKeys(store, init, stamp);
    }
  }

  /** After writes that agree per identifier, each written identifier holds its payload with the new stamp. */
  lemma {:induction false} ApplyWritesValues(store: Collection, calls: seq<Call>, stamp: Json, c: Call)
    requires KeyedWrites(calls) && c in calls
    ensures Key(c) in Apply(store, calls, stamp)
    ensures IsWrite(c) && Apply(store, calls, stamp)[Key(c)] == Stored(c, stamp)
    decreases |calls|
  {
    var init := calls[..|calls| - 1];
    var last := calls[|calls| - 1];
    assert calls == init + [last];
    if Key(c) != Key(last) {
      assert KeyedWrites(init) by {
        assert forall x :: x in init ==> x in calls;
      }
      ApplyWritesValues(store, init, stamp, c);
    }
  }

  /** Removing one identifier more; kept apart so that the proof of `ApplyDeletes` need not reason about map differences. */
  lemma RemoveOneMore(store: Collection, gone: set<Json>, id: Json)
    ensures store - (gone + {id}) == (store - gone) - {id}
  {
    assert (store - (gone + {id})).Keys == ((store - gone) - {id}).Keys;
  }

  /** After deletes, exactly the deleted identifiers are gone. */
  lemma {:induction false} ApplyDeletes(store: Collection, calls: seq<Call>, stamp: Json)
    requires forall c :: c in calls ==> c.DeleteRecord?
    ensures Apply(store, calls, stamp) == store - (set c | c in calls :: c.id)
    decreases |calls|
  {
    if calls != [] {
      var init := calls[..|calls| - 1];
      var last := calls[|calls| - 1];
      assert calls == init + [last];
      ApplyDeletes(store, init, stamp);
      var gone := set c | c in init :: c.id;
      assert (set c | c in calls :: c.id) == gone + {last.id};
      RemoveOneMore(store, gone, last.id);
    }
  }

  /** The creates, then the updates, of the difference of `source` against a store indexed by `idx`. */
  function Writes(source: seq<Record>, idx: map<Json, Record>): seq<Call>
  {
    CreateCalls(Unmatched(source, idx)) + UpdateCalls(Updates(source, idx))
  }

  /** A create of the difference carries a desired record whose identifier the store lacks. */
  lemma CreateSource(source: seq<Record>, idx: map<Json, Record>, c: Call)
    requires c in CreateCalls(Unmatched(source, idx))
    ensures c.CreateRecord? && c.data in source && c.data["id"] !in idx
  {
    CreateCallsMembers(Unmatched(source, idx), c);
  }

  /** An update of the difference carries a desired record, without its stamp, that the store holds with other content. */
  lemma UpdateSource(source: seq<Record>, idx: map<Json, Record>, c: Call) returns (r: Record)
    requires c in UpdateCalls(Updates(source, idx))
    ensures c.UpdateRecord? && c.data == StripStamp(r)
    ensures r in source && r["id"] in idx && !SameContent(r, idx[r["id"]])
  {
    var updates := Updates(source, idx);
    UpdateCallsMembers(updates, c);
    var p :| p in updates && c.data == StripStamp(p.1);
    r := p.1;
  }

  /** The desired record a create or an update of the difference stems from. */
  lemma WriteSource(source: seq<Record>, idx: map<Json, Record>, c: Call) returns (r: Record)
    requires c in Writes(source, idx)
    ensures r in source && IsWrite(c) && Key(c) == r["id"]
    ensures c.CreateRecord? ==> c.data == r && r["id"] !in idx
    ensures c.UpdateRecord? ==> c.data == StripStamp(r) && r["id"] in idx && !SameContent(r, idx[r["id"]])
  {
    if c in CreateCalls(Unmatched(source, idx)) {
      CreateSource(source, idx, c);
      r := c.data;
    } else {
      r := UpdateSource(source, idx, c);
    }
  }

  /** The creates and updates of the difference agree per identifier when no two desired records share one. */
  lemma BatchWritesKeyed(source: seq<Record>, idx: map<Json, Record>)
    requires UniqueIds(source)
    ensures KeyedWrites(Writes(source, idx))
  {
    var writes := Writes(source, idx);
    forall c | c in writes ensures IsWrite(c) {
      var r := WriteSource(source, idx, c);
    }
    forall c1, c2 | c1 in writes && c2 in writes && Key(c1) == Key(c2) ensures c1 == c2 {
      var r1 := WriteSource(source, idx, c1);
      var r2 := WriteSource(source, idx, c2);
      SameIdSameRecord(source, r1, r2);
    }
  }

  /** The deletes of the difference name exactly the stored identifiers no desired record carries. */
  lemma DeletedIds(dest: seq<Record>, desired: map<Json, Record>)
    ensures forall c :: c in DeleteCalls(Unmatched(dest, desired)) ==> c.DeleteRecord?
    ensures (set c | c in DeleteCalls(Unmatched(dest, desired)) :: c.id) == Ids(dest) - desired.Keys
  {
    var toDelete := Unmatched(dest, desired);
    var deletes := DeleteCalls(toDelete);
    forall c | c in deletes ensures c.DeleteRecord? && c.id in Ids(dest) - desired.Keys {
      DeleteCallsMembers(toDelete, c);
    }
    forall id | id in Ids(dest) - desired.Keys ensures DeleteRecord(id) in deletes {
      var d :| d in dest && d["id"] == id;
      DeleteCallsMembers(toDelete, DeleteRecord(id));
    }
  }

  /** The deletes of the difference drop exactly the stored identifiers no desired record carries. */
  lemma BatchDeletes(dest: seq<Record>, desired: map<Json, Record>, mid: Collection, stamp: Json)
    ensures Apply(mid, DeleteCalls(Unmatched(dest, desired)), stamp) == mid - (Ids(dest) - desired.Keys)
  {
    DeletedIds(dest, desired);
    ApplyDeletes(mid, DeleteCalls(Unmatched(dest, desired)), stamp);
  }

  /** The batch is its writes, then its deletes. */
  lemma BatchSplit(changes: Changes, store: Collection, stamp: Json)
    ensures Apply(store, BatchCalls(changes), stamp)
      == Apply(Apply(store, CreateCalls(changes.toCreate) + UpdateCalls(changes.toUpdate), stamp), DeleteCalls(changes.toDelete), stamp)
  {
    ApplyAppend(store, CreateCalls(changes.toCreate) + UpdateCalls(changes.toUpdate), DeleteCalls(changes.toDelete), stamp);
  }

  /** The writes of the difference name only desired identifiers. */
  lemma WrittenDesired(source: seq<Record>, idx: map<Json, Record>)
    ensures WrittenIds(Writes(source, idx)) <= Ids(source)
  {
    var writes := Writes(source, idx);
    forall id | id in WrittenIds(writes) ensures id in Ids(source) {
      var c :| c in writes && IsWrite(c) && Key(c) == id;
      var r := WriteSource(source, idx, c);
    }
  }

  /** The writes of the difference name every desired identifier the store lacks. */
  lemma MissingWritten(source: seq<Record>, idx: map<Json, Record>)
    ensures Ids(source) - idx.Keys <= WrittenIds(Writes(source, idx))
  {
    var toCreate := Unmatched(source, idx);
    var writes := Writes(source, idx);
    forall id | id in Ids(source) - idx.Keys ensures id in WrittenIds(writes) {
      var r :| r in source && r["id"] == id;
      CreateCallsMembers(toCreate, CreateRecord(r));
      assert CreateRecord(r) in writes;
    }
  }

  /** After the batch for the difference, the store holds exactly the desired identifiers. */
  lemma ConvergedKeys(source: seq<Record>, dest: seq<Record>, stamp: Json)
    requires UniqueIds(source)
    ensures Apply(Index(dest), BatchCalls(CollectionDiff(source, dest)), stamp).Keys == Ids(source)
  {
    var changes := CollectionDiff(source, dest);
    var idx := Index(dest);
    var writes := Writes(source, idx);
    BatchSplit(changes, idx, stamp);
    BatchWritesKeyed(source, idx);
    ApplyWritesKeys(idx, writes, stamp);
    BatchDeletes(dest, Index(source), Apply(idx, writes, stamp), stamp);
    WrittenDesired(source, idx);
    MissingWritten(source, idx);
  }

  /** A stripped record keeps its content. */
  lemma StripKeepsContent(r: Record)
    ensures SameContent(r, StripStamp(r))
  {
    assert StripStamp(r) - {Stamp} == r - {Stamp};
  }

  /** A desired record the store lacks is written as it is. */
  lemma CreatedValue(source: seq<Record>, idx: map<Json, Record>, stamp: Json, r: Record)
    requires UniqueIds(source) && r in source && r["id"] !in idx
    ensures var mid := Apply(idx, Writes(source, idx), stamp);
      r["id"] in mid && SameContent(r, mid[r["id"]])
  {
    var toCreate := Unmatched(source, idx);
    var writes := Writes(source, idx);
    BatchWritesKeyed(source, idx);
    CreateCallsMembers(toCreate, CreateRecord(r));
    assert CreateRecord(r) in writes;
    ApplyWritesValues(idx, writes, stamp, CreateRecord(r));
  }

  /** A desired record the store holds with other content is written without its stamp. */
  lemma UpdatedValue(source: seq<Record>, idx: map<Json, Record>, stamp: Json, r: Record)
    requires UniqueIds(source) && r in source && r["id"] in idx && !SameContent(r, idx[r["id"]])
    ensures var mid := Apply(idx, Writes(source, idx), stamp);
      r["id"] in mid && SameContent(r, mid[r["id"]])
  {
    var toUpdate := Updates(source, idx);
    var writes := Writes(source, idx);
    BatchWritesKeyed(source, idx);
    assert (idx[r["id"]], r) in toUpdate;
    UpdateCallsMembers(toUpdate, UpdateRecord(StripStamp(r)));
    assert UpdateRecord(StripStamp(r)) in writes;
    ApplyWritesValues(idx, writes, stamp, UpdateRecord(StripStamp(r)));
    StripKeepsContent(r);
  }

  /** A desired record the store holds with the same content is not written. */
  lemma KeptValue(source: seq<Record>, idx: map<Json, Record>, stamp: Json, r: Record)
    requires UniqueIds(source) && r in source && r["id"] in idx && SameContent(r, idx[r["id"]])
    ensures var mid := Apply(idx, Writes(source, idx), stamp);
      r["id"] in mid && SameContent(r, mid[r["id"]])
  {
    var writes := Writes(source, idx);
    forall c | c in writes ensures Key(c) != r["id"] {
      var r' := WriteSource(source, idx, c);
      if Key(c) == r["id"] {
        SameIdSameRecord(source, r, r');
      }
    }
    assert Untouched(writes, r["id"]);
  }

  /** After the batch for the difference, a desired record is stored with its own content. */
  lemma ConvergedValues(source: seq<Record>, dest: seq<Record>, stamp: Json, r: Record)
    requires UniqueIds(source) && r in source
    ensures var after := Apply(Index(dest), BatchCalls(CollectionDiff(source, dest)), stamp);
      r["id"] in after && SameContent(r, after[r["id"]])
  {
    var changes := CollectionDiff(source, dest);
    var idx := Index(dest);
    var mid := Apply(idx, Writes(source, idx), stamp);
    BatchSplit(changes, idx, stamp);
    BatchDeletes(dest, Index(source), mid, stamp);
    if r["id"] !in idx {
      CreatedValue(source, idx, stamp, r);
    } else if !SameContent(r, idx[r["id"]]) {
      UpdatedValue(source, idx, stamp, r);
    } else {
      KeptValue(source, idx, stamp, r);
    }
  }

  /**
    Applying the batch for the difference to the store yields the desired
    records, up to revision stamps: the store holds exactly the desired
    identifiers, each with the desired content.
   */
  lemma BatchConverges(source: seq<Record>, dest: seq<Record>, stamp: Json)
    requires UniqueIds(source)
    ensures var after := Apply(Index(dest), BatchCalls(CollectionDiff(source, dest)), stamp);
      && after.Keys == Ids(source)
      && forall r :: r in source ==> SameContent(r, after[r["id"]])
  {
    ConvergedKeys(source, dest, stamp);
    forall r | r in source ensures SameContent(r, Apply(Index(dest), BatchCalls(CollectionDiff(source, dest)), stamp)[r["id"]]) {
      ConvergedValues(source, dest, stamp, r);
    }
  }

  /** Calls that neither write nor delete leave the store as it is. */
  lemma {:induction false} ApplyNoWrites(store: Collection, calls: seq<Call>, stamp: Json)
    requires forall c :: c in calls ==> !IsWrite(c) && !c.DeleteRecord?
    ensures Apply(store, calls, stamp) == store
    decreases |calls|
  {
    if calls != [] {
      var init := calls[..|calls| - 1];
      assert forall c :: c in init ==> c in calls;
      assert calls[|calls| - 1] in calls;
      ApplyNoWrites(store, init, stamp);
    }
  }

  /** A committed run with something to apply makes its batch calls, then only review calls. */
  lemma CommittedCalls(env: Env, source: seq<Record>, store: Behaviour) returns (tail: seq<Call>)
    requires store.records.Some? && store.batchOpens && store.batchCommits
    requires !CollectionDiff(source, store.records.value).IsEmpty()
    ensures SyncOutcome(env, source, store).calls == AppliedCalls(CollectionDiff(source, store.records.value)) + tail
    ensures forall c :: c in tail ==> c == RequestReview(ReviewMessage) || c == ApproveChanges
  {
    tail := CommittedChangesCalls(env, CollectionDiff(source, store.records.value), store);
  }

  /** The calls after the batch, for any difference; kept apart so that the proof does not unfold how the difference is computed. */
  lemma CommittedChangesCalls(env: Env, changes: Changes, store: Behaviour) returns (tail: seq<Call>)
    requires store.batchOpens && store.batchCommits && !changes.IsEmpty()
    ensures ChangesOutcome(env, changes, store).calls == AppliedCalls(changes) + tail
    ensures forall c :: c in tail ==> c == RequestReview(ReviewMessage) || c == ApproveChanges
  {
    if !store.reviewSucceeds || env != Dev {
      tail := [RequestReview(ReviewMessage)];
    } else {
      tail := [RequestReview(ReviewMessage), ApproveChanges];
    }
  }

  /** The calls around a batch leave the store as the batch leaves it. */
  lemma FramedBatch(store: Collection, batch: seq<Call>, tail: seq<Call>, stamp: Json)
    requires forall c :: c in tail ==> !IsWrite(c) && !c.DeleteRecord?
    ensures Apply(store, [GetRecords, OpenBatch] + batch + [CommitBatch] + tail, stamp) == Apply(store, batch, stamp)
  {
    var rest := [CommitBatch] + tail;
    assert [GetRecords, OpenBatch] + batch + [CommitBatch] + tail == [GetRecords, OpenBatch] + (batch + rest);
    ApplyAppend(store, [GetRecords, OpenBatch], batch + rest, stamp);
    ApplyNoWrites(store, [GetRecords, OpenBatch], stamp);
    ApplyAppend(store, batch, rest, stamp);
    ApplyNoWrites(Apply(store, batch, stamp), rest, stamp);
  }

  /** The calls of a committed run with something to apply do to the store what its batch does. */
  lemma CommittedRunApplies(env: Env, source: seq<Record>, store: Behaviour, stamp: Json)
    requires store.records.Some? && store.batchOpens && store.batchCommits
    requires !CollectionDiff(source, store.records.value).IsEmpty()
    ensures var dest := store.records.value;
      Apply(Index(dest), SyncOutcome(env, source, store).calls, stamp)
        == Apply(Index(dest), BatchCalls(CollectionDiff(source, dest)), stamp)
  {
    var tail := CommittedCalls(env, source, store);
    FramedBatch(Index(store.records.value), BatchCalls(CollectionDiff(source, store.records.value)), tail, stamp);
  }

  /** What the calls of a committed run do to the store is what its batch does. */
  lemma RunApplies(env: Env, source: seq<Record>, store: Behaviour, stamp: Json)
    requires store.records.Some? && store.batchOpens && store.batchCommits
    ensures var dest := store.records.value;
      Apply(Index(dest), SyncOutcome(env, source, store).calls, stamp)
        == Apply(Index(dest), BatchCalls(CollectionDiff(source, dest)), stamp)
  {
    var changes := CollectionDiff(source, store.records.value);
    if changes.IsEmpty() {
      NothingToDo(env, source, store);
      assert BatchCalls(changes) == [];
      ApplyNoWrites(Index(store.records.value), [GetRecords], stamp);
    } else {
      CommittedRunApplies(env, source, store, stamp);
    }
  }

  /**
    The round trip `sync_collection` exists for: once a committed run's calls
    have been applied, the store lists the desired records up to revision
    stamps, so the next run against that listing fetches and has nothing to do.
   */
  lemma SyncConverges(env: Env, source: seq<Record>, store: Behaviour, stamp: Json, listing: seq<Record>, next: Behaviour)
    requires store.records.Some? && store.batchOpens && store.batchCommits && UniqueIds(source)
    requires Index(listing) == Apply(Index(store.records.value), SyncOutcome(env, source, store).calls, stamp)
    requires next.records == Some(listing)
    ensures CollectionDiff(source, listing).IsEmpty()
    ensures SyncOutcome(env, source, next) == Outcome(0, [GetRecords])
  {
    RunApplies(env, source, store, stamp);
    BatchConverges(source, store.records.value, stamp);
    MatchesEmptyDiff(source, listing);
  }

  /**
    The limit of the round trip: when two desired records share an
    identifier but differ in content, no listing of the store matches both,
    so every run whose fetch succeeds makes calls beyond the fetch again.
   */
  lemma DuplicateIdsNeverConverge(env: Env, source: seq<Record>, r1: Record, r2: Record, next: Behaviour)
    requires r1 in source && r2 in source && r1["id"] == r2["id"] && !SameContent(r1, r2)
    requires next.records.Some?
    ensures !CollectionDiff(source, next.records.value).IsEmpty()
    ensures |SyncOutcome(env, source, next).calls| > 1
  {
    var listing := next.records.value;
    if CollectionDiff(source, listing).IsEmpty() {
      EmptyDiffMatches(source, listing);
      assert false;
    }
  }
}
