/**
  `sync_collection`: fetch the records the store holds, compute the
  difference with the desired records, apply it in one batch, then move the
  collection on to review (and, on the dev server, approve it). Every stage
  can fail; the procedure answers 0 on success and 1 on the first failure.

  The store client is abstract: how each stage turns out is fixed by a
  `Behaviour`, and the client records every call made on it in `trace`.
 */
module Sync {
  import opened Wrappers
  import opened Json
  import opened Records
  import opened Diff

  /** The server the job talks to. */
  datatype Env = Local | Dev | Stage | Prod

  /** The message the review request carries. */
  const ReviewMessage := "r?"

  /** A call on the store client or on its batch, as the client sees it. */
  datatype Call =
    | GetRecords                      // `client.get_records()`
    | OpenBatch                       // `client.batch()` entered by the `with` statement
    | CreateRecord(data: Record)      // `batch.create_record(data=...)`
    | UpdateRecord(data: Record)      // `batch.update_record(data=...)`
    | DeleteRecord(id: Json)          // `batch.delete_record(id=...)`
    | CommitBatch                     // leaving the `with` block, which sends the batch
    | RequestReview(message: string)  // `client.request_review(message=...)`
    | ApproveChanges                  // `client.approve_changes()`

  /**
    How the store answers: the records it holds, or `None` when fetching
    them raises a `KintoException`; whether the batch opens and whether
    sending it succeeds; whether the review request and the approval
    succeed. A `false` flag stands for a `KintoException` at that step.
   */
  datatype Behaviour = Behaviour(
    records: Option<seq<Record>>,
    batchOpens: bool,
    batchCommits: bool,
    reviewSucceeds: bool,
    approvalSucceeds: bool)

  /** The result code and the calls made, in order. */
  datatype Outcome = Outcome(code: int, calls: seq<Call>)

  /** The update payload: the desired record without the revision stamp. */
  function StripStamp(r: Record): (s: Record)
    ensures s.Keys == r.Keys - {Stamp}
    ensures forall k :: k in s ==> s[k] == r[k]
  {
    r - {Stamp}
  }

  /** One create call per record, in order. */
  function CreateCalls(records: seq<Record>): (calls: seq<Call>)
    ensures |calls| == |records|
    ensures forall i :: 0 <= i < |records| ==> calls[i] == CreateRecord(records[i])
    decreases |records|
  {
    if records == [] then []
    else CreateCalls(records[..|records| - 1]) + [CreateRecord(records[|records| - 1])]
  }

  /** One update call per pair, carrying the desired record without its revision stamp, in order. */
  function UpdateCalls(pairs: seq<(Record, Record)>): (calls: seq<Call>)
    ensures |calls| == |pairs|
    ensures forall i :: 0 <= i < |pairs| ==> calls[i] == UpdateRecord(StripStamp(pairs[i].1))
    decreases |pairs|
  {
    if pairs == [] then []
    else UpdateCalls(pairs[..|pairs| - 1]) + [UpdateRecord(StripStamp(pairs[|pairs| - 1].1))]
  }

  /** One delete call per record, carrying only its identifier, in order. */
  function DeleteCalls(records: seq<Record>): (calls: seq<Call>)
    ensures |calls| == |records|
    ensures forall i :: 0 <= i < |records| ==> calls[i] == DeleteRecord(records[i]["id"])
    decreases |records|
  {
    if records == [] then []
    else DeleteCalls(records[..|records| - 1]) + [DeleteRecord(records[|records| - 1]["id"])]
  }

  /** The calls inside the batch: every create, then every update, then every delete. */
  function BatchCalls(changes: Changes): (calls: seq<Call>)
    ensures |calls| == |changes.toCreate| + |changes.toUpdate| + |changes.toDelete|
    ensures forall c :: c in calls ==> c.CreateRecord? || c.UpdateRecord? || c.DeleteRecord?
  {
    CreateCalls(changes.toCreate) + UpdateCalls(changes.toUpdate) + DeleteCalls(changes.toDelete)
  }

  /** The calls from the fetch to the sending of the batch, when there is something to apply. */
  function AppliedCalls(changes: Changes): seq<Call>
  {
    [GetRecords, OpenBatch] + BatchCalls(changes) + [CommitBatch]
  }

  /** What `sync_collection` answers and which calls it makes, for an environment, the desired records and the store's behaviour. */
  function SyncOutcome(env: Env, source: seq<Record>, store: Behaviour): (o: Outcome)
    ensures o.code == 0 || o.code == 1
    ensures o.calls != [] && o.calls[0] == GetRecords
    ensures store.records.None? ==> o.code == 1 && |o.calls| == 1
  {
    match store.records
    case None => Outcome(1, [GetRecords])
    case Some(dest) => ChangesOutcome(env, CollectionDiff(source, dest), store)
  }

  /** What `sync_collection` answers and which calls it makes once the fetch has succeeded and the difference is `changes`. */
  function ChangesOutcome(env: Env, changes: Changes, store: Behaviour): (o: Outcome)
    ensures o.code == 0 || o.code == 1
    ensures o.calls != [] && o.calls[0] == GetRecords
    ensures |o.calls| == 1 <==> changes.IsEmpty()
    ensures changes.IsEmpty() ==> o.code == 0
  {
    if changes.IsEmpty() then Outcome(0, [GetRecords])
    else if !store.batchOpens then Outcome(1, [GetRecords, OpenBatch])
    else
      var applied := AppliedCalls(changes);
      if !store.batchCommits then Outcome(1, applied)
      else
        var reviewed := applied + [RequestReview(ReviewMessage)];
        if !store.reviewSucceeds then Outcome(1, reviewed)
        else if env != Dev then Outcome(0, reviewed)
        else Outcome(if store.approvalSucceeds then 0 else 1, reviewed + [ApproveChanges])
  }

  /** The store client: it answers as its behaviour says and keeps the calls made on it. */
  class Client {
    const behaviour: Behaviour
    var trace: seq<Call>

    constructor (behaviour: Behaviour)
      ensures this.behaviour == behaviour && trace == []
    {
      this.behaviour := behaviour;
      trace := [];
    }

    method GetRecords() returns (r: Option<seq<Record>>)
      modifies this
      ensures r == behaviour.records
      ensures trace == old(trace) + [Call.GetRecords]
    {
      trace := trace + [Call.GetRecords];
      r := behaviour.records;
    }

    method OpenBatch() returns (ok: bool)
      modifies this
      ensures ok == behaviour.batchOpens
      ensures trace == old(trace) + [Call.OpenBatch]
    {
      trace := trace + [Call.OpenBatch];
      ok := behaviour.batchOpens;
    }

    method CreateRecord(data: Record)
      modifies this
      ensures trace == old(trace) + [Call.CreateRecord(data)]
    {
      trace := trace + [Call.CreateRecord(data)];
    }

    method UpdateRecord(data: Record)
      modifies this
      ensures trace == old(trace) + [Call.UpdateRecord(data)]
    {
      trace := trace + [Call.UpdateRecord(data)];
    }

    method DeleteRecord(id: Json)
      modifies this
      ensures trace == old(trace) + [Call.DeleteRecord(id)]
    {
      trace := trace + [Call.DeleteRecord(id)];
    }

    method CommitBatch() returns (ok: bool)
      modifies this
      ensures ok == behaviour.batchCommits
      ensures trace == old(trace) + [Call.CommitBatch]
    {
      trace := trace + [Call.CommitBatch];
      ok := behaviour.batchCommits;
    }

    method RequestReview(message: string) returns (ok: bool)
      modifies this
      ensures ok == behaviour.reviewSucceeds
      ensures trace == old(trace) + [Call.RequestReview(message)]
    {
      trace := trace + [Call.RequestReview(message)];
      ok := behaviour.reviewSucceeds;
    }

    method ApproveChanges() returns (ok: bool)
      modifies this
      ensures ok == behaviour.approvalSucceeds
      ensures trace == old(trace) + [Call.ApproveChanges]
    {
      trace := trace + [Call.ApproveChanges];
      ok := behaviour.approvalSucceeds;
    }
  }

  /** The first loop of the batch: one create call per record to create. */
  method IssueCreates(client: Client, records: seq<Record>)
    modifies client
    ensures client.trace == old(client.trace) + CreateCalls(records)
  {
    ghost var start := client.trace;
    for i := 0 to |records|
      invariant client.trace == start + CreateCalls(records[..i])
    {
      assert records[..i + 1][..i] == records[..i];
      client.CreateRecord(records[i]);
    }
    assert records[..|records|] == records;
  }

  /** The second loop of the batch: one update call per pair, the revision stamp popped from the desired record. */
  method IssueUpdates(client: Client, pairs: seq<(Record, Record)>)
    modifies client
    ensures client.trace == old(client.trace) + UpdateCalls(pairs)
  {
    ghost var start := client.trace;
    for i := 0 to |pairs|
      invariant client.trace == start + UpdateCalls(pairs[..i])
    {
      assert pairs[..i + 1][..i] == pairs[..i];
      var (_, desired) := pairs[i];
      client.UpdateRecord(StripStamp(desired));
    }
    assert pairs[..|pairs|] == pairs;
  }

  /** The third loop of the batch: one delete call per record to delete, by identifier. */
  method IssueDeletes(client: Client, records: seq<Record>)
    modifies client
    ensures client.trace == old(client.trace) + DeleteCalls(records)
  {
    ghost var start := client.trace;
    for i := 0 to |records|
      invariant client.trace == start + DeleteCalls(records[..i])
    {
      assert records[..i + 1][..i] == records[..i];
      client.DeleteRecord(records[i]["id"]);
    }
    assert records[..|records|] == records;
  }

  /** The body of the `with` block: the three loops of the batch, then the sending of the batch as the block is left. */
  method SendBatch(client: Client, changes: Changes) returns (committed: bool)
    modifies client
    ensures committed == client.behaviour.batchCommits
    ensures client.trace == old(client.trace) + (BatchCalls(changes) + [CommitBatch])
  {
    ghost var start := client.trace;
    IssueCreates(client, changes.toCreate);
    IssueUpdates(client, changes.toUpdate);
    IssueDeletes(client, changes.toDelete);
    committed := client.CommitBatch();
    Regroup(start, CreateCalls(changes.toCreate), UpdateCalls(changes.toUpdate), DeleteCalls(changes.toDelete), [CommitBatch]);
  }

  /**
    The calls of the batch's stages, appended one after the other, form the
    batch. Kept apart: the same regrouping asserted inside `SendBatch` makes
    that proof several times more expensive.
   */
  lemma Regroup(before: seq<Call>, creates: seq<Call>, updates: seq<Call>, deletes: seq<Call>, tail: seq<Call>)
    ensures before + creates + updates + deletes + tail == before + (creates + updates + deletes + tail)
  {
  }

  /**
    `sync_collection`: the answer and the calls are those `SyncOutcome`
    describes, appended to whatever the client had seen before.
   */
  method SyncCollection(client: Client, env: Env, source: seq<Record>) returns (code: int)
    modifies client
    ensures code == SyncOutcome(env, source, client.behaviour).code
    ensures client.trace == old(client.trace) + SyncOutcome(env, source, client.behaviour).calls
  {
    ghost var before := client.trace;
    var fetched := client.GetRecords();
    if fetched.None? {
      return 1;
    }
    var changes := CollectionDiff(source, fetched.value);
    code := ApplyChanges(client, env, changes, before);
  }

  /**
    The rest of `sync_collection` once the records are fetched: nothing to
    do, or the batch, then the review request and, on dev, the approval.
   */
  method ApplyChanges(client: Client, env: Env, changes: Changes, ghost before: seq<Call>) returns (code: int)
    requires client.trace == before + [GetRecords]
    modifies client
    ensures code == ChangesOutcome(env, changes, client.behaviour).code
    ensures client.trace == before + ChangesOutcome(env, changes, client.behaviour).calls
  {
    if changes.toCreate == [] && changes.toUpdate == [] && changes.toDelete == [] {
      return 0;
    }
    var entered := client.OpenBatch();
    if !entered {
      return 1;
    }
    assert client.trace == before + [GetRecords, OpenBatch];
    var committed := SendBatch(client, changes);
    ghost var applied := AppliedCalls(changes);
    assert client.trace == before + applied by {
      assert applied == [GetRecords, OpenBatch] + (BatchCalls(changes) + [CommitBatch]);
    }
    if !committed {
      return 1;
    }
    var reviewed := client.RequestReview(ReviewMessage);
    assert client.trace == before + (applied + [RequestReview(ReviewMessage)]);
    if !reviewed {
      return 1;
    }
    if env == Dev {
      var approved := client.ApproveChanges();
      assert client.trace == before + (applied + [RequestReview(ReviewMessage)] + [ApproveChanges]);
      if !approved {
        return 1;
      }
    }
    return 0;
  }

  // ---------------------------------------------------------------------------
  // Properties of the procedure

  /** The answer is 0 or 1, and 0 exactly when nothing was to be done or every stage succeeded. */
  lemma ResultCode(env: Env, source: seq<Record>, store: Behaviour)
    ensures var o := SyncOutcome(env, source, store);
      && (o.code == 0 || o.code == 1)
      && (o.code == 0 <==>
            store.records.Some?
            && (CollectionDiff(source, store.records.value).IsEmpty()
                || (store.batchOpens && store.batchCommits && store.reviewSucceeds
                    && (env == Dev ==> store.approvalSucceeds))))
  {
  }

  /** When the fetch fails or nothing differs, the only call is the fetch: no batch, no review, no approval. */
  lemma NothingToDo(env: Env, source: seq<Record>, store: Behaviour)
    requires store.records.None? || CollectionDiff(source, store.records.value).IsEmpty()
    ensures SyncOutcome(env, source, store).calls == [GetRecords]
    ensures SyncOutcome(env, source, store).code == (if store.records.None? then 1 else 0)
  {
  }

  /** The stage a call belongs to; calls are made in increasing stage order. */
  function Stage(c: Call): nat
  {
    match c
    case GetRecords => 0
    case OpenBatch => 1
    case CreateRecord(_) => 2
    case UpdateRecord(_) => 3
    case DeleteRecord(_) => 4
    case CommitBatch => 5
    case RequestReview(_) => 6
    case ApproveChanges => 7
  }

  /** No call of a later stage comes before a call of an earlier one. */
  predicate InStageOrder(calls: seq<Call>)
  {
    forall i, j :: 0 <= i < j < |calls| ==> Stage(calls[i]) <= Stage(calls[j])
  }

  /** Calls in stage order, all of stages between `lo` and `hi`. */
  predicate Staged(calls: seq<Call>, lo: nat, hi: nat)
  {
    InStageOrder(calls) && forall c :: c in calls ==> lo <= Stage(c) <= hi
  }

  /** Two runs of calls in stage order, the first of no later stage than the second, stay in order when joined. */
  lemma JoinStaged(a: seq<Call>, b: seq<Call>, lo: nat, mid: nat, hi: nat)
    requires lo <= mid <= hi && Staged(a, lo, mid) && Staged(b, mid, hi)
    ensures Staged(a + b, lo, hi)
  {
    var ab := a + b;
    assert forall c :: c in ab ==> c in a || c in b;
    forall i, j | 0 <= i < j < |ab| ensures Stage(ab[i]) <= Stage(ab[j]) {
      if j < |a| {
        assert ab[i] == a[i] && ab[j] == a[j];
      } else if i >= |a| {
        assert ab[i] == b[i - |a|] && ab[j] == b[j - |a|];
      } else {
        assert ab[i] == a[i] && ab[j] == b[j - |a|];
        assert ab[i] in a && ab[j] in b;
      }
    }
  }

  /** Calls all of one stage are in stage order. */
  lemma OneStage(calls: seq<Call>, stage: nat)
    requires forall c :: c in calls ==> Stage(c) == stage
    ensures Staged(calls, stage, stage)
  {
    forall i, j | 0 <= i < j < |calls| ensures Stage(calls[i]) <= Stage(calls[j]) {
      assert calls[i] in calls && calls[j] in calls;
    }
  }

  /** The batch issues every create, then every update, then every delete. */
  lemma BatchInStageOrder(changes: Changes)
    ensures Staged(BatchCalls(changes), 2, 4)
  {
    var creates := CreateCalls(changes.toCreate);
    var updates := UpdateCalls(changes.toUpdate);
    var deletes := DeleteCalls(changes.toDelete);
    OneStage(creates, 2);
    OneStage(updates, 3);
    OneStage(deletes, 4);
    JoinStaged(creates, updates, 2, 2, 3);
    JoinStaged(creates + updates, deletes, 2, 3, 4);
  }

  /** Up to the sending of the batch, calls are in stage order. */
  lemma AppliedInStageOrder(changes: Changes)
    ensures Staged(AppliedCalls(changes), 0, 5)
  {
    var batch := BatchCalls(changes);
    BatchInStageOrder(changes);
    OneStage([GetRecords], 0);
    OneStage([OpenBatch], 1);
    JoinStaged([GetRecords], [OpenBatch], 0, 1, 1);
    assert [GetRecords] + [OpenBatch] == [GetRecords, OpenBatch];
    JoinStaged([GetRecords, OpenBatch], batch, 0, 2, 4);
    OneStage([CommitBatch], 5);
    JoinStaged([GetRecords, OpenBatch] + batch, [CommitBatch], 0, 5, 5);
  }

  /** A single call is in stage order. */
  lemma Single(c: Call)
    ensures Staged([c], Stage(c), Stage(c))
  {
  }

  /** After the batch, the review request and then the approval keep the calls in stage order. */
  lemma ReviewInStageOrder(applied: seq<Call>)
    requires Staged(applied, 0, 5)
    ensures Staged(applied + [RequestReview(ReviewMessage)], 0, 6)
    ensures Staged(applied + [RequestReview(ReviewMessage)] + [ApproveChanges], 0, 7)
  {
    Single(RequestReview(ReviewMessage));
    JoinStaged(applied, [RequestReview(ReviewMessage)], 0, 6, 6);
    Single(ApproveChanges);
    JoinStaged(applied + [RequestReview(ReviewMessage)], [ApproveChanges], 0, 7, 7);
  }

  /**
    Calls are made in stage order: the fetch, the batch opening, the creates,
    the updates, the deletes, the batch sending, the review request, the
    approval.
   */
  lemma CallsInStageOrder(env: Env, source: seq<Record>, store: Behaviour)
    ensures InStageOrder(SyncOutcome(env, source, store).calls)
  {
    if store.records.Some? && !CollectionDiff(source, store.records.value).IsEmpty() && store.batchOpens {
      var changes := CollectionDiff(source, store.records.value);
      AppliedInStageOrder(changes);
      ReviewInStageOrder(AppliedCalls(changes));
    } else {
      Single(GetRecords);
      Single(OpenBatch);
      JoinStaged([GetRecords], [OpenBatch], 0, 1, 1);
      assert [GetRecords] + [OpenBatch] == [GetRecords, OpenBatch];
    }
  }

  /** Up to the sending of the batch, there is no review request and no approval. */
  lemma NoReviewInBatch(changes: Changes)
    ensures forall m :: RequestReview(m) !in AppliedCalls(changes)
    ensures ApproveChanges !in AppliedCalls(changes)
  {
    AppliedInStageOrder(changes);
  }

  /** The review request is made exactly when the batch was sent; the approval exactly when, on dev, the review request succeeded too. */
  lemma ReviewCalls(env: Env, source: seq<Record>, store: Behaviour)
    ensures var o := SyncOutcome(env, source, store);
      var sent := store.records.Some? && !CollectionDiff(source, store.records.value).IsEmpty()
                  && store.batchOpens && store.batchCommits;
      && (RequestReview(ReviewMessage) in o.calls <==> sent)
      && (ApproveChanges in o.calls <==> sent && store.reviewSucceeds && env == Dev)
      && (forall m :: RequestReview(m) in o.calls ==> m == ReviewMessage)
  {
    if store.records.Some? {
      ChangesReviewCalls(env, CollectionDiff(source, store.records.value), store);
    }
  }

  /** The review calls once the fetch has succeeded, for any difference; kept apart so that the proof does not unfold how the difference is computed. */
  lemma ChangesReviewCalls(env: Env, changes: Changes, store: Behaviour)
    ensures var o := ChangesOutcome(env, changes, store);
      var sent := !changes.IsEmpty() && store.batchOpens && store.batchCommits;
      && (RequestReview(ReviewMessage) in o.calls <==> sent)
      && (ApproveChanges in o.calls <==> sent && store.reviewSucceeds && env == Dev)
      && (forall m :: RequestReview(m) in o.calls ==> m == ReviewMessage)
  {
    if !changes.IsEmpty() && store.batchOpens {
      var applied := AppliedCalls(changes);
      NoReviewInBatch(changes);
      assert forall c :: c in applied + [RequestReview(ReviewMessage)] ==> c in applied || c == RequestReview(ReviewMessage);
      assert forall c :: c in applied + [RequestReview(ReviewMessage)] + [ApproveChanges] ==>
                           c in applied || c == RequestReview(ReviewMessage) || c == ApproveChanges;
    }
  }

  /** The creates of the batch: one per record, carrying it. */
  lemma CreateCallsMembers(records: seq<Record>, c: Call)
    ensures c in CreateCalls(records) <==> c.CreateRecord? && c.data in records
  {
    var calls := CreateCalls(records);
    if c.CreateRecord? && c.data in records {
      var i :| 0 <= i < |records| && records[i] == c.data;
      assert calls[i] == c;
    }
  }

  /** The updates of the batch: one per pair, carrying the desired record without its stamp. */
  lemma UpdateCallsMembers(pairs: seq<(Record, Record)>, c: Call)
    ensures c in UpdateCalls(pairs) <==> c.UpdateRecord? && exists p :: p in pairs && c.data == StripStamp(p.1)
  {
    var calls := UpdateCalls(pairs);
    if c.UpdateRecord? && exists p :: p in pairs && c.data == StripStamp(p.1) {
      var p :| p in pairs && c.data == StripStamp(p.1);
      var i :| 0 <= i < |pairs| && pairs[i] == p;
      assert calls[i] == c;
    }
    if c in calls {
      var i :| 0 <= i < |calls| && calls[i] == c;
      assert pairs[i] in pairs;
    }
  }

  /** The deletes of the batch: one per record, carrying its identifier only. */
  lemma DeleteCallsMembers(records: seq<Record>, c: Call)
    ensures c in DeleteCalls(records) <==> c.DeleteRecord? && exists d :: d in records && c.id == d["id"]
  {
    var calls := DeleteCalls(records);
    if c.DeleteRecord? && exists d :: d in records && c.id == d["id"] {
      var d :| d in records && c.id == d["id"];
      var i :| 0 <= i < |records| && records[i] == d;
      assert calls[i] == c;
    }
    if c in calls {
      var i :| 0 <= i < |calls| && calls[i] == c;
      assert records[i] in records;
    }
  }

  /** The batch holds a create per record to create, an update per pair and a delete per record to delete, and nothing else. */
  lemma BatchCallsMembers(changes: Changes, c: Call)
    ensures c in BatchCalls(changes) <==>
              || (c.CreateRecord? && c.data in changes.toCreate)
              || (c.UpdateRecord? && exists p :: p in changes.toUpdate && c.data == StripStamp(p.1))
              || (c.DeleteRecord? && exists d :: d in changes.toDelete && c.id == d["id"])
  {
    CreateCallsMembers(changes.toCreate, c);
    UpdateCallsMembers(changes.toUpdate, c);
    DeleteCallsMembers(changes.toDelete, c);
  }

  /** Among the calls up to the sending of the batch, and after it, the calls of the batch's stages are those of the batch. */
  lemma BatchOfApplied(changes: Changes, c: Call)
    requires 2 <= Stage(c) <= 4
    ensures var applied := AppliedCalls(changes);
      && (c in applied <==> c in BatchCalls(changes))
      && (c in applied + [RequestReview(ReviewMessage)] <==> c in BatchCalls(changes))
      && (c in applied + [RequestReview(ReviewMessage)] + [ApproveChanges] <==> c in BatchCalls(changes))
  {
    var applied := AppliedCalls(changes);
    assert c in applied <==> c in BatchCalls(changes);
  }

  /** The batch calls the procedure makes are exactly those of the batch for the difference, once the batch is open. */
  lemma BatchOfOutcome(env: Env, source: seq<Record>, store: Behaviour, c: Call)
    requires 2 <= Stage(c) <= 4
    ensures c in SyncOutcome(env, source, store).calls <==>
              && store.records.Some? && !CollectionDiff(source, store.records.value).IsEmpty() && store.batchOpens
              && c in BatchCalls(CollectionDiff(source, store.records.value))
  {
    if store.records.Some? && !CollectionDiff(source, store.records.value).IsEmpty() && store.batchOpens {
      BatchOfApplied(CollectionDiff(source, store.records.value), c);
    }
  }

  /**
    What the batch sends: every create carries a desired record the store
    lacks; every update carries a desired record, without its revision stamp,
    whose identifier the store holds with other content; every delete carries
    only the identifier of a stored record no desired record has.
   */
  lemma BatchPayloads(env: Env, source: seq<Record>, store: Behaviour, c: Call)
    requires store.records.Some? && UniqueIds(store.records.value)
    requires c in SyncOutcome(env, source, store).calls
    ensures var dest := store.records.value;
      && (c.CreateRecord? ==> c.data in source && c.data["id"] !in Ids(dest))
      && (c.UpdateRecord? ==>
            && Stamp !in c.data
            && exists r, d :: r in source && d in dest && d["id"] == r["id"] && !SameContent(r, d) && c.data == StripStamp(r))
      && (c.DeleteRecord? ==> exists d :: d in dest && d["id"] !in Ids(source) && c.id == d["id"])
  {
    var dest := store.records.value;
    var changes := CollectionDiff(source, dest);
    if 2 <= Stage(c) <= 4 {
      BatchOfOutcome(env, source, store, c);
      BatchCallsMembers(changes, c);
      if c.UpdateRecord? {
        var p :| p in changes.toUpdate && c.data == StripStamp(p.1);
        assert p.1 in source && p.0 in dest && p.0["id"] == p.1["id"] && !SameContent(p.1, p.0);
      }
    }
  }

  /** A call of the batch for the difference is made once the batch is open. */
  lemma BatchCallMade(env: Env, source: seq<Record>, store: Behaviour, c: Call)
    requires store.records.Some? && store.batchOpens
    requires c in BatchCalls(CollectionDiff(source, store.records.value))
    ensures c in SyncOutcome(env, source, store).calls
  {
    var changes := CollectionDiff(source, store.records.value);
    assert !changes.IsEmpty() by {
      BatchCallsMembers(changes, c);
    }
    BatchCallsMembers(changes, c);
    BatchOfOutcome(env, source, store, c);
  }

  /**
    Once the batch is open, it creates every desired record the store lacks,
    updates every desired record the store holds with other content, and
    deletes every stored record no desired record names.
   */
  lemma BatchComplete(env: Env, source: seq<Record>, store: Behaviour)
    requires store.records.Some? && UniqueIds(store.records.value) && store.batchOpens
    ensures var dest := store.records.value;
      var calls := SyncOutcome(env, source, store).calls;
      && (forall r :: r in source && r["id"] !in Ids(dest) ==> CreateRecord(r) in calls)
      && (forall r, d :: r in source && d in dest && d["id"] == r["id"] && !SameContent(r, d) ==>
            UpdateRecord(StripStamp(r)) in calls)
      && (forall d :: d in dest && d["id"] !in Ids(source) ==> DeleteRecord(d["id"]) in calls)
  {
    var dest := store.records.value;
    var changes := CollectionDiff(source, dest);
    forall r | r in source && r["id"] !in Ids(dest)
      ensures CreateRecord(r) in SyncOutcome(env, source, store).calls
    {
      CreateCallsMembers(changes.toCreate, CreateRecord(r));
      BatchCallMade(env, source, store, CreateRecord(r));
    }
    forall r, d | r in source && d in dest && d["id"] == r["id"] && !SameContent(r, d)
      ensures UpdateRecord(StripStamp(r)) in SyncOutcome(env, source, store).calls
    {
      IndexUnique(dest, d);
      assert (d, r) in changes.toUpdate;
      UpdateCallsMembers(changes.toUpdate, UpdateRecord(StripStamp(r)));
      BatchCallMade(env, source, store, UpdateRecord(StripStamp(r)));
    }
    forall d | d in dest && d["id"] !in Ids(source)
      ensures DeleteRecord(d["id"]) in SyncOutcome(env, source, store).calls
    {
      DeleteCallsMembers(changes.toDelete, DeleteRecord(d["id"]));
      BatchCallMade(env, source, store, DeleteRecord(d["id"]));
    }
  }
}
