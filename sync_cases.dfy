/**
  The scenarios the repository's tests give `sync_collection`, stated on the
  model: a store that answers with some records and a list of desired
  records, and what the run answers and calls.
 */
module SyncCases {
  import opened Wrappers
  import opened Json
  import opened Records
  import opened Diff
  import opened Sync

  /** A record with an identifier and one data field. */
  function Rec(id: string, data: string): (r: Record)
    ensures r["id"] == JString(id)
  {
    map["id" := JString(id), "data" := JString(data)]
  }

  /** A store that lists `records` and accepts every later call. */
  function Answering(records: seq<Record>): (b: Behaviour)
    ensures b.records == Some(records) && b.batchOpens && b.batchCommits && b.reviewSucceeds && b.approvalSucceeds
  {
    Behaviour(Some(records), true, true, true, true)
  }

  /** Nothing to create: the only desired record is absent from nothing. */
  lemma NoStoredRecords(r: Record)
    ensures CollectionDiff([r], []) == Changes([r], [], [])
  {
    assert [r][..0] == [];
  }

  /** The store already holds the desired record: the run answers 0 and asks for no review. */
  lemma NoChangesCase()
    ensures SyncOutcome(Local, [Rec("test-1", "foo")], Answering([Rec("test-1", "foo")])) == Outcome(0, [GetRecords])
  {
    SelfDiffEmpty([Rec("test-1", "foo")]);
  }

  /** The store is empty: the record is created, then a review is requested. */
  lemma CreatesCase()
    ensures SyncOutcome(Local, [Rec("test-1", "foo")], Answering([]))
      == Outcome(0, [GetRecords, OpenBatch, CreateRecord(Rec("test-1", "foo")), CommitBatch, RequestReview(ReviewMessage)])
  {
    var r := Rec("test-1", "foo");
    NoStoredRecords(r);
    OneCreate(r);
  }

  /** The calls up to the sending of a batch that creates one record. */
  lemma OneCreate(r: Record)
    ensures AppliedCalls(Changes([r], [], [])) == [GetRecords, OpenBatch, CreateRecord(r), CommitBatch]
  {
    assert BatchCalls(Changes([r], [], [])) == [CreateRecord(r)];
  }

  /** A desired record stored with other content is the one update. */
  lemma OneUpdate(stored: Record, desired: Record)
    requires stored["id"] == desired["id"] && !SameContent(desired, stored)
    ensures CollectionDiff([desired], [stored]) == Changes([], [(stored, desired)], [])
  {
    assert [desired][..0] == [] && [stored][..0] == [];
  }

  /** A stored record nobody desires is the one delete. */
  lemma OneDelete(stored: Record)
    ensures CollectionDiff([], [stored]) == Changes([], [], [stored])
  {
    assert [stored][..0] == [];
  }

  /** The store holds other data under the identifier: one update, whose payload has no revision stamp. */
  lemma UpdatesCase()
    ensures var stored := Rec("test-1", "old")[Stamp := JNumber("123")];
      var desired := Rec("test-1", "new");
      && SyncOutcome(Local, [desired], Answering([stored]))
           == Outcome(0, [GetRecords, OpenBatch, UpdateRecord(desired), CommitBatch, RequestReview(ReviewMessage)])
      && Stamp !in desired
  {
    var stored := Rec("test-1", "old")[Stamp := JNumber("123")];
    var desired := Rec("test-1", "new");
    assert (stored - {Stamp})["data"] == JString("old");
    OneUpdate(stored, desired);
    assert StripStamp(desired) == desired;
    OneUpdateCalls(stored, desired);
    assert SyncOutcome(Local, [desired], Answering([stored])) == ChangesOutcome(Local, Changes([], [(stored, desired)], []), Answering([stored]));
  }

  /** The calls up to the sending of a batch that updates one record. */
  lemma OneUpdateCalls(stored: Record, desired: Record)
    ensures AppliedCalls(Changes([], [(stored, desired)], [])) == [GetRecords, OpenBatch, UpdateRecord(StripStamp(desired)), CommitBatch]
  {
    assert BatchCalls(Changes([], [(stored, desired)], [])) == [UpdateRecord(StripStamp(desired))];
  }

  /** Nothing is desired any more: the stored record is deleted by its identifier alone. */
  lemma DeletesCase()
    ensures SyncOutcome(Local, [], Answering([Rec("test-1", "foo")]))
      == Outcome(0, [GetRecords, OpenBatch, DeleteRecord(JString("test-1")), CommitBatch, RequestReview(ReviewMessage)])
  {
    var stored := Rec("test-1", "foo");
    OneDelete(stored);
    assert BatchCalls(Changes([], [], [stored])) == [DeleteRecord(JString("test-1"))];
  }

  /** On dev the run approves its own changes after requesting the review. */
  lemma DevApproveCase()
    ensures SyncOutcome(Dev, [Rec("test-1", "foo")], Answering([]))
      == Outcome(0, [GetRecords, OpenBatch, CreateRecord(Rec("test-1", "foo")), CommitBatch, RequestReview(ReviewMessage), ApproveChanges])
  {
    NoStoredRecords(Rec("test-1", "foo"));
    OneCreate(Rec("test-1", "foo"));
  }

  /** The records cannot be fetched: the run answers 1 and calls nothing else. */
  lemma FetchErrorCase()
    ensures SyncOutcome(Local, [], Behaviour(None, true, true, true, true)) == Outcome(1, [GetRecords])
  {
  }

  /** The batch cannot be opened: the run answers 1 and asks for no review. */
  lemma BatchErrorCase()
    ensures SyncOutcome(Local, [Rec("test-1", "foo")], Behaviour(Some([]), false, true, true, true)) == Outcome(1, [GetRecords, OpenBatch])
  {
    NoStoredRecords(Rec("test-1", "foo"));
  }

  /** The review request fails: the run answers 1 after the batch. */
  lemma ReviewErrorCase()
    ensures SyncOutcome(Local, [Rec("test-1", "foo")], Behaviour(Some([]), true, true, false, true))
      == Outcome(1, [GetRecords, OpenBatch, CreateRecord(Rec("test-1", "foo")), CommitBatch, RequestReview(ReviewMessage)])
  {
    NoStoredRecords(Rec("test-1", "foo"));
    OneCreate(Rec("test-1", "foo"));
  }

  /** A run of the method against an empty store on dev: it answers 0 and its client saw the create, the review and the approval. */
  method DevRun() returns (code: int, trace: seq<Call>)
    ensures code == 0
    ensures trace == [GetRecords, OpenBatch, CreateRecord(Rec("test-1", "foo")), CommitBatch, RequestReview(ReviewMessage), ApproveChanges]
  {
    var client := new Client(Answering([]));
    DevApproveCase();
    code := SyncCollection(client, Dev, [Rec("test-1", "foo")]);
    trace := client.trace;
  }
}
