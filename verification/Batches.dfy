/** A run of event batches, each applied in batch order, against the same events
    in chain order. */
module Batches {
  import AbiCalls
  import opened Sidecar

  function AfterBatches(batches: seq<seq<Event>>): Index {
    if batches == [] then EMPTY
    else InBatchOrder(AfterBatches(batches[..|batches| - 1]), batches[|batches| - 1])
  }

  function Flatten(batches: seq<seq<Event>>): seq<Event> {
    if batches == [] then [] else Flatten(batches[..|batches| - 1]) + batches[|batches| - 1]
  }

  /** The data set's deletion flag comes out wrong: its last batch with a creation
      is misordered, and no later batch deletes it. */
  predicate Diverges(batches: seq<seq<Event>>, id: nat) {
    if batches == [] then false
    else
      match Summarize(batches[|batches| - 1], id)
      case Untouched(deletion) => !deletion && Diverges(batches[..|batches| - 1], id)
      case Recreated(_, before, after) => before && !after
  }

  ghost predicate NoneDiverges(batches: seq<seq<Event>>) {
    forall id: nat :: !Diverges(batches, id)
  }

  lemma {:induction false} ChainOrderJoin(s: Index, a: seq<Event>, b: seq<Event>)
    ensures InChainOrder(s, a + b) == InChainOrder(InChainOrder(s, a), b)
  {
    hide Apply;
    if b == [] {
      assert a + b == a;
    } else {
      var front := b[..|b| - 1];
      ChainOrderJoin(s, a, front);
      assert (a + b)[..|a + b| - 1] == a + front;
    }
  }

  /** What deletions leave alone does not depend on the data sets. */
  lemma {:induction false} RestFollows(s: Index, t: Index, es: seq<Event>)
    requires Rest(s) == Rest(t)
    ensures Rest(InChainOrder(s, es)) == Rest(InChainOrder(t, es))
  {
    if es != [] {
      RestFollows(s, t, es[..|es| - 1]);
    }
  }

  /** Rails, what they lead to and payers do not depend on the order inside batches. */
  lemma {:induction false} RestsAgree(batches: seq<seq<Event>>)
    ensures Rest(AfterBatches(batches)) == Rest(InChainOrder(EMPTY, Flatten(batches)))
  {
    hide InChainOrder, InBatchOrder, Rest;
    if batches == [] {
      NoEvents();
    } else {
      var front, last := batches[..|batches| - 1], batches[|batches| - 1];
      RestsAgree(front);
      SameRest(AfterBatches(front), last);
      RestFollows(AfterBatches(front), InChainOrder(EMPTY, Flatten(front)), last);
      ChainOrderJoin(EMPTY, Flatten(front), last);
    }
  }

  lemma NoEvents()
    ensures InChainOrder(EMPTY, []) == EMPTY
  {
  }

  /** The two orders differ on a data set at most in the deletion flag, and they
      do exactly when it diverges. */
  lemma {:induction false} OneDataset(batches: seq<seq<Event>>, id: nat)
    ensures var a, c := Find(AfterBatches(batches), id), Find(InChainOrder(EMPTY, Flatten(batches)), id);
            && (a == c <==> !Diverges(batches, id))
            && Marked(a, true) == Marked(c, true)
  {
    hide InChainOrder, InBatchOrder, Summarize, Find;
    if batches == [] {
      NoEvents();
    } else {
      var front, last := batches[..|batches| - 1], batches[|batches| - 1];
      OneDataset(front, id);
      BatchOrderOutcome(AfterBatches(front), last, id);
      ChainOrderJoin(EMPTY, Flatten(front), last);
      ChainOrderOutcome(InChainOrder(EMPTY, Flatten(front)), last, id);
    }
  }

  /** In chain order a data set that diverges is not deleted. */
  lemma {:induction false} DivergingIsLive(batches: seq<seq<Event>>, id: nat)
    requires Diverges(batches, id)
    ensures Find(InChainOrder(EMPTY, Flatten(batches)), id).Some?
    ensures !Find(InChainOrder(EMPTY, Flatten(batches)), id).value.deleted
  {
    hide InChainOrder, Summarize, Find;
    var front, last := batches[..|batches| - 1], batches[|batches| - 1];
    ChainOrderJoin(EMPTY, Flatten(front), last);
    ChainOrderOutcome(InChainOrder(EMPTY, Flatten(front)), last, id);
    if Summarize(last, id).Untouched? {
      DivergingIsLive(front, id);
    }
  }

  /** After any batches: the record of a data set holds the arguments of its last
      creation in chain order, and is deleted exactly when a deletion came after
      that or the data set diverges. */
  lemma RecordAfterBatches(batches: seq<seq<Event>>, i: nat, id: nat)
    requires LastCreation(Flatten(batches), i, id)
    ensures id in AfterBatches(batches).datasets
    ensures var d, c := AfterBatches(batches).datasets[id], Flatten(batches)[i].created;
            && d.dataSetId == id
            && d.providerId == c.providerId % 0x1_0000_0000_0000_0000
            && d.pdpRailId == c.pdpRailId % 0x1_0000_0000_0000_0000
            && d.payer == c.payer && d.serviceProvider == c.serviceProvider && d.payee == c.payee
            && (d.deleted <==> Diverges(batches, id) || exists j ::
                  i < j < |Flatten(batches)| && Deletes(Flatten(batches)[j], id))
  {
    hide AfterBatches, InChainOrder, Flatten, Diverges;
    OneDataset(batches, id);
    if Diverges(batches, id) {
      DivergingIsLive(batches, id);
    }
    RecordOfLastCreation(EMPTY, Flatten(batches), i, id);
    var a, c := Find(AfterBatches(batches), id), Find(InChainOrder(EMPTY, Flatten(batches)), id);
    assert c.Some? && a.Some?;
  }

  /** Applying every batch in batch order leaves exactly what applying all its
      events in chain order leaves, if and only if no data set diverges. */
  lemma BatchesAreChainOrder(batches: seq<seq<Event>>)
    ensures AfterBatches(batches) == InChainOrder(EMPTY, Flatten(batches)) <==> NoneDiverges(batches)
  {
    var a, c := AfterBatches(batches), InChainOrder(EMPTY, Flatten(batches));
    hide AfterBatches, InChainOrder, Flatten, Diverges;
    RestsAgree(batches);
    forall id: nat ensures Find(a, id) == Find(c, id) <==> !Diverges(batches, id) {
      OneDataset(batches, id);
    }
    if NoneDiverges(batches) {
      SameDatasets(a, c);
    }
  }

  // ------------------------------------------------------- creation before deletion

  lemma PartsInOrder(a: seq<Event>, b: seq<Event>, id: nat)
    requires CreatedBeforeDeleted(a + b, id)
    ensures CreatedBeforeDeleted(a, id) && CreatedBeforeDeleted(b, id)
  {
    var es := a + b;
    assert forall i :: 0 <= i < |a| ==> a[i] == es[i];
    assert forall i :: 0 <= i < |b| ==> b[i] == es[|a| + i];
  }

  lemma {:induction false} InOrderAgrees(batches: seq<seq<Event>>, id: nat)
    requires CreatedBeforeDeleted(Flatten(batches), id)
    ensures !Diverges(batches, id)
  {
    hide CreatedBeforeDeleted, Summarize;
    if batches != [] {
      var front, last := batches[..|batches| - 1], batches[|batches| - 1];
      PartsInOrder(Flatten(front), last, id);
      InOrderAgrees(front, id);
      CreatedFirst(last, id);
    }
  }

  /** A batch may be misordered and a later one set the flag right again. */
  lemma LaterBatchRepairs(c: AbiCalls.DataSetCreated, d: AbiCalls.DataSetDeleted) returns (batches: seq<seq<Event>>)
    requires Low64(c.dataSetId) == Low64(d.dataSetId)
    ensures |batches| == 2 && Misordered(batches[0], Low64(c.dataSetId)) && NoneDiverges(batches)
  {
    var created, deleted := Creation(c), Event.Deletion(d);
    batches := [[deleted, created], [deleted]];
    assert batches[..1] == [[deleted, created]] && batches[..1][..0] == [];
    forall id: nat ensures !Diverges(batches, id) {
      RepairSummaries(created, deleted, id);
      assert batches[|batches| - 1] == [deleted] && batches[..|batches| - 1] == [[deleted, created]];
      if id != Low64(c.dataSetId) {
        assert !Diverges([[deleted, created]][..0], id);
        assert !Diverges([[deleted, created]], id);
      }
    }
    RepairSummaries(created, deleted, Low64(c.dataSetId));
  }

  lemma RepairSummaries(created: Event, deleted: Event, id: nat)
    ensures Summarize([deleted], id) == SummaryStep(Untouched(false), deleted, id)
    ensures Summarize([deleted, created], id) == SummaryStep(Summarize([deleted], id), created, id)
  {
    assert [deleted][..0] == [] && [deleted, created][..1] == [deleted];
  }
}
