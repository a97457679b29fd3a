/** The FOC sidecar: its in-memory index of chain events (state.go), the batch
    order in which a window's events are applied, and the polling windows
    (main.go). */
module Sidecar {
  import opened Bytes
  import opened AbiCalls

  datatype Dataset = Dataset(
    dataSetId: nat, providerId: nat, pdpRailId: nat, payer: bytes, serviceProvider: bytes, payee: bytes, deleted: bool,
    lastSeenChallengeEpoch: nat, lastSeenProvenEpoch: nat, challengeEpochStale: nat)

  datatype Rail = Rail(railId: nat, token: bytes, from: bytes, to: bytes)

  /** The index without the proving counters. */
  datatype Index = Index(
    datasets: map<nat, Dataset>, rails: map<nat, Rail>, railToDataset: map<nat, nat>, payers: seq<bytes>)

  const EMPTY := Index(map[], map[], map[], [])

  datatype Event =
    | Creation(created: DataSetCreated)
    | Deletion(deleted: DataSetDeleted)
    | RailCreation(rail: RailCreated)

  /** big.Int's Uint64: the low 64 bits. */
  function Low64(n: nat): nat {
    n % TWO_64
  }

  function NewDataset(e: DataSetCreated, deleted: bool): Dataset {
    Dataset(Low64(e.dataSetId), Low64(e.providerId), Low64(e.pdpRailId), e.payer, e.serviceProvider, e.payee, deleted,
            0, 0, 0)
  }

  // ---------------------------------------------------------------- single events

  function AddDataset(s: Index, e: DataSetCreated): Index {
    Index(
      s.datasets[Low64(e.dataSetId) := NewDataset(e, false)],
      s.rails,
      s.railToDataset[Low64(e.pdpRailId) := Low64(e.dataSetId)],
      if e.payer in s.payers then s.payers else s.payers + [e.payer])
  }

  function MarkDeleted(s: Index, id: nat): Index {
    if id in s.datasets then s.(datasets := s.datasets[id := s.datasets[id].(deleted := true)]) else s
  }

  function AddRail(s: Index, e: RailCreated): Index {
    s.(rails := s.rails[Low64(e.railId) := Rail(Low64(e.railId), e.token, e.from, e.to)])
  }

  function Apply(s: Index, e: Event): Index {
    match e
    case Creation(c) => AddDataset(s, c)
    case Deletion(d) => MarkDeleted(s, Low64(d.dataSetId))
    case RailCreation(r) => AddRail(s, r)
  }

  /** Events one by one, in chain order. */
  function InChainOrder(s: Index, es: seq<Event>): Index {
    if es == [] then s else Apply(InChainOrder(s, es[..|es| - 1]), es[|es| - 1])
  }

  predicate IsCreation(e: Event) { e.Creation? }
  predicate IsDeletion(e: Event) { e.Deletion? }
  predicate IsRail(e: Event) { e.RailCreation? }

  function Select(es: seq<Event>, p: Event -> bool): seq<Event> {
    if es == [] then []
    else Select(es[..|es| - 1], p) + (if p(es[|es| - 1]) then [es[|es| - 1]] else [])
  }

  /** As pollEvents applies one window: creations, then deletions, then rails. */
  function InBatchOrder(s: Index, es: seq<Event>): Index {
    var created := InChainOrder(s, Select(es, IsCreation));
    var deleted := InChainOrder(created, Select(es, IsDeletion));
    InChainOrder(deleted, Select(es, IsRail))
  }

  // --------------------------------------- what the two orders do to one data set

  /** What a window's events say about one data set: whether it is deleted, or
      its last creation and whether a deletion came before and after that. */
  datatype Summary =
    | Untouched(deletion: bool)
    | Recreated(last: DataSetCreated, before: bool, after: bool)

  function SummaryStep(sum: Summary, e: Event, id: nat): Summary {
    match e
    case Creation(c) =>
      if Low64(c.dataSetId) != id then sum
      else if sum.Untouched? then Recreated(c, sum.deletion, false)
      else Recreated(c, sum.before || sum.after, false)
    case Deletion(d) =>
      if Low64(d.dataSetId) != id then sum
      else if sum.Untouched? then Untouched(true)
      else sum.(after := true)
    case RailCreation(_) => sum
  }

  function Summarize(es: seq<Event>, id: nat): Summary {
    if es == [] then Untouched(false) else SummaryStep(Summarize(es[..|es| - 1], id), es[|es| - 1], id)
  }

  /** In the window the data set is deleted before its last creation and not after. */
  predicate Misordered(es: seq<Event>, id: nat) {
    var sum := Summarize(es, id);
    sum.Recreated? && sum.before && !sum.after
  }

  function Find(s: Index, id: nat): Option<Dataset> {
    if id in s.datasets then Some(s.datasets[id]) else None
  }

  function Marked(d: Option<Dataset>, deletion: bool): Option<Dataset> {
    if d.Some? && deletion then Some(d.value.(deleted := true)) else d
  }

  lemma {:induction false} ChainOrderOutcome(s: Index, es: seq<Event>, id: nat)
    ensures Find(InChainOrder(s, es), id) ==
            match Summarize(es, id)
            case Untouched(deletion) => Marked(Find(s, id), deletion)
            case Recreated(last, _, after) => Some(NewDataset(last, after))
  {
    if es != [] {
      ChainOrderOutcome(s, es[..|es| - 1], id);
    }
  }

  /** The recursive functions on a list with one more event. */
  lemma OneMore(s: Index, es: seq<Event>, e: Event, id: nat)
    ensures Summarize(es + [e], id) == SummaryStep(Summarize(es, id), e, id)
    ensures InChainOrder(s, es + [e]) == Apply(InChainOrder(s, es), e)
  {
    assert (es + [e])[..|es|] == es;
  }

  /** The summary of the creations alone and of the deletions alone, next to the
      summary of all events. */
  predicate PartsAgree(sum: Summary, created: Summary, deleted: Summary) {
    && deleted == Untouched(if sum.Untouched? then sum.deletion else sum.before || sum.after)
    && created == if sum.Untouched? then Untouched(false) else Recreated(sum.last, false, false)
  }

  lemma PartsStep(sum: Summary, created: Summary, deleted: Summary, e: Event, id: nat)
    requires PartsAgree(sum, created, deleted)
    ensures PartsAgree(SummaryStep(sum, e, id),
                       if e.Creation? then SummaryStep(created, e, id) else created,
                       if e.Deletion? then SummaryStep(deleted, e, id) else deleted)
  {
  }

  lemma NoParts(id: nat)
    ensures Select([], IsCreation) == Select([], IsDeletion) == []
    ensures Summarize([], id) == Untouched(false)
    ensures PartsAgree(Summarize([], id), Summarize([], id), Summarize([], id))
  {
  }

  lemma {:induction false} SummarizeParts(es: seq<Event>, id: nat)
    ensures PartsAgree(Summarize(es, id), Summarize(Select(es, IsCreation), id), Summarize(Select(es, IsDeletion), id))
  {
    hide Summarize, Select, SummaryStep, PartsAgree, InChainOrder, Apply;
    if es == [] {
      NoParts(id);
    } else {
      var front, e := es[..|es| - 1], es[|es| - 1];
      var cs, ds := Select(front, IsCreation), Select(front, IsDeletion);
      SummarizeParts(front, id);
      SelectLast(es);
      OneMore(EMPTY, cs, e, id);
      OneMore(EMPTY, ds, e, id);
      OneMore(EMPTY, front, e, id);
      assert es == front + [e];
      PartsStep(Summarize(front, id), Summarize(cs, id), Summarize(ds, id), e, id);
    }
  }

  lemma SelectLast(es: seq<Event>)
    requires es != []
    ensures var front, e := es[..|es| - 1], es[|es| - 1];
            var cs, ds, rs := Select(front, IsCreation), Select(front, IsDeletion), Select(front, IsRail);
            && Select(es, IsCreation) == (if e.Creation? then cs + [e] else cs)
            && Select(es, IsDeletion) == (if e.Deletion? then ds + [e] else ds)
            && Select(es, IsRail) == (if e.RailCreation? then rs + [e] else rs)
  {
    var front := es[..|es| - 1];
    assert Select(front, IsCreation) + [] == Select(front, IsCreation);
    assert Select(front, IsDeletion) + [] == Select(front, IsDeletion);
    assert Select(front, IsRail) + [] == Select(front, IsRail);
  }

  lemma {:induction false} RailsLeaveDatasets(s: Index, es: seq<Event>)
    requires forall e :: e in es ==> e.RailCreation?
    ensures InChainOrder(s, es).datasets == s.datasets
    ensures InChainOrder(s, es).railToDataset == s.railToDataset && InChainOrder(s, es).payers == s.payers
  {
    if es != [] {
      assert es[|es| - 1] in es;
      RailsLeaveDatasets(s, es[..|es| - 1]);
    }
  }

  lemma {:induction false} SelectSound(es: seq<Event>, p: Event -> bool)
    ensures forall e :: e in Select(es, p) ==> p(e)
  {
    if es != [] {
      SelectSound(es[..|es| - 1], p);
    }
  }

  lemma BatchOrderOutcome(s: Index, es: seq<Event>, id: nat)
    ensures Find(InBatchOrder(s, es), id) ==
            match Summarize(es, id)
            case Untouched(deletion) => Marked(Find(s, id), deletion)
            case Recreated(last, before, after) => Some(NewDataset(last, before || after))
  {
    SummarizeParts(es, id);
    var created := InChainOrder(s, Select(es, IsCreation));
    ChainOrderOutcome(s, Select(es, IsCreation), id);
    ChainOrderOutcome(created, Select(es, IsDeletion), id);
    SelectSound(es, IsRail);
    RailsLeaveDatasets(InChainOrder(created, Select(es, IsDeletion)), Select(es, IsRail));
  }

  // ----------------------------------------------- everything but the data sets

  /** The parts of the index that deletions leave alone. */
  function Rest(s: Index): (map<nat, Rail>, map<nat, nat>, seq<bytes>) {
    (s.rails, s.railToDataset, s.payers)
  }

  lemma {:induction false} RestOfSelected(s: Index, es: seq<Event>)
    ensures var all, created, rails := InChainOrder(s, es), InChainOrder(s, Select(es, IsCreation)),
                                       InChainOrder(s, Select(es, IsRail));
            && all.railToDataset == created.railToDataset && all.payers == created.payers
            && all.rails == rails.rails && created.rails == s.rails
  {
    if es != [] {
      var front, e := es[..|es| - 1], es[|es| - 1];
      RestOfSelected(s, front);
      SelectLast(es);
      OneMore(s, Select(front, IsCreation), e, 0);
      OneMore(s, Select(front, IsRail), e, 0);
    }
  }

  lemma {:induction false} DeletionsLeaveRest(s: Index, es: seq<Event>)
    requires forall e :: e in es ==> e.Deletion?
    ensures Rest(InChainOrder(s, es)) == Rest(s)
  {
    if es != [] {
      assert es[|es| - 1] in es;
      DeletionsLeaveRest(s, es[..|es| - 1]);
    }
  }

  lemma {:induction false} RailsOnly(s: Index, t: Index, es: seq<Event>)
    requires s.rails == t.rails && forall e :: e in es ==> e.RailCreation?
    ensures InChainOrder(s, es).rails == InChainOrder(t, es).rails
  {
    if es != [] {
      assert es[|es| - 1] in es;
      RailsOnly(s, t, es[..|es| - 1]);
    }
  }

  lemma SameRest(s: Index, es: seq<Event>)
    ensures Rest(InBatchOrder(s, es)) == Rest(InChainOrder(s, es))
  {
    var created := InChainOrder(s, Select(es, IsCreation));
    var deleted := InChainOrder(created, Select(es, IsDeletion));
    RestOfSelected(s, es);
    SelectSound(es, IsDeletion);
    SelectSound(es, IsRail);
    DeletionsLeaveRest(created, Select(es, IsDeletion));
    RailsLeaveDatasets(deleted, Select(es, IsRail));
    RailsOnly(deleted, s, Select(es, IsRail));
  }

  /** Batch order leaves the index chain order leaves exactly when no data set is
      misordered in the window. */
  lemma BatchIsChainOrder(s: Index, es: seq<Event>)
    ensures InBatchOrder(s, es) == InChainOrder(s, es) <==> forall id :: !Misordered(es, id)
  {
    var batch, chain := InBatchOrder(s, es), InChainOrder(s, es);
    SameRest(s, es);
    forall id: nat ensures Find(batch, id) == Find(chain, id) <==> !Misordered(es, id) {
      ChainOrderOutcome(s, es, id);
      BatchOrderOutcome(s, es, id);
    }
    hide InBatchOrder, InChainOrder, Misordered;
    if forall id :: !Misordered(es, id) {
      SameDatasets(batch, chain);
    }
  }

  lemma SameDatasets(a: Index, b: Index)
    requires forall id: nat :: Find(a, id) == Find(b, id)
    ensures a.datasets == b.datasets
  {
    forall id: nat ensures id in a.datasets <==> id in b.datasets {
      assert Find(a, id) == Find(b, id);
    }
    forall id: nat | id in a.datasets ensures a.datasets[id] == b.datasets[id] {
      assert Find(a, id) == Find(b, id);
    }
  }

  /** No deletion of the data set comes before a creation of it, as on a chain
      where ids are used once. */
  ghost predicate CreatedBeforeDeleted(es: seq<Event>, id: nat) {
    forall i, j :: 0 <= i < j < |es| && es[i].Deletion? && es[j].Creation?
      ==> Low64(es[i].deleted.dataSetId) != id || Low64(es[j].created.dataSetId) != id
  }

  /** A data set that is never deleted before it is created is not misordered. */
  lemma {:induction false} CreatedFirst(es: seq<Event>, id: nat)
    requires CreatedBeforeDeleted(es, id)
    ensures !Misordered(es, id)
    ensures Summarize(es, id).Recreated? ==> !Summarize(es, id).before
    ensures Summarize(es, id) == Untouched(true) ==>
              exists i :: 0 <= i < |es| && es[i].Deletion? && Low64(es[i].deleted.dataSetId) == id
    ensures Summarize(es, id).Recreated? && Summarize(es, id).after ==>
              exists i :: 0 <= i < |es| && es[i].Deletion? && Low64(es[i].deleted.dataSetId) == id
  {
    if es != [] {
      var front, last := es[..|es| - 1], |es| - 1;
      forall i, j | 0 <= i < j < |front| && front[i].Deletion? && front[j].Creation?
        ensures Low64(front[i].deleted.dataSetId) != id || Low64(front[j].created.dataSetId) != id
      {
        assert front[i] == es[i] && front[j] == es[j];
      }
      CreatedFirst(front, id);
      assert forall i :: 0 <= i < last ==> front[i] == es[i];
    }
  }

  // ------------------------------------------------- what the records hold, by event

  predicate Creates(e: Event, id: nat) {
    e.Creation? && e.created.dataSetId % 0x1_0000_0000_0000_0000 == id
  }

  predicate Deletes(e: Event, id: nat) {
    e.Deletion? && e.deleted.dataSetId % 0x1_0000_0000_0000_0000 == id
  }

  /** A creation whose data set is paid over the rail. */
  predicate Links(e: Event, rail: nat) {
    e.Creation? && e.created.pdpRailId % 0x1_0000_0000_0000_0000 == rail
  }

  predicate Opens(e: Event, rail: nat) {
    e.RailCreation? && e.rail.railId % 0x1_0000_0000_0000_0000 == rail
  }

  /** Event i is the last one to create the data set. */
  ghost predicate LastCreation(es: seq<Event>, i: nat, id: nat) {
    i < |es| && Creates(es[i], id) && forall j :: i < j < |es| ==> !Creates(es[j], id)
  }

  ghost predicate LastLink(es: seq<Event>, i: nat, rail: nat) {
    i < |es| && Links(es[i], rail) && forall j :: i < j < |es| ==> !Links(es[j], rail)
  }

  ghost predicate LastOpening(es: seq<Event>, i: nat, rail: nat) {
    i < |es| && Opens(es[i], rail) && forall j :: i < j < |es| ==> !Opens(es[j], rail)
  }

  ghost predicate DeletedWithin(es: seq<Event>, from: nat, to: nat, id: nat)
    requires to <= |es|
  {
    exists j :: from <= j < to && Deletes(es[j], id)
  }

  /** A summary in terms of positions: i is the last creation, if there is one. */
  lemma {:induction false} SummaryMeaning(es: seq<Event>, id: nat) returns (i: nat)
    ensures Summarize(es, id).Untouched? ==> forall j :: 0 <= j < |es| ==> !Creates(es[j], id)
    ensures Summarize(es, id).Untouched? ==> (Summarize(es, id).deletion <==> DeletedWithin(es, 0, |es|, id))
    ensures Summarize(es, id).Recreated? ==>
              && LastCreation(es, i, id) && Summarize(es, id).last == es[i].created
              && (Summarize(es, id).before <==> DeletedWithin(es, 0, i, id))
              && (Summarize(es, id).after <==> DeletedWithin(es, i + 1, |es|, id))
  {
    hide Summarize;
    i := 0;
    if es == [] {
      NoParts(id);
    } else {
      var front, n := es[..|es| - 1], |es| - 1;
      i := SummaryMeaning(front, id);
      OneMore(EMPTY, front, es[n], id);
      assert es == front + [es[n]];
      assert forall j :: 0 <= j < n ==> front[j] == es[j];
      MoreEvents(front, es, 0, id);
      if Summarize(front, id).Recreated? {
        MoreEvents(front, es, i + 1, id);
        SplitDeletions(front, i, id);
        assert DeletedWithin(front, 0, i, id) <==> DeletedWithin(es, 0, i, id);
      }
      assert DeletedWithin(front, 0, n, id) <==> DeletedWithin(es, 0, n, id);
      if Creates(es[n], id) {
        i := n;
        assert !DeletedWithin(es, n + 1, |es|, id);
      }
    }
  }

  lemma MoreEvents(front: seq<Event>, es: seq<Event>, from: nat, id: nat)
    requires |es| == |front| + 1 && front == es[..|front|] && from <= |front|
    ensures DeletedWithin(es, from, |es|, id) <==> DeletedWithin(front, from, |front|, id) || Deletes(es[|front|], id)
  {
    assert forall j :: 0 <= j < |front| ==> front[j] == es[j];
    if Deletes(es[|front|], id) {
      assert DeletedWithin(es, from, |es|, id);
    }
  }

  lemma SplitDeletions(es: seq<Event>, i: nat, id: nat)
    requires i < |es| && !Deletes(es[i], id)
    ensures DeletedWithin(es, 0, |es|, id) <==> DeletedWithin(es, 0, i, id) || DeletedWithin(es, i + 1, |es|, id)
  {
  }

  /** Misordered in terms of positions. */
  lemma MisorderedExactly(es: seq<Event>, id: nat)
    ensures Misordered(es, id) <==>
              exists i: nat ::
                LastCreation(es, i, id) && DeletedWithin(es, 0, i, id) && !DeletedWithin(es, i + 1, |es|, id)
  {
    hide DeletedWithin, Summarize;
    var i := SummaryMeaning(es, id);
    forall k: nat | LastCreation(es, k, id) ensures k == i && Summarize(es, id).Recreated? {
      assert Creates(es[k], id);
    }
  }

  /** After any events in chain order: the record of a data set holds the arguments
      of its last creation, and is deleted exactly when a deletion came after that. */
  lemma RecordOfLastCreation(s: Index, es: seq<Event>, i: nat, id: nat)
    requires LastCreation(es, i, id)
    ensures id in InChainOrder(s, es).datasets
    ensures var d, c := InChainOrder(s, es).datasets[id], es[i].created;
            && d.dataSetId == id
            && d.providerId == c.providerId % 0x1_0000_0000_0000_0000
            && d.pdpRailId == c.pdpRailId % 0x1_0000_0000_0000_0000
            && d.payer == c.payer && d.serviceProvider == c.serviceProvider && d.payee == c.payee
            && d.lastSeenChallengeEpoch == d.lastSeenProvenEpoch == d.challengeEpochStale == 0
            && (d.deleted <==> exists j :: i < j < |es| && Deletes(es[j], id))
  {
    hide Summarize, InChainOrder;
    ChainOrderOutcome(s, es, id);
    var k := SummaryMeaning(es, id);
    assert i == k;
    assert Find(InChainOrder(s, es), id).Some?;
  }

  /** Without a creation a data set is neither added nor lost, and only its flag changes. */
  lemma RecordWithoutCreation(s: Index, es: seq<Event>, id: nat)
    requires forall i :: 0 <= i < |es| ==> !Creates(es[i], id)
    ensures id in InChainOrder(s, es).datasets <==> id in s.datasets
    ensures id in s.datasets ==>
              var deletion := exists j :: 0 <= j < |es| && Deletes(es[j], id);
              InChainOrder(s, es).datasets[id] == s.datasets[id].(deleted := s.datasets[id].deleted || deletion)
  {
    hide Summarize, InChainOrder;
    ChainOrderOutcome(s, es, id);
    var k := SummaryMeaning(es, id);
    assert Find(s, id).Some? <==> Find(InChainOrder(s, es), id).Some?;
  }

  /** A rail leads to the data set that was last created with it. */
  lemma {:induction false} RailOfLastCreation(s: Index, es: seq<Event>, i: nat, rail: nat)
    requires LastLink(es, i, rail)
    ensures rail in InChainOrder(s, es).railToDataset
    ensures InChainOrder(s, es).railToDataset[rail] == es[i].created.dataSetId % 0x1_0000_0000_0000_0000
  {
    var front := es[..|es| - 1];
    if i < |es| - 1 {
      assert forall j :: 0 <= j < |front| ==> front[j] == es[j];
      RailOfLastCreation(s, front, i, rail);
      assert !Links(es[|es| - 1], rail);
    }
  }

  lemma {:induction false} RailWithoutCreation(s: Index, es: seq<Event>, rail: nat)
    requires forall j :: 0 <= j < |es| ==> !Links(es[j], rail)
    ensures rail in InChainOrder(s, es).railToDataset <==> rail in s.railToDataset
    ensures rail in s.railToDataset ==> InChainOrder(s, es).railToDataset[rail] == s.railToDataset[rail]
  {
    if es != [] {
      var front := es[..|es| - 1];
      assert forall j :: 0 <= j < |front| ==> front[j] == es[j];
      RailWithoutCreation(s, front, rail);
      assert !Links(es[|es| - 1], rail);
    }
  }

  /** The record of a rail holds the arguments of the last event that opened it. */
  lemma {:induction false} RecordOfRail(s: Index, es: seq<Event>, i: nat, rail: nat)
    requires LastOpening(es, i, rail)
    ensures rail in InChainOrder(s, es).rails
    ensures var r := InChainOrder(s, es).rails[rail];
            r.railId == rail && r.token == es[i].rail.token && r.from == es[i].rail.from && r.to == es[i].rail.to
  {
    var front := es[..|es| - 1];
    if i < |es| - 1 {
      assert forall j :: 0 <= j < |front| ==> front[j] == es[j];
      RecordOfRail(s, front, i, rail);
      assert !Opens(es[|es| - 1], rail);
    }
  }

  lemma {:induction false} NoRecordOfRail(s: Index, es: seq<Event>, rail: nat)
    requires forall j :: 0 <= j < |es| ==> !Opens(es[j], rail)
    ensures rail in InChainOrder(s, es).rails <==> rail in s.rails
    ensures rail in s.rails ==> InChainOrder(s, es).rails[rail] == s.rails[rail]
  {
    if es != [] {
      var front := es[..|es| - 1];
      assert forall j :: 0 <= j < |front| ==> front[j] == es[j];
      NoRecordOfRail(s, front, rail);
      assert !Opens(es[|es| - 1], rail);
    }
  }

  // ------------------------------------------------------------------- payer list

  ghost predicate NoDuplicates(s: seq<bytes>) {
    forall i, j :: 0 <= i < j < |s| ==> s[i] != s[j]
  }

  /** The payer list has no duplicates and holds every payer of a created data set. */
  lemma {:induction false} PayersUnique(s: Index, es: seq<Event>)
    requires NoDuplicates(s.payers)
    ensures NoDuplicates(InChainOrder(s, es).payers)
    ensures forall p :: p in InChainOrder(s, es).payers <==>
              p in s.payers || exists i :: 0 <= i < |es| && es[i].Creation? && es[i].created.payer == p
  {
    if es != [] {
      var front, last := es[..|es| - 1], |es| - 1;
      PayersUnique(s, front);
      assert forall i :: 0 <= i < last ==> front[i] == es[i];
      forall p ensures p in InChainOrder(s, es).payers <==>
        p in s.payers || exists i :: 0 <= i < |es| && es[i].Creation? && es[i].created.payer == p
      {
        if p in InChainOrder(s, front).payers && p !in s.payers {
          var i :| 0 <= i < |front| && front[i].Creation? && front[i].created.payer == p;
          assert es[i].Creation? && es[i].created.payer == p;
        }
        if es[last].Creation? && es[last].created.payer == p {
          assert p in InChainOrder(s, es).payers;
        }
        if i :| 0 <= i < |es| && es[i].Creation? && es[i].created.payer == p {
          if i < last {
            assert front[i].Creation? && front[i].created.payer == p;
          }
        }
      }
    }
  }

  // ------------------------------------------------------------------ the state

  function WithoutProving(d: Dataset): Dataset {
    d.(lastSeenChallengeEpoch := 0, lastSeenProvenEpoch := 0, challengeEpochStale := 0)
  }

  class SidecarState {
    var datasets: map<nat, Dataset>
    var rails: map<nat, Rail>
    var railToDataset: map<nat, nat>
    var trackedPayers: seq<bytes>

    ghost function View(): Index
      reads this
    {
      Index(map id | id in datasets :: WithoutProving(datasets[id]), rails, railToDataset, trackedPayers)
    }

    constructor ()
      ensures View() == EMPTY
    {
      datasets, rails, railToDataset, trackedPayers := map[], map[], map[], [];
    }

    method AddDataset(ev: DataSetCreated)
      modifies this
      ensures View() == Apply(old(View()), Creation(ev))
      ensures var id := ev.dataSetId % 0x1_0000_0000_0000_0000;
              && datasets == old(datasets)[id := Dataset(
                   id, ev.providerId % 0x1_0000_0000_0000_0000, ev.pdpRailId % 0x1_0000_0000_0000_0000,
                   ev.payer, ev.serviceProvider, ev.payee, false, 0, 0, 0)]
              && railToDataset == old(railToDataset)[ev.pdpRailId % 0x1_0000_0000_0000_0000 := id]
              && rails == old(rails)
      ensures ev.payer in trackedPayers && old(trackedPayers) <= trackedPayers
      ensures ev.payer in old(trackedPayers) ==> trackedPayers == old(trackedPayers)
    {
      var dsId := Low64(ev.dataSetId);
      datasets := datasets[dsId := NewDataset(ev, false)];
      railToDataset := railToDataset[Low64(ev.pdpRailId) := dsId];
      var found := false;
      for i := 0 to |trackedPayers|
        invariant !found && ev.payer !in trackedPayers[..i]
      {
        if trackedPayers[i] == ev.payer {
          found := true;
          break;
        }
      }
      if !found {
        trackedPayers := trackedPayers + [ev.payer];
      }
    }

    method AddRail(ev: RailCreated)
      modifies this
      ensures View() == Apply(old(View()), RailCreation(ev))
      ensures var id := ev.railId % 0x1_0000_0000_0000_0000;
              rails == old(rails)[id := Rail(id, ev.token, ev.from, ev.to)]
      ensures datasets == old(datasets) && railToDataset == old(railToDataset) && trackedPayers == old(trackedPayers)
    {
      var rId := Low64(ev.railId);
      rails := rails[rId := Rail(rId, ev.token, ev.from, ev.to)];
    }

    method MarkDatasetDeleted(id: nat)
      modifies this
      ensures View() == MarkDeleted(old(View()), id)
      ensures datasets.Keys == old(datasets).Keys
      ensures id in datasets ==> datasets[id] == old(datasets)[id].(deleted := true)
      ensures forall k :: k in datasets && k != id ==> datasets[k] == old(datasets)[k]
      ensures rails == old(rails) && railToDataset == old(railToDataset) && trackedPayers == old(trackedPayers)
    {
      if id in datasets {
        datasets := datasets[id := datasets[id].(deleted := true)];
      }
    }

    /** Reports which epochs moved, and touches nothing but the proving counters
        of a data set that exists and is not deleted. */
    method UpdateProvingState(id: nat, challengeEpoch: nat, provenEpoch: nat)
      returns (challengeAdvanced: bool, provenAdvanced: bool)
      modifies this
      ensures View() == old(View())
      ensures id !in old(datasets) || old(datasets)[id].deleted ==>
                !challengeAdvanced && !provenAdvanced && datasets == old(datasets)
      ensures id in old(datasets) && !old(datasets)[id].deleted ==>
                var d := old(datasets)[id];
                && (challengeAdvanced <==> challengeEpoch > 0 && challengeEpoch != d.lastSeenChallengeEpoch)
                && (provenAdvanced <==> provenEpoch > 0 && provenEpoch != d.lastSeenProvenEpoch)
                && datasets == old(datasets)[id := d.(
                     lastSeenChallengeEpoch := if challengeAdvanced then challengeEpoch else d.lastSeenChallengeEpoch,
                     lastSeenProvenEpoch := if provenAdvanced then provenEpoch else d.lastSeenProvenEpoch,
                     challengeEpochStale := if challengeAdvanced then 0
                                            else if d.lastSeenChallengeEpoch > 0 then d.challengeEpochStale + 1
                                            else d.challengeEpochStale)]
    {
      if id !in datasets || datasets[id].deleted {
        return false, false;
      }
      var ds := datasets[id];
      challengeAdvanced := challengeEpoch != ds.lastSeenChallengeEpoch && challengeEpoch > 0;
      provenAdvanced := provenEpoch != ds.lastSeenProvenEpoch && provenEpoch > 0;
      if challengeAdvanced {
        ds := ds.(lastSeenChallengeEpoch := challengeEpoch, challengeEpochStale := 0);
      } else if ds.lastSeenChallengeEpoch > 0 {
        ds := ds.(challengeEpochStale := ds.challengeEpochStale + 1);
      }
      if provenAdvanced {
        ds := ds.(lastSeenProvenEpoch := provenEpoch);
      }
      datasets := datasets[id := ds];
    }
  }
}
