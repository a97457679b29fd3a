/** The polling loop of the sidecar's main.go over any heads and fetch results. */
module Polling {
  import opened Bytes
  import opened AbiCalls
  import opened Batches
  import opened Sidecar

  const FINALITY_WINDOW := 30
  const FIRST_WINDOW := 100

  /** The events of each block, in order. */
  type Chain = nat -> seq<Event>

  /** The events of blocks first to last, in chain order. */
  function EventsIn(chain: Chain, first: nat, last: nat): seq<Event>
    decreases last
  {
    if first > last then []
    else (if last == 0 then [] else EventsIn(chain, first, last - 1)) + chain(last)
  }

  lemma {:induction false} EventsJoin(chain: Chain, first: nat, mid: nat, last: nat)
    requires first <= mid <= last
    ensures EventsIn(chain, first, mid) + EventsIn(chain, mid + 1, last) == EventsIn(chain, first, last)
    decreases last
  {
    if mid < last {
      EventsJoin(chain, first, mid, last - 1);
    }
  }

  // --------------------------------------------------------------------- windows

  /** A polled range of blocks, and which of its three event lists came back. */
  datatype Window = Window(first: nat, last: nat, created: bool, deleted: bool, rails: bool)

  predicate Covers(w: Window, block: nat) {
    w.first <= block <= w.last
  }

  /** Non-empty windows, each starting where the one before ended, up to `last`. */
  ghost predicate Tiles(windows: seq<Window>, last: nat) {
    && (forall i :: 0 <= i < |windows| ==> 1 <= windows[i].first <= windows[i].last)
    && (forall i, j {:trigger windows[i], windows[j]} :: 0 <= i < |windows| && j == i + 1 < |windows| ==>
          windows[j].first == windows[i].last + 1)
    && last == if windows == [] then 0 else windows[|windows| - 1].last
  }

  lemma {:induction false} TilesOrdered(windows: seq<Window>, last: nat, i: nat, j: nat)
    requires Tiles(windows, last) && i < j < |windows|
    ensures windows[i].last < windows[j].first
  {
    assert windows[j].first == windows[j - 1].last + 1;
    if i < j - 1 {
      TilesOrdered(windows, last, i, j - 1);
      assert windows[j - 1].first <= windows[j - 1].last;
    }
  }

  lemma {:induction false} SomeWindow(windows: seq<Window>, last: nat, block: nat) returns (i: nat)
    requires Tiles(windows, last) && windows != [] && windows[0].first <= block <= last
    ensures i < |windows| && Covers(windows[i], block)
    decreases |windows|
  {
    i := |windows| - 1;
    if block < windows[i].first {
      i := SomeWindow(windows[..i], windows[i - 1].last, block);
    }
  }

  /** Every block from the first window's start to the last polled block is in
      exactly one window, and no other block is in any. */
  lemma ScannedExactlyOnce(windows: seq<Window>, last: nat, block: nat)
    requires Tiles(windows, last) && windows != []
    ensures windows[0].first <= block <= last <==> exists i :: 0 <= i < |windows| && Covers(windows[i], block)
    ensures forall i, j :: 0 <= i < j < |windows| ==> !(Covers(windows[i], block) && Covers(windows[j], block))
  {
    if windows[0].first <= block <= last {
      var i := SomeWindow(windows, last, block);
    }
    forall i, j | 0 <= i < j < |windows| ensures windows[i].last < windows[j].first {
      TilesOrdered(windows, last, i, j);
    }
    if i :| 0 <= i < |windows| && Covers(windows[i], block) {
      if i > 0 {
        TilesOrdered(windows, last, 0, i);
      }
      if i < |windows| - 1 {
        TilesOrdered(windows, last, i, |windows| - 1);
      }
    }
  }

  // --------------------------------------------------------------- one window

  function CreatedOf(es: seq<Event>): seq<DataSetCreated> {
    if es == [] then []
    else CreatedOf(es[..|es| - 1]) + (if es[|es| - 1].Creation? then [es[|es| - 1].created] else [])
  }

  function DeletedOf(es: seq<Event>): seq<DataSetDeleted> {
    if es == [] then []
    else DeletedOf(es[..|es| - 1]) + (if es[|es| - 1].Deletion? then [es[|es| - 1].deleted] else [])
  }

  function RailsOf(es: seq<Event>): seq<RailCreated> {
    if es == [] then []
    else RailsOf(es[..|es| - 1]) + (if es[|es| - 1].RailCreation? then [es[|es| - 1].rail] else [])
  }

  function Creations(cs: seq<DataSetCreated>): (es: seq<Event>)
    ensures |es| == |cs|
  {
    seq(|cs|, i requires 0 <= i < |cs| => Creation(cs[i]))
  }

  function Deletions(ds: seq<DataSetDeleted>): (es: seq<Event>)
    ensures |es| == |ds|
  {
    seq(|ds|, i requires 0 <= i < |ds| => Event.Deletion(ds[i]))
  }

  function Rails(rs: seq<RailCreated>): (es: seq<Event>)
    ensures |es| == |rs|
  {
    seq(|rs|, i requires 0 <= i < |rs| => RailCreation(rs[i]))
  }

  lemma {:induction false} FetchedAreSelected(es: seq<Event>)
    ensures Creations(CreatedOf(es)) == Select(es, IsCreation)
    ensures Deletions(DeletedOf(es)) == Select(es, IsDeletion)
    ensures Rails(RailsOf(es)) == Select(es, IsRail)
  {
    if es != [] {
      var front := es[..|es| - 1];
      FetchedAreSelected(front);
      SelectLast(es);
      assert CreatedOf(front) + [] == CreatedOf(front);
      assert DeletedOf(front) + [] == DeletedOf(front);
      assert RailsOf(front) + [] == RailsOf(front);
    }
  }

  /** Creations, then deletions, then rails; a list that could not be fetched is
      skipped. */
  method PollEvents(state: SidecarState, created: Option<seq<DataSetCreated>>,
                    deleted: Option<seq<DataSetDeleted>>, rails: Option<seq<RailCreated>>)
    modifies state
    ensures var cs := if created.Some? then Creations(created.value) else [];
            var ds := if deleted.Some? then Deletions(deleted.value) else [];
            var rs := if rails.Some? then Rails(rails.value) else [];
            state.View() == InChainOrder(InChainOrder(InChainOrder(old(state.View()), cs), ds), rs)
  {
    if created.Some? {
      ApplyCreated(state, created.value);
    }
    if deleted.Some? {
      ApplyDeleted(state, deleted.value);
    }
    if rails.Some? {
      ApplyRails(state, rails.value);
    }
  }

  method ApplyCreated(state: SidecarState, events: seq<DataSetCreated>)
    modifies state
    ensures state.View() == InChainOrder(old(state.View()), Creations(events))
  {
    for i := 0 to |events|
      invariant state.View() == InChainOrder(old(state.View()), Creations(events)[..i])
    {
      state.AddDataset(events[i]);
      OneMore(old(state.View()), Creations(events)[..i], Creations(events)[i], 0);
      assert Creations(events)[..i + 1] == Creations(events)[..i] + [Creations(events)[i]];
    }
    assert Creations(events)[..|events|] == Creations(events);
  }

  method ApplyDeleted(state: SidecarState, events: seq<DataSetDeleted>)
    modifies state
    ensures state.View() == InChainOrder(old(state.View()), Deletions(events))
  {
    for i := 0 to |events|
      invariant state.View() == InChainOrder(old(state.View()), Deletions(events)[..i])
    {
      state.MarkDatasetDeleted(Low64(events[i].dataSetId));
      OneMore(old(state.View()), Deletions(events)[..i], Deletions(events)[i], 0);
      assert Deletions(events)[..i + 1] == Deletions(events)[..i] + [Deletions(events)[i]];
    }
    assert Deletions(events)[..|events|] == Deletions(events);
  }

  method ApplyRails(state: SidecarState, events: seq<RailCreated>)
    modifies state
    ensures state.View() == InChainOrder(old(state.View()), Rails(events))
  {
    for i := 0 to |events|
      invariant state.View() == InChainOrder(old(state.View()), Rails(events)[..i])
    {
      state.AddRail(events[i]);
      OneMore(old(state.View()), Rails(events)[..i], Rails(events)[i], 0);
      assert Rails(events)[..i + 1] == Rails(events)[..i] + [Rails(events)[i]];
    }
    assert Rails(events)[..|events|] == Rails(events);
  }

  // ------------------------------------------------------------------- the loop

  /** One round: no head, or a head height, which fetches succeed, and the proving
      epochs the checks read afterwards. */
  datatype Round =
    | NoHead
    | Head(height: nat, createdOk: bool, deletedOk: bool, railsOk: bool, proving: seq<(nat, nat, nat)>)

  /** The height up to which a head at the given height is polled. */
  function Finalized(height: nat): nat {
    if height > FINALITY_WINDOW then height - FINALITY_WINDOW else height
  }

  /** The last 30 epochs are cut off, but heights up to 30 are polled whole. So a
      higher head is polled less far exactly when it is the only one above 30 and
      less than 30 epochs higher. */
  lemma FinalizedExactly(height: nat, higher: nat)
    requires height < higher
    ensures Finalized(height) == height <==> height <= 30
    ensures height > 30 ==> Finalized(height) + 30 == height
    ensures Finalized(higher) < Finalized(height) <==> height <= 30 < higher < height + 30
    ensures Finalized(higher) == Finalized(height) <==> height <= 30 < higher == height + 30
  {
  }

  predicate Fetched(w: Window, e: Event) {
    match e
    case Creation(_) => w.created
    case Deletion(_) => w.deleted
    case RailCreation(_) => w.rails
  }

  /** The events of a window that came back; the others are lost for good. */
  function Kept(w: Window, es: seq<Event>): seq<Event> {
    if es == [] then []
    else Kept(w, es[..|es| - 1]) + (if Fetched(w, es[|es| - 1]) then [es[|es| - 1]] else [])
  }

  function BatchesOf(chain: Chain, windows: seq<Window>): (batches: seq<seq<Event>>)
    ensures |batches| == |windows|
  {
    seq(|windows|, i requires 0 <= i < |windows| =>
      Kept(windows[i], EventsIn(chain, windows[i].first, windows[i].last)))
  }

  /** The index after the windows: what came back, each window in batch order. */
  function AfterWindows(chain: Chain, windows: seq<Window>): Index {
    AfterBatches(BatchesOf(chain, windows))
  }

  ghost predicate AllFetched(windows: seq<Window>) {
    forall i :: 0 <= i < |windows| ==> windows[i].created && windows[i].deleted && windows[i].rails
  }

  lemma {:induction false} KeptParts(w: Window, es: seq<Event>)
    ensures Select(Kept(w, es), IsCreation) == if w.created then Select(es, IsCreation) else []
    ensures Select(Kept(w, es), IsDeletion) == if w.deleted then Select(es, IsDeletion) else []
    ensures Select(Kept(w, es), IsRail) == if w.rails then Select(es, IsRail) else []
  {
    if es != [] {
      var front, e := es[..|es| - 1], es[|es| - 1];
      KeptParts(w, front);
      SelectLast(es);
      if Fetched(w, e) {
        assert Kept(w, es)[..|Kept(w, es)| - 1] == Kept(w, front);
        SelectLast(Kept(w, es));
      } else {
        assert Kept(w, es) == Kept(w, front);
      }
    }
  }

  /** Lost is what was not fetched, and nothing else. */
  lemma {:induction false} KeptAreFetched(w: Window, es: seq<Event>, e: Event)
    ensures e in Kept(w, es) <==> e in es && Fetched(w, e)
    ensures w.created && w.deleted && w.rails ==> Kept(w, es) == es
  {
    if es != [] {
      KeptAreFetched(w, es[..|es| - 1], e);
      assert es == es[..|es| - 1] + [es[|es| - 1]];
    }
  }

  method UpdateProving(state: SidecarState, proving: seq<(nat, nat, nat)>)
    modifies state
    ensures state.View() == old(state.View())
  {
    for i := 0 to |proving|
      invariant state.View() == old(state.View())
    {
      var challenge, proven := state.UpdateProvingState(proving[i].0, proving[i].1, proving[i].2);
    }
  }

  /** One window: its events, as far as they come back, in batch order. */
  method PollWindow(state: SidecarState, chain: Chain, w: Window)
    modifies state
    ensures state.View() == InBatchOrder(old(state.View()), Kept(w, EventsIn(chain, w.first, w.last)))
  {
    hide InChainOrder, EventsIn, Select, CreatedOf, DeletedOf, RailsOf, Kept;
    var es := EventsIn(chain, w.first, w.last);
    FetchedAreSelected(es);
    KeptParts(w, es);
    PollEvents(state,
      if w.created then Some(CreatedOf(es)) else None,
      if w.deleted then Some(DeletedOf(es)) else None,
      if w.rails then Some(RailsOf(es)) else None);
  }

  lemma NoWindows(chain: Chain)
    ensures AfterWindows(chain, []) == EMPTY && Tiles([], 0) && AllFetched([])
  {
  }

  lemma AddTile(windows: seq<Window>, w: Window, last: nat)
    requires Tiles(windows, last) && 1 <= w.first <= w.last && (last > 0 ==> w.first == last + 1)
    ensures windows != [] ==> (windows + [w])[0] == windows[0]
    ensures Tiles(windows + [w], w.last)
  {
  }

  lemma AddWindow(chain: Chain, windows: seq<Window>, w: Window)
    ensures AllFetched(windows + [w]) <==> AllFetched(windows) && w.created && w.deleted && w.rails
    ensures AfterWindows(chain, windows + [w])
         == InBatchOrder(AfterWindows(chain, windows), Kept(w, EventsIn(chain, w.first, w.last)))
  {
    hide Kept, EventsIn, InBatchOrder;
    var all := windows + [w];
    assert forall i :: 0 <= i < |windows| ==> all[i] == windows[i];
    assert all[|windows|] == w;
    assert BatchesOf(chain, all)[..|windows|] == BatchesOf(chain, windows);
  }

  /** With nothing lost, the batches are the scanned range cut into windows. */
  lemma {:induction false} FlattenWindows(chain: Chain, windows: seq<Window>, last: nat)
    requires Tiles(windows, last) && windows != [] && AllFetched(windows)
    ensures Flatten(BatchesOf(chain, windows)) == EventsIn(chain, windows[0].first, last)
    decreases |windows|
  {
    hide Kept, EventsIn;
    var k := |windows| - 1;
    var front, w := windows[..k], windows[k];
    var es := EventsIn(chain, w.first, w.last);
    assert BatchesOf(chain, windows)[..k] == BatchesOf(chain, front);
    KeptAreFetched(w, es, RailCreation(RailCreated(0, [], [], [])));
    if k > 0 {
      FlattenWindows(chain, front, windows[k - 1].last);
      TilesOrdered(windows, last, 0, k);
      EventsJoin(chain, windows[0].first, windows[k - 1].last, last);
    } else {
      assert front == [];
    }
  }

  /** With nothing lost, the windows leave exactly what the whole scanned range
      leaves in chain order, if and only if no data set diverges. */
  lemma WindowsAreChainOrder(chain: Chain, windows: seq<Window>, last: nat)
    requires Tiles(windows, last) && windows != [] && AllFetched(windows)
    ensures AfterWindows(chain, windows) == InChainOrder(EMPTY, EventsIn(chain, windows[0].first, last))
            <==> NoneDiverges(BatchesOf(chain, windows))
  {
    hide InChainOrder, EventsIn, BatchesOf, AfterBatches, NoneDiverges;
    BatchesAreChainOrder(BatchesOf(chain, windows));
    FlattenWindows(chain, windows, last);
  }

  /** So it is on a chain that deletes every data set only after creating it. */
  lemma InOrderChainsAgree(chain: Chain, windows: seq<Window>, last: nat)
    requires Tiles(windows, last) && windows != [] && AllFetched(windows)
    requires forall id: nat :: CreatedBeforeDeleted(EventsIn(chain, windows[0].first, last), id)
    ensures AfterWindows(chain, windows) == InChainOrder(EMPTY, EventsIn(chain, windows[0].first, last))
  {
    hide CreatedBeforeDeleted, EventsIn, BatchesOf, Diverges, InChainOrder;
    FlattenWindows(chain, windows, last);
    forall id: nat ensures !Diverges(BatchesOf(chain, windows), id) {
      InOrderAgrees(BatchesOf(chain, windows), id);
    }
    WindowsAreChainOrder(chain, windows, last);
  }

  /** What the loop's result means for the index, with nothing lost. */
  ghost predicate IndexMeaning(chain: Chain, windows: seq<Window>, last: nat, index: Index)
    requires windows != []
  {
    var range := EventsIn(chain, windows[0].first, last);
    && (index == InChainOrder(EMPTY, range) <==> NoneDiverges(BatchesOf(chain, windows)))
    && ((forall id: nat :: CreatedBeforeDeleted(range, id)) ==> index == InChainOrder(EMPTY, range))
  }

  lemma IndexMeaningHolds(chain: Chain, windows: seq<Window>, last: nat)
    requires Tiles(windows, last) && windows != [] && AllFetched(windows)
    ensures IndexMeaning(chain, windows, last, AfterWindows(chain, windows))
  {
    hide CreatedBeforeDeleted, EventsIn, NoneDiverges, AfterWindows, InChainOrder;
    WindowsAreChainOrder(chain, windows, last);
    if forall id: nat :: CreatedBeforeDeleted(EventsIn(chain, windows[0].first, last), id) {
      InOrderChainsAgree(chain, windows, last);
    }
  }

  /** The loop over any rounds. The windows tile one interval that ends at the
      last polled block, whatever the heads and fetches do. The index is what the
      windows make of the events that came back; with nothing lost it is what the
      scanned range makes of it in chain order exactly when no data set diverges,
      as when every data set is deleted only after it is created. */
  method PollingLoop(chain: Chain, rounds: seq<Round>)
    returns (state: SidecarState, lastPolledBlock: nat, ghost windows: seq<Window>)
    ensures Tiles(windows, lastPolledBlock)
    ensures forall r :: r in rounds && r.Head? ==> Finalized(r.height) <= lastPolledBlock
    ensures lastPolledBlock == 0 || exists r :: r in rounds && r.Head? && Finalized(r.height) == lastPolledBlock
    ensures windows != [] ==>
              windows[0].first == if windows[0].last > 100 then windows[0].last - 100 else 1
    ensures state.View() == AfterWindows(chain, windows)
    ensures (forall r :: r in rounds && r.Head? ==> r.createdOk && r.deletedOk && r.railsOk) ==> AllFetched(windows)
    ensures windows != [] && AllFetched(windows) ==> IndexMeaning(chain, windows, lastPolledBlock, state.View())
  {
    hide InBatchOrder, AfterWindows, EventsIn, Tiles, AllFetched, Kept, IndexMeaning;
    NoWindows(chain);
    state := new SidecarState();
    lastPolledBlock, windows := 0, [];
    for n := 0 to |rounds|
      invariant fresh(state)
      invariant Tiles(windows, lastPolledBlock)
      invariant windows == [] <==> lastPolledBlock == 0
      invariant forall r :: r in rounds[..n] && r.Head? ==> Finalized(r.height) <= lastPolledBlock
      invariant lastPolledBlock == 0 || exists r :: r in rounds && r.Head? && Finalized(r.height) == lastPolledBlock
      invariant windows != [] ==>
                  windows[0].first == if windows[0].last > FIRST_WINDOW then windows[0].last - FIRST_WINDOW else 1
      invariant state.View() == AfterWindows(chain, windows)
      invariant (forall r :: r in rounds && r.Head? ==> r.createdOk && r.deletedOk && r.railsOk) ==> AllFetched(windows)
    {
      var round := rounds[n];
      if round.NoHead? {
        continue;
      }
      var finalizedHeight := round.height;
      if finalizedHeight > FINALITY_WINDOW {
        finalizedHeight := finalizedHeight - FINALITY_WINDOW;
      }
      if finalizedHeight <= lastPolledBlock {
        continue;
      }
      var fromBlock := lastPolledBlock + 1;
      if lastPolledBlock == 0 {
        if finalizedHeight > FIRST_WINDOW {
          fromBlock := finalizedHeight - FIRST_WINDOW;
        } else {
          fromBlock := 1;
        }
      }
      var w := Window(fromBlock, finalizedHeight, round.createdOk, round.deletedOk, round.railsOk);
      AddTile(windows, w, lastPolledBlock);
      AddWindow(chain, windows, w);
      PollWindow(state, chain, w);
      UpdateProving(state, round.proving);
      lastPolledBlock := finalizedHeight;
      windows := windows + [w];
    }
    if windows != [] && AllFetched(windows) {
      IndexMeaningHolds(chain, windows, lastPolledBlock);
    }
  }
}
