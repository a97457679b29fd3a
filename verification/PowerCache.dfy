/** The lock-protected power table cache and the slashers that invalidate it,
    as a state machine over every interleaving of their critical sections
    (miner_disruption_vectors.go). */
module PowerCache {
  import Bytes
  import opened PowerTable

  /** What the two mutexes protect. madeFrom and madeUnder only record which
      entries and which slashed set the cached table was computed from. */
  datatype Shared = Shared(slashed: set<nat>, cache: seq<Miner>, epoch: nat, madeFrom: seq<Entry>, madeUnder: set<nat>)

  const INITIAL := Shared({}, [], 0, [], {})

  predicate Hit(s: Shared, h: nat) {
    h == s.epoch && |s.cache| > 0
  }

  function Store(s: Shared, h: nat, entries: seq<Entry>, t: seq<Miner>): Shared {
    s.(cache := t, epoch := h, madeFrom := entries, madeUnder := s.slashed)
  }

  function Mark(s: Shared, target: nat): Shared {
    s.(slashed := s.slashed + {target})
  }

  function Invalidate(s: Shared): Shared {
    s.(epoch := 0)
  }

  // -------------------------------------------------------------- interleavings

  /** A reader: `finished` are the miners whose slash had finished when it took
      the cache lock. */
  datatype Reader =
    | Idle
    | HasHead(h: nat)
    | Recomputing(h: nat, finished: set<nat>)
    | Returned(h: nat, finished: set<nat>, table: seq<Miner>, madeFrom: seq<Entry>, madeUnder: set<nat>)

  datatype Slasher = Pending(target: nat) | Marked(target: nat) | Finished(target: nat)

  /** holder is the reader that keeps the cache lock while it recomputes; done
      are the miners whose slash has finished its invalidation step. */
  datatype State = State(
    shared: Shared,
    readers: map<nat, Reader>,
    slashers: map<nat, Slasher>,
    holder: set<nat>,
    done: set<nat>)

  datatype Step =
    | ReadHead(r: nat, h: nat)
    | ServeCached(r: nat)
    | StartRecomputing(r: nat)
    | FetchFails(r: nat)
    | NoPower(r: nat, entries: seq<Entry>)
    | FinishRecomputing(r: nat, entries: seq<Entry>, table: seq<Miner>)
    | MarkTarget(s: nat)
    | InvalidateFor(s: nat)

  function ReaderOf(st: State, r: nat): Reader {
    if r in st.readers then st.readers[r] else Idle
  }

  /** One critical section of one thread. The head is read before the lock is
      taken, the entries while it is held; replies are arbitrary. */
  ghost predicate Next(st: State, step: Step, st': State) {
    match step
    case ReadHead(r, h) =>
      && (ReaderOf(st, r).Idle? || ReaderOf(st, r).Returned?)
      && st' == st.(readers := st.readers[r := HasHead(h)])
    case ServeCached(r) =>
      var reader, s := ReaderOf(st, r), st.shared;
      && reader.HasHead? && st.holder == {} && Hit(s, reader.h)
      && st' == st.(readers := st.readers[r := Returned(reader.h, st.done, s.cache, s.madeFrom, s.madeUnder)])
    case StartRecomputing(r) =>
      var reader := ReaderOf(st, r);
      && reader.HasHead? && st.holder == {} && !Hit(st.shared, reader.h)
      && st' == st.(readers := st.readers[r := Recomputing(reader.h, st.done)], holder := {r})
    case FetchFails(r) =>
      var reader := ReaderOf(st, r);
      && reader.Recomputing?
      && st' == st.(readers := st.readers[r := Returned(reader.h, reader.finished, [], [], {})], holder := {})
    case NoPower(r, entries) =>
      var reader := ReaderOf(st, r);
      && reader.Recomputing? && EntryTotal(Unslashed(entries, st.shared.slashed)) == 0
      && st' == st.(readers := st.readers[r := Returned(reader.h, reader.finished, [], [], {})], holder := {})
    case FinishRecomputing(r, entries, table) =>
      var reader, s := ReaderOf(st, r), st.shared;
      && reader.Recomputing? && IsTable(table, entries, s.slashed)
      && st' == st.(shared := Store(s, reader.h, entries, table),
                    readers := st.readers[r := Returned(reader.h, reader.finished, table, entries, s.slashed)],
                    holder := {})
    case MarkTarget(k) =>
      && k in st.slashers && st.slashers[k].Pending?
      && var target := st.slashers[k].target;
         st' == st.(shared := Mark(st.shared, target), slashers := st.slashers[k := Marked(target)])
    case InvalidateFor(k) =>
      && k in st.slashers && st.slashers[k].Marked? && st.holder == {}
      && var target := st.slashers[k].target;
         st' == st.(shared := Invalidate(st.shared), slashers := st.slashers[k := Finished(target)],
                    done := st.done + {target})
  }

  ghost predicate Start(st: State) {
    && st.shared == INITIAL && st.readers == map[] && st.holder == {} && st.done == {}
    && forall k :: k in st.slashers ==> st.slashers[k].Pending?
  }

  ghost predicate IsRun(states: seq<State>, steps: seq<Step>) {
    && |states| == |steps| + 1 && Start(states[0])
    && forall i :: 0 <= i < |steps| ==> Next(states[i], steps[i], states[i + 1])
  }

  /** A table is absent, or computed from reported entries with at least the
      given miners left out. */
  ghost predicate Sound(t: seq<Miner>, madeFrom: seq<Entry>, madeUnder: set<nat>, out: set<nat>) {
    t == [] || (IsTable(t, madeFrom, madeUnder) && out <= madeUnder)
  }

  ghost predicate ReaderInv(st: State, r: nat)
    requires r in st.readers
  {
    match st.readers[r]
    case Recomputing(_, finished) => st.holder == {r} && finished <= st.done
    case Returned(h, finished, t, from, under) => h > 0 ==> Sound(t, from, under, finished)
    case _ => true
  }

  ghost predicate Inv(st: State) {
    && st.done <= st.shared.slashed
    && (forall k :: k in st.slashers && !st.slashers[k].Pending? ==> st.slashers[k].target in st.shared.slashed)
    && (st.shared.epoch > 0 ==> Sound(st.shared.cache, st.shared.madeFrom, st.shared.madeUnder, st.done))
    && (forall r :: r in st.readers ==> ReaderInv(st, r))
  }

  lemma InvStep(st: State, step: Step, st': State)
    requires Inv(st) && Next(st, step, st')
    ensures Inv(st')
  {
    hide IsTable;
    forall r | r in st'.readers ensures ReaderInv(st', r) {
      if r in st.readers {
        assert ReaderInv(st, r);
      }
    }
  }

  lemma {:induction false} InvHolds(states: seq<State>, steps: seq<Step>, i: nat)
    requires IsRun(states, steps) && i < |states|
    ensures Inv(states[i])
  {
    if i > 0 {
      InvHolds(states, steps, i - 1);
      InvStep(states[i - 1], steps[i - 1], states[i]);
    }
  }

  /** In every interleaving: a call that took the cache lock after a slash had
      finished, at a height above 0, returns a table without that miner, whether
      it was served from the cache or recomputed. What it returns is the power
      table of entries some node reported. */
  lemma SlashedStayOut(states: seq<State>, steps: seq<Step>, i: nat, r: nat)
    requires IsRun(states, steps) && i < |states|
    requires r in states[i].readers && states[i].readers[r].Returned? && states[i].readers[r].h > 0
    ensures var call := states[i].readers[r];
            && (call.table == [] || IsTable(call.table, call.madeFrom, call.madeUnder))
            && forall k :: 0 <= k < |call.table| ==> call.table[k].addr !in call.finished
  {
    InvHolds(states, steps, i);
    var call := states[i].readers[r];
    assert ReaderInv(states[i], r);
    forall k | 0 <= k < |call.table| ensures call.table[k].addr !in call.finished {
      TableSkipsSlashed(call.table, call.madeFrom, call.madeUnder, k);
    }
  }

  // ----------------------------------------------------- what the steps of a run say

  /** The height r read last among the first i steps. */
  ghost function HeadRead(steps: seq<Step>, i: nat, r: nat): Bytes.Option<nat>
    requires i <= |steps|
  {
    if i == 0 then Bytes.None
    else if steps[i - 1].ReadHead? && steps[i - 1].r == r then Bytes.Some(steps[i - 1].h)
    else HeadRead(steps, i - 1, r)
  }

  /** Step j ends a recomputation with the table, by a reader that had read height h. */
  ghost predicate Fills(steps: seq<Step>, j: nat, h: nat, table: seq<Miner>)
    requires j < |steps|
  {
    && steps[j].FinishRecomputing? && steps[j].table == table
    && HeadRead(steps, j, steps[j].r) == Bytes.Some(h)
  }

  ghost predicate Made(steps: seq<Step>, i: nat, h: nat, table: seq<Miner>)
    requires i <= |steps|
  {
    exists j :: 0 <= j < i && Fills(steps, j, h, table)
  }

  ghost predicate HeightInv(st: State, steps: seq<Step>, i: nat)
    requires i <= |steps|
  {
    forall r :: r in st.readers ==>
      !st.readers[r].Idle? && HeadRead(steps, i, r) == Bytes.Some(st.readers[r].h)
  }

  ghost predicate MadeInv(st: State, steps: seq<Step>, i: nat)
    requires i <= |steps|
  {
    && (st.shared.epoch > 0 && st.shared.cache != [] ==> Made(steps, i, st.shared.epoch, st.shared.cache))
    && forall r :: r in st.readers && st.readers[r].Returned? && st.readers[r].h > 0 && st.readers[r].table != [] ==>
         Made(steps, i, st.readers[r].h, st.readers[r].table)
  }

  lemma {:induction false} HeightsAreRead(states: seq<State>, steps: seq<Step>, i: nat)
    requires IsRun(states, steps) && i < |states|
    ensures HeightInv(states[i], steps, i)
  {
    hide IsTable;
    if i > 0 {
      HeightsAreRead(states, steps, i - 1);
      assert Next(states[i - 1], steps[i - 1], states[i]);
    }
  }

  lemma MadeLater(steps: seq<Step>, i: nat, h: nat, table: seq<Miner>)
    requires i < |steps| && Made(steps, i, h, table)
    ensures Made(steps, i + 1, h, table)
  {
  }

  lemma StepFills(st: State, steps: seq<Step>, i: nat, st': State)
    requires i < |steps| && HeightInv(st, steps, i) && Next(st, steps[i], st') && steps[i].FinishRecomputing?
    ensures Fills(steps, i, ReaderOf(st, steps[i].r).h, steps[i].table)
  {
    hide IsTable, HeadRead;
  }

  lemma {:induction false} AllAreMade(states: seq<State>, steps: seq<Step>, i: nat)
    requires IsRun(states, steps) && i < |states|
    ensures MadeInv(states[i], steps, i)
  {
    hide IsTable, Fills, HeadRead;
    if i > 0 {
      var st, step, st' := states[i - 1], steps[i - 1], states[i];
      AllAreMade(states, steps, i - 1);
      HeightsAreRead(states, steps, i - 1);
      assert Next(st, step, st');
      if step.FinishRecomputing? {
        StepFills(st, steps, i - 1, st');
      }
      assert Made(steps, i - 1, st.shared.epoch, st.shared.cache)
             ==> Made(steps, i, st.shared.epoch, st.shared.cache);
      forall r | r in st'.readers && st'.readers[r].Returned? && st'.readers[r].h > 0 && st'.readers[r].table != []
        ensures Made(steps, i, st'.readers[r].h, st'.readers[r].table)
      {
        if r in st.readers && st.readers[r] == st'.readers[r] {
          MadeLater(steps, i - 1, st.readers[r].h, st.readers[r].table);
        }
      }
    }
  }

  /** In every interleaving: a non-empty table returned by a call that read a
      height above 0 was computed by a call that had read that same height. */
  lemma ServedAtItsHeight(states: seq<State>, steps: seq<Step>, i: nat, r: nat, h: nat)
    requires IsRun(states, steps) && i < |states| && HeadRead(steps, i, r) == Bytes.Some(h) && h > 0
    requires ReaderOf(states[i], r).Returned? && ReaderOf(states[i], r).table != []
    ensures exists j :: 0 <= j < i && Fills(steps, j, h, ReaderOf(states[i], r).table)
  {
    HeightsAreRead(states, steps, i);
    AllAreMade(states, steps, i);
    assert Made(steps, i, h, ReaderOf(states[i], r).table);
  }

  lemma {:induction false} FillStays(states: seq<State>, steps: seq<Step>, j: nat, i: nat, h: nat, table: seq<Miner>)
    requires IsRun(states, steps) && j < i < |states| && Fills(steps, j, h, table)
    requires forall k :: j < k < i ==> !steps[k].FinishRecomputing? && !steps[k].InvalidateFor?
    ensures states[i].shared.cache == table != [] && states[i].shared.epoch == h
  {
    hide IsTable;
    if i == j + 1 {
      assert Next(states[j], steps[j], states[i]);
      HeightsAreRead(states, steps, j);
      NoEmptyTable(steps[j].entries, states[j].shared.slashed);
    } else {
      FillStays(states, steps, j, i - 1, h, table);
      assert Next(states[i - 1], steps[i - 1], states[i]);
    }
  }

  /** Conversely, until the next fill or invalidation a table is served, and not
      recomputed, to every call that reads its height. */
  lemma FillIsServed(states: seq<State>, steps: seq<Step>, j: nat, i: nat, r: nat, h: nat, table: seq<Miner>)
    returns (st': State)
    requires IsRun(states, steps) && j < i < |states| && Fills(steps, j, h, table)
    requires forall k :: j < k < i ==> !steps[k].FinishRecomputing? && !steps[k].InvalidateFor?
    requires ReaderOf(states[i], r).HasHead? && HeadRead(steps, i, r) == Bytes.Some(h) && states[i].holder == {}
    ensures Next(states[i], ServeCached(r), st') && ReaderOf(st', r).Returned? && ReaderOf(st', r).table == table
    ensures forall t :: !Next(states[i], StartRecomputing(r), t)
  {
    hide HeadRead;
    HeightsAreRead(states, steps, i);
    FillStays(states, steps, j, i, h, table);
    var st := states[i];
    var call := Returned(h, st.done, table, st.shared.madeFrom, st.shared.madeUnder);
    st' := st.(readers := st.readers[r := call]);
  }

  /** The reader's call took the cache lock with step b and has not begun anew since. */
  ghost predicate LockedAt(steps: seq<Step>, b: nat, i: nat, r: nat)
    requires b < i <= |steps|
  {
    && (steps[b] == ServeCached(r) || steps[b] == StartRecomputing(r))
    && forall k :: b < k < i ==> steps[k].ReadHead? ==> steps[k].r != r
  }

  lemma {:induction false} DoneStays(states: seq<State>, steps: seq<Step>, a: nat, b: nat, k: nat)
    requires IsRun(states, steps) && a < b < |states| && steps[a] == InvalidateFor(k)
    ensures k in states[a].slashers && states[a].slashers[k].target in states[b].done
  {
    hide IsTable;
    if b == a + 1 {
      assert Next(states[a], steps[a], states[b]);
    } else {
      DoneStays(states, steps, a, b - 1, k);
      assert Next(states[b - 1], steps[b - 1], states[b]);
    }
  }

  lemma {:induction false} FinishedStays(states: seq<State>, steps: seq<Step>, b: nat, i: nat, r: nat)
    requires IsRun(states, steps) && b < i < |states| && LockedAt(steps, b, i, r)
    ensures var reader := ReaderOf(states[i], r);
            (reader.Recomputing? || reader.Returned?) && reader.finished == states[b].done
  {
    hide IsTable;
    if i == b + 1 {
      assert Next(states[b], steps[b], states[i]);
    } else {
      FinishedStays(states, steps, b, i - 1, r);
      assert Next(states[i - 1], steps[i - 1], states[i]);
    }
  }

  /** The slash of the miner was finished by step a, before the call took the
      lock with step b at a height above 0: the table has no such miner. */
  lemma FinishedSlashStaysOut(states: seq<State>, steps: seq<Step>, a: nat, b: nat, i: nat, r: nat, k: nat)
    requires IsRun(states, steps) && a < b < i < |states|
    requires steps[a] == InvalidateFor(k) && LockedAt(steps, b, i, r)
    requires ReaderOf(states[i], r).Returned? && HeadRead(steps, i, r) != Bytes.Some(0)
    ensures k in states[a].slashers
    ensures forall n :: 0 <= n < |ReaderOf(states[i], r).table| ==>
              ReaderOf(states[i], r).table[n].addr != states[a].slashers[k].target
  {
    hide HeadRead, Next, LockedAt;
    DoneStays(states, steps, a, b, k);
    FinishedStays(states, steps, b, i, r);
    HeightsAreRead(states, steps, i);
    SlashedStayOut(states, steps, i, r);
  }

  /** A reader fills the cache at height 1, a slasher finishes, the reader comes
      again at height 0. */
  function ZeroHeightSteps(m: nat): seq<Step> {
    [ReadHead(0, 1), StartRecomputing(0), FinishRecomputing(0, [Entry(m, 1)], [Miner(m, 1, 100.0)]), MarkTarget(0),
     InvalidateFor(0), ReadHead(0, 0), ServeCached(0)]
  }

  function ZeroHeightStates(m: nat): seq<State> {
    var entries, table := [Entry(m, 1)], [Miner(m, 1, 100.0)];
    var s0 := State(INITIAL, map[], map[0 := Pending(m)], {}, {});
    var s1 := s0.(readers := s0.readers[0 := HasHead(1)]);
    var s2 := s1.(readers := s1.readers[0 := Recomputing(1, {})], holder := {0});
    var made := Store(INITIAL, 1, entries, table);
    var s3 := s2.(shared := made, readers := s2.readers[0 := Returned(1, {}, table, entries, {})], holder := {});
    var s4 := s3.(shared := Mark(made, m), slashers := s3.slashers[0 := Marked(m)]);
    var s5 := s4.(shared := Invalidate(Mark(made, m)), slashers := s4.slashers[0 := Finished(m)],
                  done := s4.done + {m});
    var s6 := s5.(readers := s5.readers[0 := HasHead(0)]);
    var s7 := s6.(readers := s6.readers[0 := Returned(0, s6.done, table, entries, {})]);
    [s0, s1, s2, s3, s4, s5, s6, s7]
  }

  lemma ZeroHeightFills(m: nat)
    ensures var ss, steps := ZeroHeightStates(m), ZeroHeightSteps(m);
            Next(ss[0], steps[0], ss[1]) && Next(ss[1], steps[1], ss[2]) && Next(ss[2], steps[2], ss[3])
  {
    hide IsTable;
    SingletonTable(m);
  }

  lemma ZeroHeightSlashes(m: nat)
    ensures var ss, steps := ZeroHeightStates(m), ZeroHeightSteps(m);
            Next(ss[3], steps[3], ss[4]) && Next(ss[4], steps[4], ss[5])
  {
  }

  lemma ZeroHeightServes(m: nat)
    ensures var ss, steps := ZeroHeightStates(m), ZeroHeightSteps(m);
            Next(ss[5], steps[5], ss[6]) && Next(ss[6], steps[6], ss[7])
  {
  }

  /** At height 0 both fail: the invalidated epoch is the cached one, and a table
      made at height 1, with the slashed miner, is served from the cache. */
  lemma ZeroHeightServesSlashed(m: nat) returns (states: seq<State>, steps: seq<Step>)
    ensures IsRun(states, steps)
    ensures var call := ReaderOf(states[|steps|], 0);
            call.Returned? && call.h == 0 && m in call.finished && |call.table| == 1 && call.table[0].addr == m
    ensures HeadRead(steps, |steps|, 0) == Bytes.Some(0)
    ensures forall j, table: seq<Miner> :: 0 <= j < |steps| ==> !Fills(steps, j, 0, table)
  {
    hide Next;
    states, steps := ZeroHeightStates(m), ZeroHeightSteps(m);
    ZeroHeightFills(m);
    ZeroHeightSlashes(m);
    ZeroHeightServes(m);
    assert HeadRead(steps, 1, 0) == HeadRead(steps, 2, 0) == Bytes.Some(1);
  }

  /** No call at height h, in any run, ever returns a miner whose slash had
      finished when the call took the cache lock. */
  ghost predicate CleanAt(h: nat) {
    forall states: seq<State>, steps: seq<Step>, i: nat, r: nat ::
      IsRun(states, steps) && i < |states| && r in states[i].readers ==> CleanCall(states[i].readers[r], h)
  }

  ghost predicate CleanCall(call: Reader, h: nat) {
    call.Returned? && call.h == h ==> forall k :: 0 <= k < |call.table| ==> call.table[k].addr !in call.finished
  }

  /** That is so exactly above height 0. */
  lemma CleanExactly(h: nat)
    ensures CleanAt(h) <==> h > 0
  {
    hide IsRun;
    if h > 0 {
      forall states: seq<State>, steps: seq<Step>, i: nat, r: nat
        | IsRun(states, steps) && i < |states| && r in states[i].readers
        ensures CleanCall(states[i].readers[r], h)
      {
        if states[i].readers[r].Returned? && states[i].readers[r].h == h {
          SlashedStayOut(states, steps, i, r);
        }
      }
    } else {
      var states, steps := ZeroHeightServesSlashed(0);
      RunLength(states, steps);
      var call := ReaderOf(states[|steps|], 0);
      assert 0 in states[|steps|].readers && call.table[0].addr in call.finished;
      assert !CleanCall(states[|steps|].readers[0], 0);
    }
  }

  /** In no run does a call that read height h return a table made at another height. */
  ghost predicate FreshAt(h: nat) {
    forall states: seq<State>, steps: seq<Step>, i: nat, r: nat ::
      IsRun(states, steps) && i < |states| && HeadRead(steps, i, r) == Bytes.Some(h) ==>
        FreshCall(ReaderOf(states[i], r), steps, i, h)
  }

  ghost predicate FreshCall(call: Reader, steps: seq<Step>, i: nat, h: nat)
    requires i <= |steps|
  {
    call.Returned? && call.table != [] ==> Made(steps, i, h, call.table)
  }

  /** That too is so exactly above height 0. */
  lemma FreshExactly(h: nat)
    ensures FreshAt(h) <==> h > 0
  {
    hide HeadRead;
    if h > 0 {
      forall states: seq<State>, steps: seq<Step>, i: nat, r: nat
        | IsRun(states, steps) && i < |states| && HeadRead(steps, i, r) == Bytes.Some(h)
        ensures FreshCall(ReaderOf(states[i], r), steps, i, h)
      {
        if ReaderOf(states[i], r).Returned? && ReaderOf(states[i], r).table != [] {
          ServedAtItsHeight(states, steps, i, r, h);
        }
      }
    } else {
      hide IsRun, Fills;
      var states, steps := ZeroHeightServesSlashed(0);
      RunLength(states, steps);
      assert !FreshCall(ReaderOf(states[|steps|], 0), steps, |steps|, 0);
    }
  }

  lemma RunLength(states: seq<State>, steps: seq<Step>)
    requires IsRun(states, steps)
    ensures |states| == |steps| + 1
  {
  }

  lemma SingletonTable(m: nat)
    ensures IsTable([Miner(m, 1, 100.0)], [Entry(m, 1)], {})
  {
    var t, e := [Miner(m, 1, 100.0)], [Entry(m, 1)];
    assert e[1..] == [];
    assert Unslashed(e, {}) == e;
    assert Bare(t) == e;
    assert t[1..] == [];
    assert Total(t) == 1;
    assert EntryTotal(e) == 1;
    assert Share(1, 1) == 100.0;
  }

  // --------------------------------------------------------- the critical sections

  /** The globals. Each method is one critical section of one thread and takes
      the corresponding step of the machine; locks are preconditions. */
  class Cache {
    var slashedMiners: set<nat>
    var powerCache: seq<Miner>
    var powerCacheEpoch: nat
    ghost var system: State

    ghost predicate Valid()
      reads this
    {
      var s := system.shared;
      s.slashed == slashedMiners && s.cache == powerCache && s.epoch == powerCacheEpoch
    }

    constructor (ghost slashers: map<nat, Slasher>)
      requires forall k :: k in slashers ==> slashers[k].Pending?
      ensures Valid() && Start(system) && system.slashers == slashers
    {
      slashedMiners, powerCache, powerCacheEpoch := {}, [], 0;
      system := State(INITIAL, map[], slashers, {}, {});
    }

    /** The check under the cache lock, which the reader keeps on a miss. */
    method Lookup(h: nat, ghost r: nat) returns (hit: bool, table: seq<Miner>)
      requires Valid() && ReaderOf(system, r) == HasHead(h) && system.holder == {}
      modifies `system
      ensures Valid() && Next(old(system), if hit then ServeCached(r) else StartRecomputing(r), system)
      ensures hit <==> h == powerCacheEpoch && powerCache != []
      ensures hit ==> table == powerCache && ReaderOf(system, r).Returned? && ReaderOf(system, r).table == table
    {
      hit, table := false, [];
      if h == powerCacheEpoch && |powerCache| > 0 {
        hit, table := true, powerCache;
        system := system.(readers := system.readers[r := Returned(h, system.done, table,
                                                                  system.shared.madeFrom, system.shared.madeUnder)]);
      } else {
        system := system.(readers := system.readers[r := Recomputing(h, system.done)], holder := {r});
      }
    }

    /** What follows the miss: no entries when every fetch failed. */
    method Recompute(h: nat, fetched: Bytes.Option<seq<Entry>>, ghost r: nat) returns (table: seq<Miner>)
      requires Valid() && ReaderOf(system, r).Recomputing? && ReaderOf(system, r).h == h
      modifies this
      ensures Valid() && Next(old(system), RecomputeStep(r, fetched, table), system)
      ensures ReaderOf(system, r).Returned? && ReaderOf(system, r).table == table
      ensures slashedMiners == old(slashedMiners)
      ensures table != [] ==> powerCache == table && powerCacheEpoch == h
      ensures table == [] ==> powerCache == old(powerCache) && powerCacheEpoch == old(powerCacheEpoch)
      ensures table == [] <==> fetched.None? || EntryTotal(Unslashed(fetched.value, slashedMiners)) == 0
      ensures table != [] ==> IsTable(table, fetched.value, slashedMiners)
    {
      hide IsTable;
      ghost var finished := ReaderOf(system, r).finished;
      ghost var empty := system.(readers := system.readers[r := Returned(h, finished, [], [], {})], holder := {});
      if fetched.None? {
        system := empty;
        return [];
      }
      var entries := fetched.value;
      table := BuildTable(entries, slashedMiners);
      if table == [] {
        NoEmptyTable(entries, slashedMiners);
        system := empty;
        return;
      }
      powerCache := table;
      powerCacheEpoch := h;
      system := system.(shared := Store(system.shared, h, entries, table),
                        readers := system.readers[r := Returned(h, finished, table, entries, slashedMiners)],
                        holder := {});
    }

    method MarkSlashed(target: nat, ghost k: nat)
      requires Valid() && k in system.slashers && system.slashers[k] == Pending(target)
      modifies this
      ensures Valid() && Next(old(system), MarkTarget(k), system)
      ensures slashedMiners == old(slashedMiners) + {target}
      ensures powerCache == old(powerCache) && powerCacheEpoch == old(powerCacheEpoch)
    {
      slashedMiners := slashedMiners + {target};
      system := system.(shared := Mark(system.shared, target), slashers := system.slashers[k := Marked(target)]);
    }

    method InvalidateCache(ghost target: nat, ghost k: nat)
      requires Valid() && k in system.slashers && system.slashers[k] == Marked(target) && system.holder == {}
      modifies this
      ensures Valid() && Next(old(system), InvalidateFor(k), system)
      ensures powerCacheEpoch == 0 && powerCache == old(powerCache) && slashedMiners == old(slashedMiners)
    {
      powerCacheEpoch := 0;
      system := system.(shared := Invalidate(system.shared), slashers := system.slashers[k := Finished(target)],
                        done := system.done + {target});
    }
  }

  function RecomputeStep(r: nat, fetched: Bytes.Option<seq<Entry>>, table: seq<Miner>): Step {
    if fetched.None? then FetchFails(r)
    else if table == [] then NoPower(r, fetched.value)
    else FinishRecomputing(r, fetched.value, table)
  }

  lemma NoEmptyTable(entries: seq<Entry>, slashed: set<nat>)
    ensures !IsTable([], entries, slashed)
  {
  }
}
