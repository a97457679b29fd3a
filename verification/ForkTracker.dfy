/** The background fork monitor of consensus_vectors.go: detection, eviction, the
    in-place compaction of the tracked slice, and what holds over all ticks. */
module ForkTracker {
  import opened Bytes
  import opened Nodes

  const CONVERGENCE_BUFFER := 20
  const MAX_TRACKED := 100
  const FINALIZED_MIN_HEIGHT := 5
  const F3_MIN_EPOCH := 21

  datatype Fork = Fork(height: nat, detectedAtHead: nat, tipsets: map<Node, string>)

  datatype Report = Report(fork: Fork, verifiedAtHead: nat, tipsets: map<Node, string>)

  /** The replies of one tick: heads in node order, the finalized height, the
      tipset keys there, and the keys at any height asked for on verification. */
  datatype Tick = Tick(
    partitionActive: bool,
    heads: seq<Option<nat>>,
    finalizedHeight: nat,
    tipsets: map<Node, string>,
    view: nat -> map<Node, string>)

  // ---------------------------------------------------------------- the decisions

  function Responded(heads: seq<Option<nat>>): seq<nat> {
    if heads == [] then []
    else (if heads[0].Some? then [heads[0].value] else []) + Responded(heads[1..])
  }

  /** The code's running minimum, which starts over after a head of 0. */
  function MinHead(heads: seq<nat>): nat {
    if heads == [] then 0
    else
      var m, h := MinHead(heads[..|heads| - 1]), heads[|heads| - 1];
      if m == 0 || h < m then h else m
  }

  lemma MinHeadSnoc(heads: seq<nat>, h: nat)
    ensures var m := MinHead(heads); MinHead(heads + [h]) == if m == 0 || h < m then h else m
  {
    assert (heads + [h])[..|heads|] == heads;
  }

  predicate IsLeastHead(heads: seq<nat>, m: nat) {
    m in heads && forall h :: h in heads ==> m <= h
  }

  /** It is the least head exactly when no head, or the last one, is 0. */
  lemma {:induction false} MinHeadIsLeast(heads: seq<nat>)
    requires heads != []
    ensures IsLeastHead(heads, MinHead(heads)) <==> (0 !in heads || heads[|heads| - 1] == 0)
  {
    var front, h := heads[..|heads| - 1], heads[|heads| - 1];
    assert heads == front + [h];
    if front == [] {
      assert MinHead(front) == 0;
    } else {
      MinHeadIsLeast(front);
      MinHeadZero(front);
    }
  }

  lemma {:induction false} MinHeadZero(heads: seq<nat>)
    ensures heads != [] ==> (MinHead(heads) == 0 <==> heads[|heads| - 1] == 0)
    ensures heads != [] ==> MinHead(heads) in heads
  {
    if |heads| > 1 {
      MinHeadZero(heads[..|heads| - 1]);
    }
  }

  /** What came before a head of 0 is forgotten. */
  lemma {:induction false} MinHeadStartsOver(before: seq<nat>, after: seq<nat>)
    ensures MinHead(before + [0] + after) == MinHead(after)
  {
    if after == [] {
      assert before + [0] + after == before + [0];
      MinHeadSnoc(before, 0);
    } else {
      var front := after[..|after| - 1];
      MinHeadStartsOver(before, front);
      assert (before + [0] + after)[..|before| + |after|] == before + [0] + front;
    }
  }

  predicate Active(t: Tick) {
    && !t.partitionActive
    && |t.heads| >= 2
    && |Responded(t.heads)| >= 2
    && MinHead(Responded(t.heads)) >= F3_MIN_EPOCH
  }

  /** Two different keys were reported at the finalized height. */
  predicate Disagreement(t: Tick) {
    t.finalizedHeight >= FINALIZED_MIN_HEIGHT && |t.tipsets| >= 2 && |t.tipsets.Values| > 1
  }

  predicate Tracks(forks: seq<Fork>, height: nat) {
    exists i :: 0 <= i < |forks| && forks[i].height == height
  }

  predicate Due(f: Fork, minHead: nat) {
    minHead - f.detectedAtHead >= CONVERGENCE_BUFFER
  }

  predicate Resolved(f: Fork, minHead: nat, view: nat -> map<Node, string>) {
    Due(f, minHead) && |view(f.height)| >= 2 && |view(f.height).Values| == 1
  }

  predicate Persists(f: Fork, minHead: nat, view: nat -> map<Node, string>) {
    Due(f, minHead) && |view(f.height)| >= 2 && |view(f.height).Values| != 1
  }

  /** Two nodes report different keys. */
  ghost predicate Differ(tipsets: map<Node, string>) {
    exists a, b :: a in tipsets && b in tipsets && tipsets[a] != tipsets[b]
  }

  lemma KeysExactly(tipsets: map<Node, string>)
    ensures |tipsets.Values| > 1 <==> Differ(tipsets)
    ensures |tipsets| >= 2 ==> (|tipsets.Values| == 1 <==> !Differ(tipsets))
  {
    if Differ(tipsets) {
      var a, b :| a in tipsets && b in tipsets && tipsets[a] != tipsets[b];
      var rest := tipsets.Values - {tipsets[a]};
      assert tipsets[b] in rest && |tipsets.Values| == |rest| + 1 && |rest| > 0;
    } else if |tipsets| > 0 {
      var a :| a in tipsets.Keys;
      assert tipsets.Values == {tipsets[a]} by {
        forall v | v in tipsets.Values ensures v == tipsets[a] {
          var b :| b in tipsets && tipsets[b] == v;
        }
      }
    } else {
      assert tipsets.Values == {} by {
        forall v ensures v !in tipsets.Values {
        }
      }
    }
  }

  lemma {:induction false} RespondedExactly(heads: seq<Option<nat>>)
    ensures forall h :: h in Responded(heads) <==> exists i :: 0 <= i < |heads| && heads[i] == Some(h)
    ensures |Responded(heads)| >= 1 <==> exists i :: 0 <= i < |heads| && heads[i].Some?
    ensures |Responded(heads)| >= 2 <==> exists i, j :: 0 <= i < j < |heads| && heads[i].Some? && heads[j].Some?
  {
    if heads != [] {
      var rest := heads[1..];
      RespondedExactly(rest);
      assert forall i :: 0 <= i < |rest| ==> rest[i] == heads[i + 1];
      if i :| 0 <= i < |rest| && rest[i].Some? {
        assert heads[i + 1].Some?;
      }
      if i, j :| 0 <= i < j < |rest| && rest[i].Some? && rest[j].Some? {
        assert heads[i + 1].Some? && heads[j + 1].Some?;
      }
      if i, j :| 0 <= i < j < |heads| && heads[i].Some? && heads[j].Some? {
        assert rest[j - 1].Some?;
        assert i > 0 ==> rest[i - 1].Some?;
      }
      forall h ensures h in Responded(heads) <==> exists i :: 0 <= i < |heads| && heads[i] == Some(h) {
        if i :| 0 <= i < |heads| && heads[i] == Some(h) {
          assert i > 0 ==> rest[i - 1] == Some(h);
        }
        if i :| 0 <= i < |rest| && rest[i] == Some(h) {
          assert heads[i + 1] == Some(h);
        }
      }
    }
  }

  /** Without heads at 0, a tick does its work exactly when no partition is on, two
      nodes answer and every answered head is at 21 or above. */
  lemma ActiveExactly(t: Tick)
    requires forall i :: 0 <= i < |t.heads| ==> t.heads[i] != Some(0)
    ensures Active(t) <==>
              && !t.partitionActive
              && (exists i, j :: 0 <= i < j < |t.heads| && t.heads[i].Some? && t.heads[j].Some?)
              && forall i :: 0 <= i < |t.heads| && t.heads[i].Some? ==> t.heads[i].value >= 21
    ensures Active(t) ==> IsLeastHead(Responded(t.heads), MinHead(Responded(t.heads)))
  {
    hide Responded, MinHead;
    var heads := Responded(t.heads);
    RespondedExactly(t.heads);
    if heads != [] {
      MinHeadIsLeast(heads);
      forall i | 0 <= i < |t.heads| && t.heads[i].Some? ensures t.heads[i].value in heads {
        assert t.heads[i] == Some(t.heads[i].value);
      }
    }
  }

  function Detected(forks: seq<Fork>, minHead: nat, t: Tick): seq<Fork> {
    if !Disagreement(t) || Tracks(forks, t.finalizedHeight) then forks
    else
      (if |forks| >= MAX_TRACKED then forks[1..] else forks)
      + [Fork(t.finalizedHeight, minHead, t.tipsets)]
  }

  /** The tracked forks that are not resolved, in order. */
  function Unresolved(forks: seq<Fork>, minHead: nat, view: nat -> map<Node, string>): seq<Fork> {
    if forks == [] then []
    else
      (if Resolved(forks[0], minHead, view) then [] else [forks[0]]) + Unresolved(forks[1..], minHead, view)
  }

  function Reports(forks: seq<Fork>, minHead: nat, view: nat -> map<Node, string>): seq<Report> {
    if forks == [] then []
    else
      (if Persists(forks[0], minHead, view) then [Report(forks[0], minHead, view(forks[0].height))] else [])
      + Reports(forks[1..], minHead, view)
  }

  function AfterTick(forks: seq<Fork>, t: Tick): seq<Fork> {
    if !Active(t) then forks
    else
      var minHead := MinHead(Responded(t.heads));
      Unresolved(Detected(forks, minHead, t), minHead, t.view)
  }

  function TickReports(forks: seq<Fork>, t: Tick): seq<Report> {
    if !Active(t) then []
    else
      var minHead := MinHead(Responded(t.heads));
      Reports(Detected(forks, minHead, t), minHead, t.view)
  }

  // -------------------------------------------------------------------- the tracker

  lemma {:induction false} UnresolvedSnoc(forks: seq<Fork>, f: Fork, minHead: nat, view: nat -> map<Node, string>)
    ensures Unresolved(forks + [f], minHead, view)
         == Unresolved(forks, minHead, view) + (if Resolved(f, minHead, view) then [] else [f])
  {
    hide Resolved;
    if forks == [] {
      assert forks + [f] == [f];
    } else {
      UnresolvedSnoc(forks[1..], f, minHead, view);
      assert (forks + [f])[1..] == forks[1..] + [f];
    }
  }

  lemma {:induction false} ReportsSnoc(forks: seq<Fork>, f: Fork, minHead: nat, view: nat -> map<Node, string>)
    ensures Reports(forks + [f], minHead, view)
         == Reports(forks, minHead, view)
            + (if Persists(f, minHead, view) then [Report(f, minHead, view(f.height))] else [])
  {
    hide Persists;
    if forks == [] {
      assert forks + [f] == [f];
    } else {
      ReportsSnoc(forks[1..], f, minHead, view);
      assert (forks + [f])[1..] == forks[1..] + [f];
    }
  }

  lemma {:induction false} RespondedSnoc(heads: seq<Option<nat>>, h: Option<nat>)
    ensures Responded(heads + [h]) == Responded(heads) + (if h.Some? then [h.value] else [])
  {
    if heads == [] {
      assert heads + [h] == [h];
    } else {
      RespondedSnoc(heads[1..], h);
      assert (heads + [h])[1..] == heads[1..] + [h];
    }
  }

  /** Whether a fork stays tracked, and the report it gives rise to, if any. */
  method Recheck(tf: Fork, minHead: nat, view: nat -> map<Node, string>) returns (keep: bool, report: seq<Report>)
    ensures keep == !Resolved(tf, minHead, view)
    ensures report == if Persists(tf, minHead, view) then [Report(tf, minHead, view(tf.height))] else []
  {
    if minHead - tf.detectedAtHead < CONVERGENCE_BUFFER {
      return true, [];
    }
    var nodeTipsets := view(tf.height);
    if |nodeTipsets| < 2 {
      return true, [];
    }
    var keys := nodeTipsets.Values;
    var resolved := |keys| == 1;
    if resolved {
      return false, [];
    }
    return true, [Report(tf, minHead, nodeTipsets)];
  }

  lemma VerifyBase(minHead: nat, view: nat -> map<Node, string>)
    ensures Unresolved([], minHead, view) == [] && Reports([], minHead, view) == []
  {
  }

  /** The heads that came back: how many, and their running minimum. */
  method LeastHead(heads: seq<Option<nat>>) returns (minHead: nat, responded: nat)
    ensures responded == |Responded(heads)| && minHead == MinHead(Responded(heads))
  {
    minHead, responded := 0, 0;
    for i := 0 to |heads|
      invariant responded == |Responded(heads[..i])|
      invariant minHead == MinHead(Responded(heads[..i]))
    {
      assert heads[..i + 1] == heads[..i] + [heads[i]];
      RespondedSnoc(heads[..i], heads[i]);
      if heads[i].None? {
        assert Responded(heads[..i]) + [] == Responded(heads[..i]);
        continue;
      }
      var h := heads[i].value;
      MinHeadSnoc(Responded(heads[..i]), h);
      responded := responded + 1;
      if minHead == 0 || h < minHead {
        minHead := h;
      }
    }
    assert heads[..|heads|] == heads;
  }

  /** Walks over the n elements of storage from start on and writes the ones that
      stay back from start on; returns how many stay. */
  method CompactInPlace(storage: array<Fork>, start: nat, n: nat, minHead: nat, view: nat -> map<Node, string>)
    returns (remaining: nat, reports: seq<Report>)
    requires start + n <= storage.Length
    modifies storage
    ensures remaining <= n
    ensures storage[start..start + remaining] == Unresolved(old(storage[start..start + n]), minHead, view)
    ensures reports == Reports(old(storage[start..start + n]), minHead, view)
  {
    hide Unresolved, Reports, Resolved, Persists;
    ghost var all := storage[start..start + n];
    remaining, reports := 0, [];
    VerifyBase(minHead, view);
    assert all[..0] == [];
    for i := 0 to n
      invariant remaining <= i
      invariant forall k :: start + i <= k < start + n ==> storage[k] == old(storage[k])
      invariant storage[start..start + remaining] == Unresolved(all[..i], minHead, view)
      invariant reports == Reports(all[..i], minHead, view)
    {
      var tf := storage[start + i];
      assert tf == all[i];
      assert all[..i + 1] == all[..i] + [tf];
      UnresolvedSnoc(all[..i], tf, minHead, view);
      ReportsSnoc(all[..i], tf, minHead, view);
      ghost var kept := storage[start..start + remaining];
      var keep, report := Recheck(tf, minHead, view);
      reports := reports + report;
      if keep {
        storage[start + remaining] := tf;
        remaining := remaining + 1;
        assert storage[start..start + remaining] == kept + [tf];
      }
    }
    assert all[..n] == all;
  }

  class Tracker {
    /** The slice trackedForks: `count` elements of its storage from `start` on. */
    var storage: array<Fork>
    var start: nat
    var count: nat

    ghost predicate Valid()
      reads this
    {
      start + count <= storage.Length
    }

    ghost function Forks(): seq<Fork>
      requires Valid()
      reads this, storage
    {
      storage[start..start + count]
    }

    constructor ()
      ensures Valid() && fresh(storage) && Forks() == []
    {
      storage := new Fork[0](_ => Fork(0, 0, map[]));
      start, count := 0, 0;
    }

    /** Go's append: in place while the storage has room behind the slice, else
        into new storage. */
    method Append(f: Fork)
      requires Valid()
      modifies this, storage
      ensures Valid() && (storage == old(storage) || fresh(storage))
      ensures Forks() == old(Forks()) + [f]
    {
      if start + count == storage.Length {
        var larger := new Fork[2 * count + 1](_ => f);
        forall i | 0 <= i < count {
          larger[i] := storage[start + i];
        }
        assert larger[..count] == Forks();
        storage, start := larger, 0;
      }
      storage[start + count] := f;
      count := count + 1;
    }

    method DetectForks(minHead: nat, t: Tick)
      requires Valid()
      modifies this, storage
      ensures Valid() && (storage == old(storage) || fresh(storage))
      ensures Forks() == Detected(old(Forks()), minHead, t)
    {
      if t.finalizedHeight < FINALIZED_MIN_HEIGHT {
        return;
      }
      var nodeTipsets := t.tipsets;
      if |nodeTipsets| < 2 {
        return;
      }
      var keys := nodeTipsets.Values;
      if |keys| <= 1 {
        return;
      }
      for i := 0 to count
        invariant !Tracks(Forks()[..i], t.finalizedHeight)
      {
        if storage[start + i].height == t.finalizedHeight {
          assert Forks()[i].height == t.finalizedHeight;
          return;
        }
        assert Forks()[i].height != t.finalizedHeight;
      }
      assert Forks()[..count] == Forks();
      if count >= MAX_TRACKED {
        start, count := start + 1, count - 1;
        assert Forks() == old(Forks())[1..];
      }
      Append(Fork(t.finalizedHeight, minHead, nodeTipsets));
    }

    /** Re-checks the due forks, compacting the slice in place. */
    method VerifyForks(minHead: nat, view: nat -> map<Node, string>) returns (reports: seq<Report>)
      requires Valid()
      modifies this, storage
      ensures Valid() && storage == old(storage)
      ensures Forks() == Unresolved(old(Forks()), minHead, view)
      ensures reports == Reports(old(Forks()), minHead, view)
    {
      count, reports := CompactInPlace(storage, start, count, minHead, view);
    }

    method ForkMonitorTick(t: Tick) returns (reports: seq<Report>)
      requires Valid()
      modifies this, storage
      ensures Valid() && (storage == old(storage) || fresh(storage))
      ensures Forks() == AfterTick(old(Forks()), t)
      ensures reports == TickReports(old(Forks()), t)
    {
      reports := [];
      if |t.heads| < 2 || t.partitionActive {
        return;
      }
      var minHead, responded := LeastHead(t.heads);
      if responded < 2 || minHead < F3_MIN_EPOCH {
        return;
      }
      DetectForks(minHead, t);
      reports := VerifyForks(minHead, t.view);
    }
  }

  // ------------------------------------------------------------------ over all ticks

  /** A tracked fork and the tick that detected it. */
  datatype Origin = Origin(fork: Fork, tick: nat)

  function AfterAll(ticks: seq<Tick>): seq<Fork> {
    if ticks == [] then [] else AfterTick(AfterAll(ticks[..|ticks| - 1]), ticks[|ticks| - 1])
  }

  /** The fork is what the disagreement seen at its tick amounts to. */
  ghost predicate FromTick(ticks: seq<Tick>, o: Origin) {
    && o.tick < |ticks|
    && var t := ticks[o.tick];
       && Active(t) && Disagreement(t)
       && o.fork == Fork(t.finalizedHeight, MinHead(Responded(t.heads)), t.tipsets)
  }

  function ForksOf(origins: seq<Origin>): (forks: seq<Fork>)
    ensures |forks| == |origins|
  {
    seq(|origins|, i requires 0 <= i < |origins| => origins[i].fork)
  }

  ghost predicate Ordered(origins: seq<Origin>) {
    && (forall i, j :: 0 <= i < j < |origins| ==> origins[i].tick < origins[j].tick)
    && (forall i, j :: 0 <= i < j < |origins| ==> origins[i].fork.height != origins[j].fork.height)
  }

  ghost predicate AllFromTicks(ticks: seq<Tick>, origins: seq<Origin>) {
    forall i :: 0 <= i < |origins| ==> FromTick(ticks, origins[i])
  }

  lemma {:induction false} FilterOrigins(origins: seq<Origin>, minHead: nat, view: nat -> map<Node, string>)
    returns (kept: seq<Origin>)
    requires Ordered(origins)
    ensures Ordered(kept) && |kept| <= |origins|
    ensures ForksOf(kept) == Unresolved(ForksOf(origins), minHead, view)
    ensures forall o :: o in kept ==> o in origins
    decreases |origins|
  {
    hide Ordered, Resolved;
    if origins == [] {
      kept := [];
    } else {
      DropOldest(origins);
      var rest := FilterOrigins(origins[1..], minHead, view);
      if Resolved(origins[0].fork, minHead, view) {
        kept := rest;
        assert [] + ForksOf(rest) == ForksOf(rest);
      } else {
        kept := [origins[0]] + rest;
        PutBack(origins, rest);
      }
    }
  }

  /** The first origin in front of some of the others, in order. */
  lemma PutBack(origins: seq<Origin>, rest: seq<Origin>)
    requires origins != [] && Ordered(origins) && Ordered(rest)
    requires forall o :: o in rest ==> o in origins[1..]
    ensures Ordered([origins[0]] + rest)
    ensures ForksOf([origins[0]] + rest) == [origins[0].fork] + ForksOf(rest)
  {
    forall j | 0 <= j < |rest|
      ensures origins[0].tick < rest[j].tick && origins[0].fork.height != rest[j].fork.height
    {
      assert rest[j] in origins[1..];
      var k :| 0 <= k < |origins[1..]| && origins[1..][k] == rest[j];
      assert origins[k + 1] == rest[j];
    }
  }

  lemma AddOrigin(base: seq<Origin>, newest: Origin)
    requires Ordered(base)
    requires forall i :: 0 <= i < |base| ==>
               base[i].tick < newest.tick && base[i].fork.height != newest.fork.height
    ensures Ordered(base + [newest])
    ensures ForksOf(base + [newest]) == ForksOf(base) + [newest.fork]
  {
  }

  lemma DropOldest(origins: seq<Origin>)
    requires Ordered(origins) && origins != []
    ensures Ordered(origins[1..]) && ForksOf(origins[1..]) == ForksOf(origins)[1..]
  {
  }

  lemma MoreTicks(ticks: seq<Tick>, origins: seq<Origin>, t: Tick)
    requires AllFromTicks(ticks, origins)
    ensures AllFromTicks(ticks + [t], origins)
    ensures forall i :: 0 <= i < |origins| ==> origins[i].tick < |ticks|
  {
    forall i | 0 <= i < |origins| ensures FromTick(ticks + [t], origins[i]) && origins[i].tick < |ticks| {
      assert FromTick(ticks, origins[i]);
    }
  }

  lemma NewestFromTick(ticks: seq<Tick>, t: Tick, minHead: nat)
    requires Active(t) && Disagreement(t) && minHead == MinHead(Responded(t.heads))
    ensures FromTick(ticks + [t], Origin(Fork(t.finalizedHeight, minHead, t.tipsets), |ticks|))
  {
    assert (ticks + [t])[|ticks|] == t;
  }

  lemma DetectOrigins(ticks: seq<Tick>, origins: seq<Origin>, t: Tick, minHead: nat) returns (more: seq<Origin>)
    requires Ordered(origins) && AllFromTicks(ticks, origins) && |origins| <= MAX_TRACKED
    requires Active(t) && minHead == MinHead(Responded(t.heads))
    ensures Ordered(more) && AllFromTicks(ticks + [t], more) && |more| <= MAX_TRACKED
    ensures ForksOf(more) == Detected(ForksOf(origins), minHead, t)
  {
    hide Disagreement, Active, MinHead, Responded, FromTick, Ordered;
    MoreTicks(ticks, origins, t);
    if !Disagreement(t) || Tracks(ForksOf(origins), t.finalizedHeight) {
      more := origins;
    } else {
      var base := origins;
      if |origins| >= MAX_TRACKED {
        DropOldest(origins);
        base := origins[1..];
      }
      forall o | o in base ensures o.tick < |ticks| && o.fork.height != t.finalizedHeight {
        var k :| 0 <= k < |origins| && origins[k] == o;
        assert ForksOf(origins)[k] == o.fork;
      }
      var newest := Origin(Fork(t.finalizedHeight, minHead, t.tipsets), |ticks|);
      NewestFromTick(ticks, t, minHead);
      AddOrigin(base, newest);
      more := base + [newest];
    }
  }

  /** After any ticks: at most 100 forks, at pairwise different heights, in the
      order of the ticks that detected them, each one the disagreement its tick saw. */
  lemma {:induction false} TrackedForks(ticks: seq<Tick>) returns (origins: seq<Origin>)
    ensures ForksOf(origins) == AfterAll(ticks)
    ensures |AfterAll(ticks)| <= MAX_TRACKED
    ensures Ordered(origins) && AllFromTicks(ticks, origins)
    decreases |ticks|
  {
    if ticks == [] {
      origins := [];
    } else {
      var before, t := ticks[..|ticks| - 1], ticks[|ticks| - 1];
      assert ticks == before + [t];
      origins := TrackedForks(before);
      if Active(t) {
        var minHead := MinHead(Responded(t.heads));
        var detected := DetectOrigins(before, origins, t, minHead);
        origins := FilterOrigins(detected, minHead, t.view);
        forall i | 0 <= i < |origins| ensures FromTick(ticks, origins[i]) {
          assert origins[i] in detected;
        }
      } else {
        forall i | 0 <= i < |origins| ensures FromTick(ticks, origins[i]) {
          assert FromTick(before, origins[i]);
        }
      }
    }
  }

  lemma {:induction false} ReportOrigin(forks: seq<Fork>, minHead: nat, view: nat -> map<Node, string>, r: Report)
    requires r in Reports(forks, minHead, view)
    ensures r.fork in forks && Persists(r.fork, minHead, view)
    ensures r == Report(r.fork, minHead, view(r.fork.height))
  {
    if !(Persists(forks[0], minHead, view) && r == Report(forks[0], minHead, view(forks[0].height))) {
      ReportOrigin(forks[1..], minHead, view, r);
    }
  }

  /** A persistent fork is reported only at a height where some earlier tick saw
      two different keys, and where this tick sees two again, with the least head
      20 or more epochs further on. */
  lemma ReportsAreEarned(before: seq<Tick>, t: Tick, r: Report) returns (k: nat)
    requires r in TickReports(AfterAll(before), t)
    ensures k < |before| && Active(before[k]) && Disagreement(before[k])
    ensures r.fork.height == before[k].finalizedHeight
    ensures Active(t) && |t.view(r.fork.height).Values| >= 2
    ensures MinHead(Responded(t.heads)) >= MinHead(Responded(before[k].heads)) + CONVERGENCE_BUFFER
  {
    var minHead := MinHead(Responded(t.heads));
    var forks := Detected(AfterAll(before), minHead, t);
    ReportOrigin(forks, minHead, t.view, r);
    SomeKey(t.view(r.fork.height));
    var origins := TrackedForks(before);
    var detected := DetectOrigins(before, origins, t, minHead);
    var i :| 0 <= i < |forks| && forks[i] == r.fork;
    assert FromTick(before + [t], detected[i]);
    k := detected[i].tick;
    assert k < |before|;
  }

  lemma SomeKey(m: map<Node, string>)
    requires |m| >= 2
    ensures |m.Values| >= 1
  {
    assert m.Keys != {};
    var n :| n in m.Keys;
    assert m[n] in m.Values;
  }

  lemma {:induction false} UnresolvedMembers(forks: seq<Fork>, minHead: nat, view: nat -> map<Node, string>, f: Fork)
    ensures f in Unresolved(forks, minHead, view) <==> f in forks && !Resolved(f, minHead, view)
  {
    if forks != [] {
      UnresolvedMembers(forks[1..], minHead, view, f);
      assert forks == [forks[0]] + forks[1..];
    }
  }

  /** A fork leaves the tracker only resolved, or as the oldest of 100 making
      room for a new one. */
  lemma WhyForksLeave(forks: seq<Fork>, t: Tick, f: Fork)
    requires f in forks && f !in AfterTick(forks, t)
    ensures Active(t)
    ensures var minHead := MinHead(Responded(t.heads));
            || Resolved(f, minHead, t.view)
            || (f == forks[0] && |forks| >= MAX_TRACKED && Disagreement(t) && !Tracks(forks, t.finalizedHeight))
  {
    var minHead := MinHead(Responded(t.heads));
    var detected := Detected(forks, minHead, t);
    UnresolvedMembers(detected, minHead, t.view, f);
    if f !in detected {
      assert forks == [forks[0]] + forks[1..];
    }
  }

  lemma {:induction false} ReportMembers(forks: seq<Fork>, minHead: nat, view: nat -> map<Node, string>, r: Report)
    ensures r in Reports(forks, minHead, view) <==>
              r.fork in forks && Persists(r.fork, minHead, view) && r == Report(r.fork, minHead, view(r.fork.height))
  {
    if forks != [] {
      ReportMembers(forks[1..], minHead, view, r);
      assert forks == [forks[0]] + forks[1..];
    }
  }

  /** The re-check of a tracked fork: due after 20 epochs, and answered by two nodes. */
  ghost predicate Rechecked(f: Fork, t: Tick) {
    MinHead(Responded(t.heads)) >= f.detectedAtHead + 20 && |t.view(f.height)| >= 2
  }

  /** On an active tick a tracked fork is reported exactly when it is re-checked and
      two nodes still differ, and let go exactly when it is re-checked and none do. */
  lemma ReportedExactly(forks: seq<Fork>, t: Tick, f: Fork)
    requires Active(t) && f in Detected(forks, MinHead(Responded(t.heads)), t)
    ensures Report(f, MinHead(Responded(t.heads)), t.view(f.height)) in TickReports(forks, t)
            <==> Rechecked(f, t) && Differ(t.view(f.height))
    ensures f !in AfterTick(forks, t) <==> Rechecked(f, t) && !Differ(t.view(f.height))
  {
    hide Active, MinHead, Responded, Detected, Differ;
    var minHead := MinHead(Responded(t.heads));
    KeysExactly(t.view(f.height));
    ReportMembers(Detected(forks, minHead, t), minHead, t.view, Report(f, minHead, t.view(f.height)));
    UnresolvedMembers(Detected(forks, minHead, t), minHead, t.view, f);
  }

  /** The fork a tick would record. */
  function Seen(t: Tick): Fork {
    Fork(t.finalizedHeight, MinHead(Responded(t.heads)), t.tipsets)
  }

  /** Two nodes differ at a finalized height of 5 or more that is not tracked: then,
      and only then, the fork is recorded, last, the oldest of 100 making room. */
  lemma DetectedExactly(forks: seq<Fork>, t: Tick)
    ensures var d := Detected(forks, MinHead(Responded(t.heads)), t);
            var isNew := t.finalizedHeight >= 5 && Differ(t.tipsets)
                         && forall i :: 0 <= i < |forks| ==> forks[i].height != t.finalizedHeight;
            && (!isNew ==> d == forks)
            && (isNew && |forks| < 100 ==> d == forks + [Seen(t)])
            && (isNew && |forks| >= 100 ==> d == forks[1..] + [Seen(t)])
  {
    KeysExactly(t.tipsets);
    if Differ(t.tipsets) {
      TwoNodes(t.tipsets);
    }
  }

  lemma TwoNodes(tipsets: map<Node, string>)
    requires Differ(tipsets)
    ensures |tipsets| >= 2
  {
    var a, b :| a in tipsets && b in tipsets && tipsets[a] != tipsets[b];
    var rest := tipsets.Keys - {a};
    assert b in rest && |tipsets.Keys| == |rest| + 1 && |rest| > 0 && |tipsets| == |tipsets.Keys|;
  }

  /** Tick k does not let the fork go and has room. */
  ghost predicate Spared(ticks: seq<Tick>, k: nat, f: Fork)
    requires k < |ticks|
  {
    && |AfterAll(ticks[..k])| < 100
    && (Active(ticks[k]) && Rechecked(f, ticks[k]) ==> Differ(ticks[k].view(f.height)))
  }

  lemma {:induction false} StaysTracked(ticks: seq<Tick>, a: nat, b: nat, f: Fork)
    requires a <= b <= |ticks| && f in AfterAll(ticks[..a])
    requires forall k :: a <= k < b ==> Spared(ticks, k, f)
    ensures f in AfterAll(ticks[..b])
  {
    hide Detected, Rechecked, Differ;
    if a < b {
      StaysTracked(ticks, a, b - 1, f);
      var forks, t := AfterAll(ticks[..b - 1]), ticks[b - 1];
      assert ticks[..b][..b - 1] == ticks[..b - 1];
      assert Spared(ticks, b - 1, f);
      if Active(t) {
        DetectedExactly(forks, t);
        ReportedExactly(forks, t, f);
      }
    }
  }

  /** A fork seen on an active tick is reported by every later active tick, 20 or
      more epochs on, that sees two nodes differ again, unless a tick in between
      found no difference or the tracker was full. */
  lemma PersistentForkIsReported(ticks: seq<Tick>, a: nat, b: nat)
    requires a < b < |ticks| && Active(ticks[a]) && Active(ticks[b])
    requires ticks[a].finalizedHeight >= 5 && Differ(ticks[a].tipsets)
    requires forall f :: f in AfterAll(ticks[..a]) ==> f.height != ticks[a].finalizedHeight
    requires forall k :: a <= k <= b ==> Spared(ticks, k, Seen(ticks[a]))
    requires Rechecked(Seen(ticks[a]), ticks[b]) && Differ(ticks[b].view(ticks[a].finalizedHeight))
    ensures exists r :: r in TickReports(AfterAll(ticks[..b]), ticks[b]) && r.fork == Seen(ticks[a])
  {
    hide Detected, Differ, Active, TickReports;
    var f, forks, t := Seen(ticks[a]), AfterAll(ticks[..a]), ticks[b];
    assert Spared(ticks, a, f) && Spared(ticks, b, f);
    DetectedExactly(forks, ticks[a]);
    ReportedExactly(forks, ticks[a], f);
    assert ticks[..a + 1][..a] == ticks[..a];
    StaysTracked(ticks, a + 1, b, f);
    DetectedExactly(AfterAll(ticks[..b]), t);
    ReportedExactly(AfterAll(ticks[..b]), t, f);
  }
}
