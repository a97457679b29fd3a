/** F3 stall detection and the finalized-tipset snapshot of
    consensus_vectors.go. */
module StallDetector {
  import opened Bytes
  import opened Nodes

  const STALL_GRACE_EPOCHS := 20
  const EC_FINALITY_DEPTH := 30

  /** One round of replies: the least finalized height, the greatest head, and
      how many nodes reported a finalized height. */
  datatype Obs = Obs(minFin: nat, maxHead: nat, finCount: nat)

  datatype StallState = StallState(lastFinalizedH: nat, headAtLastAdvance: nat, fallbackActive: bool)

  const ZERO := StallState(0, 0, false)

  function Update(prev: StallState, o: Obs): StallState {
    if o.minFin > prev.lastFinalizedH then StallState(o.minFin, o.maxHead, false)
    else if o.finCount >= 2 && o.maxHead - prev.headAtLastAdvance >= STALL_GRACE_EPOCHS && !prev.fallbackActive
    then prev.(fallbackActive := true)
    else prev
  }

  /** The detector after a run of observations from the zero state. */
  function After(obs: seq<Obs>): StallState {
    if obs == [] then ZERO else Update(After(obs[..|obs| - 1]), obs[|obs| - 1])
  }

  // ------------------------------------------------------- what a run amounts to

  /** m is the greatest finalized height observed, or 0. */
  ghost predicate IsPeak(obs: seq<Obs>, m: nat) {
    && (forall i :: 0 <= i < |obs| ==> obs[i].minFin <= m)
    && (m == 0 || exists i :: 0 <= i < |obs| && obs[i].minFin == m)
  }

  /** Observation i strictly raised the finalized height. */
  ghost predicate Raised(obs: seq<Obs>, i: nat)
    requires i < |obs|
  {
    0 < obs[i].minFin && forall j :: 0 <= j < i ==> obs[j].minFin < obs[i].minFin
  }

  /** Observation k is the last that raised it; -1 when none did. */
  ghost predicate IsLastRaise(obs: seq<Obs>, k: int) {
    && -1 <= k < |obs|
    && (k >= 0 ==> Raised(obs, k))
    && forall i :: k < i < |obs| ==> !Raised(obs, i)
  }

  /** Head at the last raise, and 0 before any. */
  function HeadAt(obs: seq<Obs>, k: int): nat
    requires -1 <= k < |obs|
  {
    if k == -1 then 0 else obs[k].maxHead
  }

  /** An observation that counts as a stall since the raise at k. */
  predicate Stalls(obs: seq<Obs>, k: int, i: nat)
    requires -1 <= k < |obs| && i < |obs|
  {
    obs[i].finCount >= 2 && obs[i].maxHead >= HeadAt(obs, k) + 20
  }

  /** Over any run: the height is the running maximum, the head is the one at
      the last raise, and the fallback is active exactly when some later
      observation had two responders and a head 20 epochs past it. */
  lemma {:induction false} RunMeaning(obs: seq<Obs>) returns (k: int)
    ensures IsPeak(obs, After(obs).lastFinalizedH)
    ensures IsLastRaise(obs, k)
    ensures After(obs).headAtLastAdvance == HeadAt(obs, k)
    ensures After(obs).fallbackActive <==> exists i :: k < i < |obs| && Stalls(obs, k, i)
  {
    hide IsPeak, Raised, Stalls;
    if obs == [] {
      NoPeak();
      k := -1;
    } else {
      var last := |obs| - 1;
      var before := obs[..last];
      k := RunMeaning(before);
      var prev := After(before);
      RaisedBefore(obs);
      PeakDecidesRaise(obs, prev.lastFinalizedH);
      PeakStep(obs, prev.lastFinalizedH);
      if Raised(obs, last) {
        k := last;
      } else {
        StallStep(obs, k);
      }
    }
  }

  lemma NoPeak()
    ensures IsPeak([], 0)
  {
  }

  lemma RaisedBefore(obs: seq<Obs>)
    requires obs != []
    ensures forall i :: 0 <= i < |obs| - 1 ==> (Raised(obs, i) <==> Raised(obs[..|obs| - 1], i))
  {
    var before := obs[..|obs| - 1];
    assert forall i :: 0 <= i < |before| ==> before[i] == obs[i];
  }

  /** Without a raise, the last observation turns the fallback on exactly when
      it stalls, unless it is on already. */
  lemma StallStep(obs: seq<Obs>, k: int)
    requires obs != [] && -1 <= k < |obs| - 1
    requires var before, prev := obs[..|obs| - 1], After(obs[..|obs| - 1]);
             && prev.headAtLastAdvance == HeadAt(before, k) && obs[|obs| - 1].minFin <= prev.lastFinalizedH
             && (prev.fallbackActive <==> exists i :: k < i < |before| && Stalls(before, k, i))
    ensures After(obs).fallbackActive <==> exists i :: k < i < |obs| && Stalls(obs, k, i)
  {
    var last := |obs| - 1;
    var before, prev := obs[..last], After(obs[..last]);
    assert HeadAt(before, k) == HeadAt(obs, k);
    assert forall i :: 0 <= i < last ==> (Stalls(obs, k, i) <==> Stalls(before, k, i));
    if prev.fallbackActive {
      var i :| k < i < last && Stalls(before, k, i);
      assert Stalls(obs, k, i);
    } else if Stalls(obs, k, last) {
      assert After(obs).fallbackActive;
    } else {
      forall i | k < i < |obs| ensures !Stalls(obs, k, i) {
        assert i == last || !Stalls(before, k, i);
      }
    }
  }

  lemma PeakDecidesRaise(obs: seq<Obs>, m: nat)
    requires obs != [] && IsPeak(obs[..|obs| - 1], m)
    ensures Raised(obs, |obs| - 1) <==> obs[|obs| - 1].minFin > m
  {
    var last := |obs| - 1;
    var before := obs[..last];
    if obs[last].minFin > m {
      forall j | 0 <= j < last ensures obs[j].minFin < obs[last].minFin {
        assert before[j] == obs[j];
      }
    } else if m > 0 {
      var i :| 0 <= i < |before| && before[i].minFin == m;
      assert obs[i].minFin == m;
    }
  }

  lemma PeakStep(obs: seq<Obs>, m: nat)
    requires obs != [] && IsPeak(obs[..|obs| - 1], m)
    ensures IsPeak(obs, if obs[|obs| - 1].minFin > m then obs[|obs| - 1].minFin else m)
  {
    var last := |obs| - 1;
    var before := obs[..last];
    forall i | 0 <= i < last ensures obs[i].minFin <= m {
      assert before[i].minFin <= m;
    }
    if m > 0 {
      var i :| 0 <= i < |before| && before[i].minFin == m;
      assert obs[i].minFin == m;
    }
  }

  // ------------------------------------------------------------------ snapshots

  /** A finalized tipset as one node reports it; None when the call fails. */
  datatype Tipset = Tipset(height: nat, key: string)
  type Snapshot = map<Node, Option<Tipset>>

  function Responders(snap: Snapshot): set<Node> {
    set n | n in snap && snap[n].Some?
  }

  /** h is the least height among the responders. */
  ghost predicate IsLeastHeight(snap: Snapshot, h: nat) {
    && (forall n :: n in Responders(snap) ==> h <= snap[n].value.height)
    && exists n :: n in Responders(snap) && snap[n].value.height == h
  }

  /** Go iterates a map in any order; the result does not depend on it. */
  method LeastFinalized(snap: Snapshot) returns (minFin: nat, count: nat)
    ensures count == |Responders(snap)|
    ensures count == 0 ==> minFin == 0
    ensures count > 0 ==> IsLeastHeight(snap, minFin)
  {
    minFin, count := 0, 0;
    var left := snap.Keys;
    ghost var seen: set<Node> := {};
    while left != {}
      invariant left <= snap.Keys
      invariant seen == set n | n in snap && n !in left && snap[n].Some?
      invariant count == |seen|
      invariant count == 0 ==> minFin == 0
      invariant forall n :: n in seen ==> minFin <= snap[n].value.height
      invariant count > 0 ==> exists n :: n in seen && snap[n].value.height == minFin
      decreases left
    {
      var n :| n in left;
      left := left - {n};
      if snap[n].None? {
        continue;
      }
      count := count + 1;
      seen := seen + {n};
      if count == 1 || snap[n].value.height < minFin {
        minFin := snap[n].value.height;
      }
    }
    assert seen == Responders(snap);
  }

  /** Zero and no key with fewer than two responders, else the least height and
      the key some node reported at it. */
  method SnapshotMinHeight(snap: Snapshot) returns (minH: nat, minKey: string)
    ensures |Responders(snap)| < 2 ==> minH == 0 && minKey == ""
    ensures |Responders(snap)| >= 2 ==>
              IsLeastHeight(snap, minH) && exists n :: n in snap && snap[n] == Some(Tipset(minH, minKey))
  {
    var count := 0;
    minH, minKey := 0, "";
    var left := snap.Keys;
    ghost var seen: set<Node> := {};
    while left != {}
      invariant left <= snap.Keys
      invariant seen == set n | n in snap && n !in left && snap[n].Some?
      invariant count == |seen|
      invariant forall n :: n in seen ==> minH <= snap[n].value.height
      invariant count > 0 ==> exists n :: n in seen && snap[n] == Some(Tipset(minH, minKey))
      decreases left
    {
      var n :| n in left;
      left := left - {n};
      if snap[n].None? {
        continue;
      }
      count := count + 1;
      seen := seen + {n};
      if count == 1 || snap[n].value.height < minH {
        minH, minKey := snap[n].value.height, snap[n].value.key;
      }
      assert exists m :: m in seen && snap[m] == Some(Tipset(minH, minKey));
    }
    assert seen == Responders(snap);
    if count < 2 {
      return 0, "";
    }
  }

  /** The replies of one round: finalized tipsets, heads, and the heads and
      tipsets by height asked for again when the fallback is on. */
  datatype Replies = Replies(
    finalized: Node -> Option<Tipset>,
    head: Node -> Option<nat>,
    headAgain: Node -> Option<nat>,
    tipsetAt: (Node, nat) -> Option<Tipset>)

  ghost predicate IsGreatestHead(nodeKeys: seq<Node>, head: Node -> Option<nat>, m: nat) {
    && (forall n :: n in nodeKeys && head(n).Some? ==> head(n).value <= m)
    && (m == 0 || exists n :: n in nodeKeys && head(n) == Some(m))
  }

  function F3Snapshot(nodeKeys: seq<Node>, r: Replies): Snapshot {
    map n | n in nodeKeys :: r.finalized(n)
  }

  /** What a node's tipset 30 epochs (but not below 1) under its head is. */
  function EcTipset(r: Replies, n: Node): Option<Tipset> {
    if r.headAgain(n).None? then None
    else
      var depth := r.headAgain(n).value - EC_FINALITY_DEPTH;
      r.tipsetAt(n, if depth < 1 then 1 else depth)
  }

  /** Every node is in the snapshot, with its own finalized tipset or, under the
      fallback, the tipset at 30 below its head, or at 1 when that is less. */
  ghost predicate IsSnapshot(nodeKeys: seq<Node>, snap: Snapshot, r: Replies, fallback: bool) {
    && (forall n :: n in snap <==> n in nodeKeys)
    && forall n :: n in snap ==>
         && (!fallback ==> snap[n] == r.finalized(n))
         && (fallback ==>
               match r.headAgain(n)
               case None => snap[n] == None
               case Some(h) => snap[n] == r.tipsetAt(n, if h > 30 then h - 30 else 1))
  }

  function EcSnapshot(nodeKeys: seq<Node>, r: Replies): Snapshot {
    map n | n in nodeKeys :: EcTipset(r, n)
  }

  class FinalityMonitor {
    const nodeKeys: seq<Node>
    var lastFinalizedH: nat
    var headAtLastAdvance: nat
    var fallbackActive: bool
    var snapCache: Option<Snapshot>
    /** The rounds observed so far. */
    ghost var history: seq<Obs>

    ghost function State(): StallState
      reads this
    {
      StallState(lastFinalizedH, headAtLastAdvance, fallbackActive)
    }

    ghost predicate Valid()
      reads this
    {
      State() == After(history)
    }

    constructor (nodeKeys: seq<Node>)
      ensures Valid() && this.nodeKeys == nodeKeys && history == [] && snapCache == None
    {
      this.nodeKeys := nodeKeys;
      lastFinalizedH, headAtLastAdvance, fallbackActive := 0, 0, false;
      snapCache, history := None, [];
    }

    method GreatestHead(head: Node -> Option<nat>) returns (maxHead: nat)
      ensures IsGreatestHead(nodeKeys, head, maxHead)
    {
      maxHead := 0;
      for i := 0 to |nodeKeys|
        invariant forall n :: n in nodeKeys[..i] && head(n).Some? ==> head(n).value <= maxHead
        invariant maxHead == 0 || exists n :: n in nodeKeys && head(n) == Some(maxHead)
      {
        var h := head(nodeKeys[i]);
        if h.Some? && h.value > maxHead {
          maxHead := h.value;
        }
      }
    }

    method FetchFinalized(r: Replies) returns (snap: Snapshot)
      ensures snap == F3Snapshot(nodeKeys, r)
    {
      snap := map[];
      for i := 0 to |nodeKeys|
        invariant snap.Keys == set n | n in nodeKeys[..i]
        invariant forall n :: n in snap ==> snap[n] == r.finalized(n)
      {
        snap := snap[nodeKeys[i] := r.finalized(nodeKeys[i])];
      }
    }

    method FetchEc(r: Replies, f3: Snapshot) returns (snap: Snapshot)
      requires f3.Keys == set n | n in nodeKeys
      ensures snap == EcSnapshot(nodeKeys, r)
    {
      snap := f3;
      for i := 0 to |nodeKeys|
        invariant snap.Keys == set n | n in nodeKeys
        invariant forall n :: n in nodeKeys[..i] ==> snap[n] == EcTipset(r, n)
      {
        snap := snap[nodeKeys[i] := EcTipset(r, nodeKeys[i])];
      }
    }

    /** Within the time to live the last snapshot is returned. Otherwise one
        round is observed, and the snapshot is the nodes' own finalized tipsets
        or, with the fallback on and a head past 30, their tipsets 30 epochs
        under the head. */
    method GetFinalizedSnapshots(withinTtl: bool, r: Replies) returns (snap: Snapshot)
      requires Valid()
      modifies this
      ensures Valid()
      ensures snapCache == Some(snap)
      ensures old(snapCache.Some?) && withinTtl ==> unchanged(this)
      ensures !(old(snapCache.Some?) && withinTtl) ==>
                && |history| == |old(history)| + 1 && history[..|old(history)|] == old(history)
                && var o := history[|old(history)|];
                   var f3 := F3Snapshot(nodeKeys, r);
                   && o.finCount == |Responders(f3)|
                   && (o.finCount == 0 ==> o.minFin == 0) && (o.finCount > 0 ==> IsLeastHeight(f3, o.minFin))
                   && IsGreatestHead(nodeKeys, r.head, o.maxHead)
                   && snap == (if fallbackActive && o.maxHead > 30 then EcSnapshot(nodeKeys, r) else f3)
                   && IsSnapshot(nodeKeys, snap, r, fallbackActive && o.maxHead > 30)
    {
      if snapCache.Some? && withinTtl {
        return snapCache.value;
      }
      snap := FetchFinalized(r);
      var minFin, finCount := LeastFinalized(snap);
      var maxHead := GreatestHead(r.head);

      var o := Obs(minFin, maxHead, finCount);
      var state := Update(StallState(lastFinalizedH, headAtLastAdvance, fallbackActive), o);
      lastFinalizedH := state.lastFinalizedH;
      headAtLastAdvance := state.headAtLastAdvance;
      fallbackActive := state.fallbackActive;
      assert (history + [o])[..|history|] == history;
      history := history + [o];

      if fallbackActive && maxHead > EC_FINALITY_DEPTH {
        snap := FetchEc(r, snap);
      }
      snapCache := Some(snap);
    }
  }
}
