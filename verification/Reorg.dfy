/** The rapid split and heal cycles of reorg_vectors.go on the same network. */
module Reorg {
  import opened Network
  import opened Nodes
  import opened Partition

  /** Forest nodes that a split of the victim does not bar: those that were not
      its peers, or all of them when the victim itself is a Forest node. */
  function Loose(nodes: set<Node>, victim: Node, peers: seq<Node>): set<Node> {
    set x | x in nodes && x != victim && IsForest(x) && (x !in peers || IsForest(victim))
  }

  /** Entries a split can add. */
  ghost predicate OfSplit(b: Block, victim: Node, peers: seq<Node>, victimId: Node) {
    (b.on == victim && b.peer in peers) || (b.on != victim && b.peer == victimId)
  }

  /** A node on which one of the two blocks can be placed. */
  predicate Reached(nodes: set<Node>, blocks: set<Block>, victim: Node, x: Node) {
    x in nodes && (!IsForest(x) || Block(victim, x) in blocks)
  }

  /** The victim is linked to every known peer it may be linked to. */
  ghost predicate MeetsAll(n: Net, victim: Node, knownPeers: seq<Node>) {
    forall x :: x in knownPeers && MayLink(n, victim, x) ==> Linked(n, victim, x)
  }

  /** The victim and the others block each other, as far as Forest nodes can. */
  ghost predicate SplitBlocks(n: Net, victim: Node, peers: seq<Node>, knownPeers: seq<Node>) {
    && (!IsForest(victim) ==> forall p :: p in peers ==> Block(victim, p) in n.blocks)
    && (forall x :: x in knownPeers && x in n.nodes && !IsForest(x) ==> Block(x, victim) in n.blocks)
  }

  /** Unlisted ends the run of cycles, Skipped goes on with the next one. */
  datatype CycleResult = Unlisted | Skipped | Done

  /** Splits the victim off, unless it has no peers or they cannot be listed.
      Started from empty block lists, the victim stays isolated
      whatever connects later exactly when no Forest node is loose. */
  method SplitVictim(e: Engine, victim: Node, knownPeers: seq<Node>)
    returns (result: CycleResult, peers: seq<Node>, victimId: Node)
    requires e.Valid() && victim in e.net.nodes && victim !in knownPeers
    modifies e`net, e`failed, e`dropped
    ensures e.Valid() && e.net.nodes == old(e.net.nodes) && old(e.net.blocks) <= e.net.blocks && e.Accounted()
    ensures result.Unlisted? ==> e.failed
    ensures result.Done? ==> (exists p :: Linked(old(e.net), victim, p))
                             && forall p :: p in peers <==> Linked(old(e.net), victim, p)
    ensures result.Skipped? ==> forall p :: !Linked(old(e.net), victim, p)
    ensures result.Skipped? && !e.failed && !e.dropped ==> MeetsAll(e.net, victim, knownPeers)
    ensures result.Done? && !e.dropped ==> KeepsAway(old(e.net), e.net, victim)
    ensures result.Done? && !e.failed ==> SplitBlocks(e.net, victim, peers, knownPeers)
    ensures !result.Done? ==> e.net.blocks == old(e.net.blocks)
    ensures forall b :: b in e.net.blocks ==> b in old(e.net.blocks) || OfSplit(b, victim, peers, victimId)
    ensures result.Done? && !e.failed && (forall x :: x in e.net.nodes && x != victim ==> x in knownPeers) ==>
              && (forall x :: x in e.net.nodes && x != victim && x !in Loose(e.net.nodes, victim, peers)
                    ==> Severed(e.net, victim, x))
              && (old(e.net.blocks) == {} ==>
                    (StaysApart(e.net, {victim}, e.net.nodes - {victim})
                     <==> Loose(e.net.nodes, victim, peers) == {}))
  {
    hide StaysApart, Loose, Severed;
    e.failed, e.dropped := false, false;
    victimId := "";
    var ok;
    ok, peers := e.NetPeers(victim);
    if !ok {
      return Unlisted, [], "";
    }
    if |peers| == 0 {
      e.ConnectToAll(victim, knownPeers);
      return Skipped, [], "";
    }
    assert peers[0] in peers && Linked(old(e.net), victim, peers[0]);
    CutPeers(e, victim, peers);
    ghost var blocks := e.net.blocks;
    ok, victimId := e.NetAddrsListen(victim);
    BlockVictim(e, victim, victimId, knownPeers);
    result := Done;
    if !e.failed {
      VictimExact(e.net, victim, peers, knownPeers, old(e.net.blocks), blocks);
    }
  }

  /** Disconnects the victim from its peers and blocks them on it. */
  method CutPeers(e: Engine, victim: Node, peers: seq<Node>)
    requires e.Valid() && victim in e.net.nodes
    modifies e`net, e`failed, e`dropped
    ensures e.Valid() && e.net.nodes == old(e.net.nodes) && old(e.net.blocks) <= e.net.blocks
    ensures e.Excused() && (!e.dropped ==> KeepsAway(old(e.net), e.net, victim))
    ensures forall b :: b in e.net.blocks ==> b in old(e.net.blocks) || (b.on == victim && b.peer in peers)
    ensures !e.failed && !IsForest(victim) ==> forall p :: p in peers ==> Block(victim, p) in e.net.blocks
  {
    for i := 0 to |peers|
      invariant e.Valid() && e.net.nodes == old(e.net.nodes) && e.net.blocks == old(e.net.blocks)
      invariant e.Excused() && (!e.dropped ==> KeepsAway(old(e.net), e.net, victim))
    {
      var disconnected := e.NetDisconnect(victim, peers[i]);
    }
    var ok := e.NetBlockAdd(victim, peers);
    BlocksOnMembers(victim, peers);
  }

  /** Blocks the victim on every known peer, as far as possible. */
  method BlockVictim(e: Engine, victim: Node, victimId: Node, knownPeers: seq<Node>)
    requires e.Valid() && victim !in knownPeers
    requires (victimId == victim || victimId == "") && (!e.failed ==> victimId == victim)
    modifies e`net, e`failed, e`dropped
    ensures e.Valid() && e.net.nodes == old(e.net.nodes) && old(e.net.blocks) <= e.net.blocks
    ensures e.Excused() && (!e.dropped ==> KeepsAway(old(e.net), e.net, victim))
    ensures forall b :: b in e.net.blocks ==> b in old(e.net.blocks) || (b.on != victim && b.peer == victimId)
    ensures !e.failed ==> forall x :: x in knownPeers && x in e.net.nodes && !IsForest(x)
                            ==> Block(x, victim) in e.net.blocks
    ensures !e.failed ==> forall x :: x in knownPeers && Reached(e.net.nodes, old(e.net.blocks), victim, x)
                            ==> Severed(e.net, victim, x)
  {
    for i := 0 to |knownPeers|
      invariant e.Valid() && e.net.nodes == old(e.net.nodes) && old(e.net.blocks) <= e.net.blocks
      invariant e.Excused() && (!e.dropped ==> KeepsAway(old(e.net), e.net, victim))
      invariant !e.failed ==> victimId == victim
      invariant forall b :: b in e.net.blocks ==> b in old(e.net.blocks) || (b.on != victim && b.peer == victimId)
      invariant !e.failed ==> forall x :: x in knownPeers[..i] && x in e.net.nodes && !IsForest(x)
                                ==> Block(x, victim) in e.net.blocks
      invariant !e.failed ==> forall x :: x in knownPeers[..i] && Reached(e.net.nodes, old(e.net.blocks), victim, x)
                                ==> Severed(e.net, victim, x)
    {
      BlockVictimOn(e, victim, victimId, knownPeers[i]);
    }
    assert knownPeers[..|knownPeers|] == knownPeers;
  }

  /** What the split amounts to, `blocks` being the entries after the first half. */
  lemma VictimExact(n: Net, victim: Node, peers: seq<Node>, knownPeers: seq<Node>,
                    before: set<Block>, blocks: set<Block>)
    requires Network.Valid(n) && victim in n.nodes
    requires forall b :: b in n.blocks ==> b in before || (OfSplit(b, victim, peers, victim) && !IsForest(b.on))
    requires !IsForest(victim) ==> forall p :: p in peers ==> Block(victim, p) in blocks
    requires forall x :: x in knownPeers && Reached(n.nodes, blocks, victim, x) ==> Severed(n, victim, x)
    ensures (forall x :: x in n.nodes && x != victim ==> x in knownPeers) ==>
              && (forall x :: x in n.nodes && x != victim && x !in Loose(n.nodes, victim, peers) ==>
                    Severed(n, victim, x))
              && (before == {} ==>
                    (StaysApart(n, {victim}, n.nodes - {victim}) <==> Loose(n.nodes, victim, peers) == {}))
  {
    hide StaysApart;
    if forall x :: x in n.nodes && x != victim ==> x in knownPeers {
      forall x | x in n.nodes && x != victim && x !in Loose(n.nodes, victim, peers)
        ensures Severed(n, victim, x)
      {
        assert Reached(n.nodes, blocks, victim, x);
      }
      if before == {} {
        LooseAreOpen(n, victim, peers);
        IsolationExactly(n, victim);
      }
    }
  }

  lemma LooseAreOpen(n: Net, victim: Node, peers: seq<Node>)
    requires forall b :: b in n.blocks ==> OfSplit(b, victim, peers, victim) && !IsForest(b.on)
    requires forall x :: x in n.nodes && x != victim && x !in Loose(n.nodes, victim, peers) ==> Severed(n, victim, x)
    ensures Open(n, victim) == Loose(n.nodes, victim, peers)
  {
  }

  /** Finds the node with the given peer ID and blocks the victim there. */
  method BlockVictimOn(e: Engine, victim: Node, victimId: Node, peer: Node)
    requires e.Valid() && peer != victim && (victimId == victim || victimId == "")
    modifies e`net, e`failed, e`dropped
    ensures e.Valid() && KeepsSevered(old(e.net), e.net) && old(e.net.blocks) <= e.net.blocks
    ensures e.Excused() && (!e.dropped ==> KeepsAway(old(e.net), e.net, victim))
    ensures !e.failed && victimId == victim && peer in e.net.nodes && !IsForest(peer) ==>
              Block(peer, victim) in e.net.blocks
    ensures forall b :: b in e.net.blocks ==> b in old(e.net.blocks) || (b.on != victim && b.peer == victimId)
    ensures !e.failed && victimId == victim ==>
              Reached(e.net.nodes, old(e.net.blocks), victim, peer) ==> Severed(e.net, victim, peer)
  {
    for i := 0 to |e.nodeKeys|
      invariant e.Valid() && KeepsSevered(old(e.net), e.net) && e.net.blocks == old(e.net.blocks)
      invariant e.Excused() && (!e.dropped ==> KeepsAway(old(e.net), e.net, victim))
      invariant !e.failed ==> peer !in e.nodeKeys[..i]
    {
      var name := e.nodeKeys[i];
      if name == victim {
        continue;
      }
      var ok, id := e.NetAddrsListen(name);
      if ok && id == peer {
        var added := e.NetBlockAdd(name, [victimId]);
        BlocksOnMembers(name, [victimId]);
        var disconnected := e.NetDisconnect(name, victimId);
        return;
      }
    }
  }

  /** Removes what the split can have added and reconnects the victim. */
  method HealVictim(e: Engine, victim: Node, victimId: Node, peers: seq<Node>, knownPeers: seq<Node>)
    requires e.Valid() && victim in e.net.nodes
    modifies e`net, e`failed, e`dropped
    ensures e.Valid() && e.net.nodes == old(e.net.nodes) && e.net.blocks <= old(e.net.blocks)
    ensures e.Accounted() && (!e.dropped ==> KeepsLinks(old(e.net), e.net))
    ensures forall b :: b in old(e.net.blocks) ==> b in e.net.blocks || OfSplit(b, victim, peers, victimId)
    ensures !e.failed ==> forall b :: b in e.net.blocks ==> !OfSplit(b, victim, peers, victimId)
    ensures !e.failed && !e.dropped ==> MeetsAll(e.net, victim, knownPeers)
  {
    e.failed, e.dropped := false, false;
    var ok := e.NetBlockRemove(victim, peers);
    BlocksOnMembers(victim, peers);
    for i := 0 to |e.nodeKeys|
      invariant e.Valid() && e.net.nodes == old(e.net.nodes) && e.net.blocks <= old(e.net.blocks)
      invariant e.Accounted() && (!e.dropped ==> KeepsLinks(old(e.net), e.net))
      invariant forall b :: b in old(e.net.blocks) ==> b in e.net.blocks || OfSplit(b, victim, peers, victimId)
      invariant !e.failed ==> forall b :: b in e.net.blocks && b.on == victim ==> b.peer !in peers
      invariant !e.failed ==> forall b :: b in e.net.blocks && b.on in e.nodeKeys[..i] && b.on != victim
                                ==> b.peer != victimId
    {
      var name := e.nodeKeys[i];
      if name == victim {
        continue;
      }
      ok := e.NetBlockRemove(name, [victimId]);
      BlocksOnMembers(name, [victimId]);
    }
    e.ConnectToAll(victim, peers);
    e.ConnectToAll(victim, knownPeers);
  }

  /** One cycle adds nothing that its heal, if its calls succeed, does not take
      away again, however the split went. */
  method Cycle(e: Engine, victim: Node, knownPeers: seq<Node>) returns (result: CycleResult)
    requires e.Valid() && victim in e.net.nodes && victim !in knownPeers
    modifies e`net, e`failed, e`dropped
    ensures e.Valid() && e.net.nodes == old(e.net.nodes) && e.Accounted()
    ensures result.Done? ==> exists p :: Linked(old(e.net), victim, p)
    ensures !e.callsMayFail && (exists p :: Linked(old(e.net), victim, p)) ==> result.Done?
    ensures result.Done? && !e.failed && !e.dropped ==> MeetsAll(e.net, victim, knownPeers)
    ensures result.Done? && !e.failed ==> e.net.blocks <= old(e.net.blocks)
    ensures !result.Done? ==> e.net.blocks == old(e.net.blocks)
  {
    var peers, victimId;
    result, peers, victimId := SplitVictim(e, victim, knownPeers);
    if result.Done? {
      e.Interfere();
      HealVictim(e, victim, victimId, peers, knownPeers);
    }
  }

  /** Clears every block list and connects every node to every other. */
  method EnsureFullMesh(e: Engine)
    requires e.Valid()
    modifies e`net, e`failed, e`dropped
    ensures e.Valid() && e.net.nodes == old(e.net.nodes) && e.net.blocks <= old(e.net.blocks) && e.Accounted()
    ensures !e.failed ==> e.net.blocks == {}
    ensures !e.failed && !e.dropped ==>
              forall a, b :: a in e.net.nodes && b in e.net.nodes && a != b ==> Linked(e.net, a, b)
  {
    e.failed, e.dropped := false, false;
    for i := 0 to |e.nodeKeys|
      invariant e.Valid() && e.net.nodes == old(e.net.nodes) && e.net.blocks <= old(e.net.blocks) && e.Accounted()
      invariant !e.failed ==> forall b :: b in e.net.blocks ==> b.on !in e.nodeKeys[..i]
    {
      var name := e.nodeKeys[i];
      var ok, listed := e.NetBlockList(name);
      if !ok || |listed| == 0 {
        continue;
      }
      var removed := e.NetBlockRemove(name, listed);
      BlocksOnMembers(name, listed);
    }
    e.ConnectEveryone();
    assert !e.failed && !e.dropped ==> forall a, b :: MayLink(e.net, a, b) ==> Linked(e.net, a, b);
  }

  /** All cycles and the closing mesh: whatever failed before, a closing step
      whose calls succeed leaves no block entry and links everyone. With no
      failures and losses, a linked victim and empty block lists, every cycle
      splits and heals. */
  method ReorgChaos(e: Engine, victim: Node, numCycles: nat) returns (successfulCycles: nat)
    requires e.Valid() && victim in e.net.nodes
    modifies e`net, e`failed, e`dropped
    ensures e.Valid() && e.net.nodes == old(e.net.nodes)
    ensures successfulCycles <= numCycles
    ensures successfulCycles == 0 ==> e.net.blocks == old(e.net.blocks)
    ensures successfulCycles > 0 && !e.failed ==> e.net.blocks == {}
    ensures successfulCycles > 0 && !e.failed && !e.dropped ==>
              forall a, b :: a in e.net.nodes && b in e.net.nodes && a != b ==> Linked(e.net, a, b)
    ensures !e.callsMayFail && !e.linksMayDrop && old(e.net.blocks) == {}
            && (exists p :: Linked(old(e.net), victim, p)) ==>
              successfulCycles == numCycles && (numCycles > 0 ==> !e.failed && !e.dropped)
  {
    e.failed, e.dropped := false, false;
    var knownPeers := e.CollectNodeAddrInfos(victim);
    successfulCycles := 0;
    ghost var steady := !e.callsMayFail && !e.linksMayDrop && old(e.net.blocks) == {}
                        && exists p :: Linked(old(e.net), victim, p);
    for cycle := 0 to numCycles
      invariant e.Valid() && e.net.nodes == old(e.net.nodes)
      invariant successfulCycles <= cycle
      invariant successfulCycles == 0 ==> e.net.blocks == old(e.net.blocks)
      invariant steady ==> successfulCycles == cycle && e.net.blocks == {} && exists p :: Linked(e.net, victim, p)
    {
      var result := Cycle(e, victim, knownPeers);
      if result.Unlisted? {
        break;
      }
      if result.Done? {
        successfulCycles := successfulCycles + 1;
      }
    }
    if successfulCycles > 0 {
      EnsureFullMesh(e);
    }
  }
}
