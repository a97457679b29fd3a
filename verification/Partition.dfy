/** The three partition attacks of nsplit_vectors.go and their healing, run
    against a network whose calls may fail and whose nodes may connect or lose
    links between any two calls. */
module Partition {
  import opened Network
  import opened Nodes
  import opened PowerTable

  predicate IsForest(name: Node) {
    |name| >= 6 && name[..6] == "forest"
  }

  function Digit(d: nat): char
    requires d < 10
  {
    '0' + d as char
  }

  function Decimal(n: nat): (s: string)
    ensures |s| >= 1
  {
    if n < 10 then [Digit(n)] else Decimal(n / 10) + [Digit(n % 10)]
  }

  /** Reads ASCII digits as a decimal number. */
  function ReadDecimal(s: string): int {
    if s == [] then 0 else 10 * ReadDecimal(s[..|s| - 1]) + (s[|s| - 1] as int - 48)
  }

  lemma {:induction false} DecimalReadsBack(n: nat)
    ensures ReadDecimal(Decimal(n)) == n
    ensures forall i :: 0 <= i < |Decimal(n)| ==> '0' <= Decimal(n)[i] <= '9'
    ensures n >= 10 ==> Decimal(n)[0] != '0'
  {
    var s := Decimal(n);
    assert '0' as int == 48;
    if n < 10 {
      assert s[..0] == [];
    } else {
      DecimalReadsBack(n / 10);
      assert s[..|s| - 1] == Decimal(n / 10);
    }
  }

  lemma DecimalInjective(m: nat, n: nat)
    requires Decimal(m) == Decimal(n)
    ensures m == n
  {
    DecimalReadsBack(m);
    DecimalReadsBack(n);
  }

  /** The node of a miner by its ID address; empty when there is none. */
  function MinerToNodeName(addr: nat, nodes: set<Node>): (name: Node)
    ensures name == "" || (name in nodes && !IsForest(name))
    ensures name != "" <==> addr >= 1000 && "lotus" + Decimal(addr - 1000) in nodes
    ensures name != "" ==> name == "lotus" + Decimal(addr - 1000)
  {
    if addr < 1000 then ""
    else
      var name := "lotus" + Decimal(addr - 1000);
      assert name[0] == 'l';
      assert "forest"[0] == 'f';
      if name in nodes then name else ""
  }

  /** Different miners have different nodes. */
  lemma NodeNameInjective(a: nat, b: nat, nodes: set<Node>)
    requires MinerToNodeName(a, nodes) == MinerToNodeName(b, nodes) != ""
    ensures a == b
  {
    var s, t := "lotus" + Decimal(a - 1000), "lotus" + Decimal(b - 1000);
    assert s[5..] == Decimal(a - 1000) && t[5..] == Decimal(b - 1000);
    DecimalInjective(a - 1000, b - 1000);
  }

  /** The nodes of a list of miners, skipping miners without one. */
  function NodeNames(miners: seq<Miner>, nodes: set<Node>): (names: seq<Node>)
    ensures forall n :: n in names ==> n in nodes && n != "" && !IsForest(n)
  {
    if miners == [] then []
    else
      var name := MinerToNodeName(miners[0].addr, nodes);
      (if name == "" then [] else [name]) + NodeNames(miners[1..], nodes)
  }

  lemma NoNames(nodes: set<Node>)
    ensures NodeNames([], nodes) == [] && NamedPower([], nodes) == 0.0
  {
  }

  lemma {:induction false} NodeNamesSnoc(miners: seq<Miner>, m: Miner, nodes: set<Node>)
    ensures var name := MinerToNodeName(m.addr, nodes);
            NodeNames(miners + [m], nodes) == NodeNames(miners, nodes) + (if name == "" then [] else [name])
  {
    hide MinerToNodeName;
    if miners == [] {
      assert miners + [m] == [m];
    } else {
      NodeNamesSnoc(miners[1..], m, nodes);
      assert (miners + [m])[1..] == miners[1..] + [m];
    }
  }

  /** The power of the miners of a list that have a node. */
  function NamedPower(miners: seq<Miner>, nodes: set<Node>): real {
    if miners == [] then 0.0
    else
      (if MinerToNodeName(miners[0].addr, nodes) == "" then 0.0 else miners[0].pct) + NamedPower(miners[1..], nodes)
  }

  lemma {:induction false} NamedPowerSnoc(miners: seq<Miner>, m: Miner, nodes: set<Node>)
    ensures NamedPower(miners + [m], nodes)
         == NamedPower(miners, nodes) + (if MinerToNodeName(m.addr, nodes) == "" then 0.0 else m.pct)
  {
    hide MinerToNodeName;
    if miners == [] {
      assert miners + [m] == [m];
    } else {
      NamedPowerSnoc(miners[1..], m, nodes);
      assert (miners + [m])[1..] == miners[1..] + [m];
    }
  }

  function BlocksOn(n: Node, peers: seq<Node>): seq<Block> {
    seq(|peers|, i requires 0 <= i < |peers| => Block(n, peers[i]))
  }

  lemma BlocksOnMembers(n: Node, peers: seq<Node>)
    ensures forall p :: p in peers ==> Block(n, p) in BlocksOn(n, peers)
    ensures forall b :: b in BlocksOn(n, peers) ==> b.on == n && b.peer in peers
  {
    forall p | p in peers ensures Block(n, p) in BlocksOn(n, peers) {
      var i :| 0 <= i < |peers| && peers[i] == p;
      assert BlocksOn(n, peers)[i] == Block(n, p);
    }
  }

  /** Every entry added since `before` is on the record. */
  ghost predicate Recorded(before: set<Block>, after: set<Block>, record: seq<Block>) {
    before <= after && forall b :: b in after ==> b in before || b in record
  }

  ghost predicate KeepsSevered(before: Net, after: Net) {
    after.nodes == before.nodes && forall a, b :: Severed(before, a, b) ==> Severed(after, a, b)
  }

  ghost predicate KeepsLinks(before: Net, after: Net) {
    forall a, b :: Linked(before, a, b) ==> Linked(after, a, b)
  }

  /** Links other than the one between n and p. */
  ghost predicate KeepsOthers(before: Net, after: Net, n: Node, p: Node) {
    forall a, b :: Linked(before, a, b) && !(a == n && b == p) && !(a == p && b == n) ==> Linked(after, a, b)
  }

  /** v blocks its peers and every Forest node, and every Lotus node blocks v. */
  ghost predicate BlockedBothWays(before: Net, after: Net, v: Node) {
    && (forall p :: Linked(before, v, p) ==> Block(v, p) in after.blocks)
    && (forall x :: x in after.nodes && IsForest(x) ==> Block(v, x) in after.blocks)
    && (forall x :: x in after.nodes && x != v && !IsForest(x) ==> Block(x, v) in after.blocks)
  }

  /** Links that do not end at v. */
  ghost predicate KeepsAway(before: Net, after: Net, v: Node) {
    forall a, b :: Linked(before, a, b) && a != v && b != v ==> Linked(after, a, b)
  }

  /** Links between one of the names and the hub. */
  ghost predicate KeepsTo(before: Net, after: Net, names: seq<Node>, hub: Node) {
    forall h :: h in names && Linked(before, h, hub) ==> Linked(after, h, hub)
  }

  /** The groups block each other and every Forest node. */
  ghost predicate GroupsBlock(n: Net, left: set<Node>, right: set<Node>) {
    && (forall a, b :: a in left && b in right ==> Block(a, b) in n.blocks && Block(b, a) in n.blocks)
    && (forall a, x :: a in left + right && x in n.nodes && IsForest(x) ==> Block(a, x) in n.blocks)
  }

  /** Links other than those between the names and the others. */
  ghost predicate CutsOnly(before: Net, after: Net, names: seq<Node>, others: seq<Node>) {
    forall a, b :: Linked(before, a, b) && !(a in names && b in others) && !(b in names && a in others)
      ==> Linked(after, a, b)
  }

  /** Links between nodes that are not Forest nodes. */
  ghost predicate CutsForests(before: Net, after: Net) {
    forall a, b :: Linked(before, a, b) && !IsForest(a) && !IsForest(b) ==> Linked(after, a, b)
  }

  /** Links inside either group. */
  ghost predicate KeepsGroups(before: Net, after: Net, left: set<Node>, right: set<Node>) {
    forall a, b :: Linked(before, a, b) && ((a in left && b in left) || (a in right && b in right))
      ==> Linked(after, a, b)
  }

  /** An entry between the groups, or of a group's node against a Forest node. */
  predicate AcrossGroups(b: Block, left: set<Node>, right: set<Node>) {
    || (b.on in left && b.peer in right)
    || (b.on in right && b.peer in left)
    || (b.on in left + right && IsForest(b.peer))
  }

  datatype Strategy = FullIsolation | Star | Bisection

  datatype SplitResult = SplitResult(
    strategy: Strategy,
    adversaryName: Node,
    adversaryPct: real,
    honestPct: real,
    savedPeers: seq<Node>,
    blocked: seq<Block>,
    ecVulnerable: bool,
    f3HasQuorum: bool)

  /** Crashed is Go's index panic when a group of a bisection has no node. */
  datatype Outcome = NoSplit | Crashed | Split(result: SplitResult)

  const EC_THRESHOLD_PCT := 20.0
  const F3_QUORUM_PCT := 67.0

  class Engine {
    const nodeKeys: seq<Node>
    /** Whether calls may fail and whether links may be lost at all. */
    const callsMayFail: bool
    const linksMayDrop: bool
    var net: Net
    var fullIsolationIdx: nat

    /** Some call has failed, other than NetBlockAdd on a Forest node. */
    ghost var failed: bool
    /** A link has disappeared without being disconnected. */
    ghost var dropped: bool

    ghost predicate Valid()
      reads this
    {
      && Network.Valid(net)
      && (forall n :: n in nodeKeys <==> n in net.nodes)
      && "" !in net.nodes
      && (forall b :: b in net.blocks ==> b.on in net.nodes && !IsForest(b.on))
    }

    /** A failure or a loss is never made up. */
    ghost predicate Accounted()
      reads this
    {
      (failed ==> callsMayFail) && (dropped ==> linksMayDrop)
    }

    /** The two flags are only ever set, and only by a failure or a loss. */
    twostate predicate Excused()
      reads this
    {
      && (old(failed) ==> failed) && (old(dropped) ==> dropped)
      && (failed ==> old(failed) || callsMayFail)
      && (dropped ==> old(dropped) || linksMayDrop)
    }

    // ------------------------------------------------------------- the network

    /** What happens between two calls: any nodes connect as far as the block
        lists let them, and links may be lost. */
    method Interfere()
      requires Valid()
      modifies `net, `dropped
      ensures Valid() && net.nodes == old(net.nodes) && net.blocks == old(net.blocks)
      ensures forall a, b :: Linked(net, a, b) ==> Linked(old(net), a, b) || MayLink(net, a, b)
      ensures KeepsSevered(old(net), net)
      ensures (old(dropped) ==> dropped) && (dropped ==> old(dropped) || linksMayDrop)
      ensures !dropped ==> KeepsLinks(old(net), net)
    {
      var candidates := set a, b | a in net.nodes && b in net.nodes && MayLink(net, a, b) :: (a, b);
      var extra: set<(Node, Node)> :| extra <= candidates;
      var lost: set<(Node, Node)> :| lost <= net.links && (!linksMayDrop ==> lost == {});
      EvolveKeepsSevered(net, extra, lost);
      net := net.(links := net.links - lost + extra);
      if lost != {} {
        dropped := true;
      }
    }

    method NetDisconnect(n: Node, p: Node) returns (ok: bool)
      requires Valid()
      modifies `net, `failed, `dropped
      ensures Valid() && KeepsSevered(old(net), net) && net.blocks == old(net.blocks)
      ensures failed == (old(failed) || !ok)
      ensures Excused()
      ensures !dropped ==> KeepsOthers(old(net), net, n, p)
      ensures ok && Barred(net, n, p) ==> Severed(net, n, p) && Severed(net, p, n)
    {
      ok := *;
      ok := ok || !callsMayFail;
      DisconnectOnlyRemoves(net, n, p);
      if ok {
        net := Disconnect(net, n, p);
      } else {
        failed := true;
      }
      Interfere();
    }

    /** All or nothing, and never possible on a Forest node. */
    method NetBlockAdd(n: Node, peers: seq<Node>) returns (ok: bool)
      requires Valid() && n in net.nodes
      modifies `net, `failed, `dropped
      ensures Valid() && KeepsSevered(old(net), net)
      ensures net.blocks == old(net.blocks) + (if ok then set b | b in BlocksOn(n, peers) else {})
      ensures IsForest(n) ==> !ok
      ensures failed == (old(failed) || (!ok && !IsForest(n)))
      ensures Excused()
      ensures !dropped ==> KeepsLinks(old(net), net)
    {
      ok := *;
      ok := ok || !callsMayFail;
      if IsForest(n) {
        ok := false;
      } else if !ok {
        failed := true;
      }
      AddBlocksKeepsSevered(net, set b | b in BlocksOn(n, peers));
      BlocksOnMembers(n, peers);
      if ok {
        net := net.(blocks := net.blocks + set b | b in BlocksOn(n, peers));
      }
      Interfere();
    }

    method NetPeers(n: Node) returns (ok: bool, peers: seq<Node>)
      requires Valid()
      modifies `net, `failed, `dropped
      ensures Valid() && KeepsSevered(old(net), net) && net.blocks == old(net.blocks)
      ensures failed == (old(failed) || !ok)
      ensures Excused()
      ensures !dropped ==> KeepsLinks(old(net), net)
      ensures ok ==> forall p :: p in peers <==> Linked(old(net), n, p)
      ensures !ok ==> peers == []
    {
      ok := *;
      ok := ok || !callsMayFail;
      peers := [];
      if ok {
        var left := set p | p in net.nodes && Linked(net, n, p);
        while left != {}
          invariant forall p :: p in peers || p in left <==> Linked(net, n, p)
          decreases left
        {
          var p :| p in left;
          peers, left := peers + [p], left - {p};
        }
      } else {
        failed := true;
      }
      Interfere();
    }

    /** A node's own peer ID; the zero value when the call fails. */
    method NetAddrsListen(n: Node) returns (ok: bool, id: Node)
      requires Valid()
      modifies `net, `failed, `dropped
      ensures Valid() && KeepsSevered(old(net), net) && net.blocks == old(net.blocks)
      ensures failed == (old(failed) || !ok)
      ensures Excused()
      ensures id == if ok then n else ""
      ensures !dropped ==> KeepsLinks(old(net), net)
    {
      ok := *;
      ok := ok || !callsMayFail;
      id := if ok then n else "";
      if !ok {
        failed := true;
      }
      Interfere();
    }

    /** On a Forest node, which has no entries, a failure is not counted. */
    method NetBlockRemove(n: Node, peers: seq<Node>) returns (ok: bool)
      requires Valid()
      modifies `net, `failed, `dropped
      ensures Valid() && net.nodes == old(net.nodes)
      ensures net.blocks == old(net.blocks) - (if ok then set b | b in BlocksOn(n, peers) else {})
      ensures failed == (old(failed) || (!ok && !IsForest(n)))
      ensures Excused()
      ensures !dropped ==> KeepsLinks(old(net), net)
      ensures !failed ==> net.blocks == old(net.blocks) - set b | b in BlocksOn(n, peers)
    {
      ok := *;
      ok := ok || (!callsMayFail && !IsForest(n));
      RemoveBlocksKeepsValid(net, set b | b in BlocksOn(n, peers));
      BlocksOnMembers(n, peers);
      if ok {
        net := net.(blocks := net.blocks - set b | b in BlocksOn(n, peers));
      } else if !IsForest(n) {
        failed := true;
      }
      Interfere();
    }

    /** The peers a node blocks. On a Forest node a failure is not counted. */
    method NetBlockList(n: Node) returns (ok: bool, peers: seq<Node>)
      requires Valid()
      modifies `net, `failed, `dropped
      ensures Valid() && KeepsSevered(old(net), net) && net.blocks == old(net.blocks)
      ensures failed == (old(failed) || (!ok && !IsForest(n)))
      ensures Excused()
      ensures !dropped ==> KeepsLinks(old(net), net)
      ensures ok ==> forall p :: p in peers <==> Block(n, p) in net.blocks
    {
      ok := *;
      ok := ok || (!callsMayFail && !IsForest(n));
      peers := [];
      if ok {
        var left := set b | b in net.blocks && b.on == n :: b.peer;
        while left != {}
          invariant forall p :: p in peers || p in left <==> Block(n, p) in net.blocks
          decreases left
        {
          var p :| p in left;
          peers, left := peers + [p], left - {p};
        }
      } else if !IsForest(n) {
        failed := true;
      }
      Interfere();
    }

    /** A refused connection is no failure of the call. */
    method NetConnect(n: Node, p: Node)
      requires Valid()
      modifies `net, `failed, `dropped
      ensures Valid() && net.nodes == old(net.nodes) && net.blocks == old(net.blocks)
      ensures Excused()
      ensures !dropped ==> KeepsLinks(old(net), net)
      ensures !failed && !dropped && MayLink(net, n, p) ==> Linked(net, n, p)
      ensures KeepsSevered(old(net), net)
      ensures forall a, b :: Linked(net, a, b) ==> Linked(old(net), a, b) || MayLink(net, a, b)
    {
      var ok := *;
      ok := ok || !callsMayFail;
      ConnectOnlyAdds(net, n, p);
      if ok {
        net := Connect(net, n, p);
      } else {
        failed := true;
      }
      Interfere();
    }

    /** Appends an entry for every peer that was blocked on n. */
    method Record(blocked: seq<Block>, n: Node, peers: seq<Node>) returns (result: seq<Block>)
      ensures result == blocked + BlocksOn(n, peers)
    {
      result := blocked;
      for i := 0 to |peers|
        invariant result == blocked + BlocksOn(n, peers)[..i]
      {
        result := result + [Block(n, peers[i])];
      }
      assert BlocksOn(n, peers)[..|peers|] == BlocksOn(n, peers);
    }

    // ----------------------------------------------------------- full isolation

    method CreateFullIsolation(table: seq<Miner>, f3Active: bool) returns (outcome: Outcome)
      requires Valid() && table != []
      modifies `net, `failed, `dropped, `fullIsolationIdx
      ensures Valid() && net.nodes == old(net.nodes)
      ensures fullIsolationIdx == old(fullIsolationIdx) + 1
      ensures Accounted() && !outcome.Crashed?
      ensures outcome.Split? ==>
                var advName := MinerToNodeName(table[old(fullIsolationIdx) % |table|].addr, net.nodes);
                advName != "" && exists p :: Linked(old(net), advName, p)
      ensures var advName := MinerToNodeName(table[old(fullIsolationIdx) % |table|].addr, net.nodes);
              !failed && advName != "" && (exists p :: Linked(old(net), advName, p)) ==> outcome.Split?
      ensures outcome.NoSplit? ==> net.blocks == old(net.blocks)
      ensures outcome.Split? ==>
                var sr, adversary := outcome.result, table[old(fullIsolationIdx) % |table|];
                && sr.strategy == FullIsolation
                && sr.adversaryName == MinerToNodeName(adversary.addr, net.nodes)
                && sr.adversaryName in net.nodes
                && sr.adversaryPct + sr.honestPct == 100.0 && sr.adversaryPct == adversary.pct
                && sr.ecVulnerable == (sr.adversaryPct >= 20.0)
                && sr.f3HasQuorum == (f3Active && sr.honestPct > 67.0)
                && Recorded(old(net.blocks), net.blocks, sr.blocked)
                && (!dropped ==> KeepsAway(old(net), net, sr.adversaryName))
                && (!failed ==> BlockedBothWays(old(net), net, sr.adversaryName))
                && (!failed ==>
                      forall b :: b in sr.blocked ==> b.on == sr.adversaryName || b.peer == sr.adversaryName)
                && (!failed ==> CutOff(net, {sr.adversaryName}))
                && (!failed ==> StaysApart(net, {sr.adversaryName}, net.nodes - {sr.adversaryName}))
    {
      hide StaysApart;
      failed, dropped := false, false;
      var idx := fullIsolationIdx % |table|;
      fullIsolationIdx := fullIsolationIdx + 1;
      var adversary := table[idx];
      var advName := MinerToNodeName(adversary.addr, net.nodes);
      if advName == "" {
        return NoSplit;
      }
      var ok, peers := NetPeers(advName);
      if !ok || |peers| == 0 {
        return NoSplit;
      }
      assert peers[0] in peers && Linked(old(net), advName, peers[0]);
      var savedPeers := peers;
      var blocked := BlockPeers(advName, peers);

      var _, advId := NetAddrsListen(advName);
      blocked := BlockOnOthers(advName, advId, blocked, old(net.blocks));
      blocked := BlockForests(advName, blocked, old(net.blocks));

      var honestPct := 100.0 - adversary.pct;
      outcome := Split(SplitResult(
        FullIsolation, advName, adversary.pct, honestPct, savedPeers, blocked,
        adversary.pct >= EC_THRESHOLD_PCT, f3Active && honestPct > F3_QUORUM_PCT));
      assert !failed ==> CutOff(net, {advName});
      if !failed {
        CutOffStaysApart(net, {advName});
      }
    }

    /** Disconnects the adversary's own peers and blocks them on it. */
    method BlockPeers(advName: Node, peers: seq<Node>) returns (blocked: seq<Block>)
      requires Valid() && advName in net.nodes
      modifies `net, `failed, `dropped
      ensures Valid() && net.nodes == old(net.nodes)
      ensures Recorded(old(net.blocks), net.blocks, blocked) && forall b :: b in blocked ==> b.on == advName
      ensures !IsForest(advName) && !failed ==> forall p :: p in peers ==> Block(advName, p) in net.blocks
      ensures Excused() && (!dropped ==> KeepsAway(old(net), net, advName))
    {
      for i := 0 to |peers|
        invariant Valid() && net.nodes == old(net.nodes) && net.blocks == old(net.blocks)
        invariant Excused() && (!dropped ==> KeepsAway(old(net), net, advName))
      {
        var disconnected := NetDisconnect(advName, peers[i]);
      }
      var ok := NetBlockAdd(advName, peers);
      BlocksOnMembers(advName, peers);
      blocked := [];
      if ok {
        blocked := Record(blocked, advName, peers);
      }
    }

    /** Blocks the adversary on every other node and disconnects it there. */
    method BlockOnOthers(advName: Node, advId: Node, blocked0: seq<Block>, ghost blocks0: set<Block>)
      returns (blocked: seq<Block>)
      requires Valid() && advName in net.nodes
      requires Recorded(blocks0, net.blocks, blocked0)
      requires (!failed ==> advId == advName) && (advId == advName || advId == "")
      modifies `net, `failed, `dropped
      ensures Valid() && KeepsSevered(old(net), net)
      ensures Recorded(blocks0, net.blocks, blocked) && old(net.blocks) <= net.blocks
      ensures forall b :: b in blocked ==> b in blocked0 || b.peer == advId
      ensures !failed ==> forall x :: x in net.nodes && x != advName && !IsForest(x) ==> Block(x, advName) in net.blocks
      ensures Excused() && (!dropped ==> KeepsAway(old(net), net, advName))
      ensures !failed ==> forall x :: x in net.nodes && x != advName && !IsForest(x) ==> Severed(net, advName, x)
    {
      blocked := blocked0;
      for i := 0 to |nodeKeys|
        invariant Valid() && KeepsSevered(old(net), net)
        invariant Recorded(blocks0, net.blocks, blocked) && old(net.blocks) <= net.blocks
        invariant forall b :: b in blocked ==> b in blocked0 || b.peer == advId
        invariant !failed ==> forall j :: 0 <= j < i && nodeKeys[j] != advName && !IsForest(nodeKeys[j])
                                          ==> Block(nodeKeys[j], advName) in net.blocks
        invariant Excused() && (!failed ==> advId == advName) && (!dropped ==> KeepsAway(old(net), net, advName))
        invariant !failed ==> forall j :: 0 <= j < i && nodeKeys[j] != advName && !IsForest(nodeKeys[j])
                                          ==> Severed(net, advName, nodeKeys[j])
      {
        var name := nodeKeys[i];
        if name == advName {
          continue;
        }
        var ok := NetBlockAdd(name, [advId]);
        BlocksOnMembers(name, [advId]);
        if ok {
          blocked := blocked + [Block(name, advId)];
        }
        var disconnected := NetDisconnect(name, advId);
      }
    }

    /** Blocks every Forest node on the adversary and disconnects it. */
    method BlockForests(advName: Node, blocked0: seq<Block>, ghost blocks0: set<Block>)
      returns (blocked: seq<Block>)
      requires Valid() && advName in net.nodes && !IsForest(advName)
      requires Recorded(blocks0, net.blocks, blocked0)
      modifies `net, `failed, `dropped
      ensures Valid() && KeepsSevered(old(net), net)
      ensures Recorded(blocks0, net.blocks, blocked) && old(net.blocks) <= net.blocks
      ensures forall b :: b in blocked ==> b in blocked0 || b.on == advName
      ensures !failed ==> forall x :: x in net.nodes && IsForest(x) ==> Block(advName, x) in net.blocks
      ensures Excused() && (!dropped ==> KeepsAway(old(net), net, advName))
      ensures !failed ==> forall x :: x in net.nodes && IsForest(x) ==> Severed(net, advName, x)
    {
      blocked := blocked0;
      for i := 0 to |nodeKeys|
        invariant Valid() && KeepsSevered(old(net), net)
        invariant Recorded(blocks0, net.blocks, blocked) && old(net.blocks) <= net.blocks
        invariant forall b :: b in blocked ==> b in blocked0 || b.on == advName
        invariant !failed ==>
                    forall j :: 0 <= j < i && IsForest(nodeKeys[j]) ==> Block(advName, nodeKeys[j]) in net.blocks
        invariant Excused() && (!dropped ==> KeepsAway(old(net), net, advName))
        invariant !failed ==> forall j :: 0 <= j < i && IsForest(nodeKeys[j]) ==> Severed(net, advName, nodeKeys[j])
      {
        var name := nodeKeys[i];
        if !IsForest(name) {
          continue;
        }
        var listening, forestId := NetAddrsListen(name);
        if !listening {
          continue;
        }
        var ok := NetBlockAdd(advName, [forestId]);
        BlocksOnMembers(advName, [forestId]);
        if ok {
          blocked := blocked + [Block(advName, forestId)];
        }
        var disconnected := NetDisconnect(advName, forestId);
      }
    }

    // --------------------------------------------------------------- star split

    method CreateStarSplit(table: seq<Miner>, f3Active: bool) returns (outcome: Outcome)
      requires Valid() && table != []
      modifies `net, `failed, `dropped
      ensures Valid() && net.nodes == old(net.nodes)
      ensures Accounted() && !outcome.Crashed?
      ensures outcome.Split? <==> MinerToNodeName(table[0].addr, net.nodes) != ""
      ensures outcome.NoSplit? ==> net.blocks == old(net.blocks)
      ensures outcome.Split? ==>
                var sr, spokes := outcome.result, Spokes(table, net.nodes);
                && sr.strategy == Star
                && sr.adversaryName == MinerToNodeName(table[0].addr, net.nodes)
                && sr.adversaryName in net.nodes
                && sr.adversaryPct + sr.honestPct == 100.0 && sr.adversaryPct == table[0].pct
                && sr.ecVulnerable == (sr.adversaryPct >= 20.0)
                && !sr.f3HasQuorum
                && Recorded(old(net.blocks), net.blocks, sr.blocked)
                && (forall b :: b in sr.blocked ==> b.on in spokes && (b.peer in spokes || IsForest(b.peer)))
                && (!failed && !dropped ==>
                      forall h :: h in spokes && Linked(old(net), h, sr.adversaryName)
                        ==> Linked(net, h, sr.adversaryName))
                && (!failed ==>
                      forall h, x :: h in spokes && x in net.nodes && h != x && (x in spokes || IsForest(x))
                        ==> Block(h, x) in net.blocks)
                && (!failed && Unlisted(table, net.nodes) == {} ==> OnlyThrough(net, spokes, sr.adversaryName))
                && (!failed ==> SeversListed(net, spokes, sr.adversaryName, Unlisted(table, net.nodes)))
                && (!failed && old(net.blocks) == {} ==>
                      forall a, b :: a in spokes && b in spokes && a != b ==>
                        (HubSeparates(net, spokes, sr.adversaryName) <==> Unlisted(table, net.nodes) == {}))
    {
      hide HubSeparates;
      failed, dropped := false, false;
      var adversary := table[0];
      var advName := MinerToNodeName(adversary.addr, net.nodes);
      if advName == "" {
        return NoSplit;
      }

      var honestNames, peerIds := GatherNames(table, advName);
      var blocked, allSavedPeers := IsolateSpokes(honestNames, peerIds, advName);
      allSavedPeers := IsolateForests(honestNames, peerIds, advName, allSavedPeers);

      outcome := Split(SplitResult(
        Star, advName, adversary.pct, 100.0 - adversary.pct, allSavedPeers, blocked,
        adversary.pct >= EC_THRESHOLD_PCT, false));
      ghost var spokes := Spokes(table, net.nodes);
      assert !failed && !dropped ==> KeepsTo(old(net), net, honestNames, advName);
      assert !failed ==> forall h :: h in honestNames ==> BarsAll(net, h, honestNames);
      assert !failed ==> SeversListed(net, spokes, advName, Unlisted(table, net.nodes));
      if !failed && old(net.blocks) == {} {
        StarExact(net, table, advName, blocked, honestNames);
      }
    }

    /** The loop over the honest nodes: afterwards each bars all the others and
        every Forest node, and no two are linked. */
    method IsolateSpokes(honestNames: seq<Node>, peerIds: map<Node, Node>, advName: Node)
      returns (blocked: seq<Block>, allSavedPeers: seq<Node>)
      requires Valid()
      requires forall h :: h in honestNames ==> h in net.nodes && !IsForest(h) && h != advName
      requires forall n :: n in peerIds ==> peerIds[n] == n
      requires !failed ==> advName in peerIds && forall h :: h in honestNames ==> h in peerIds
      modifies `net, `failed, `dropped
      ensures Valid() && net.nodes == old(net.nodes)
      ensures Recorded(old(net.blocks), net.blocks, blocked) && OnSpokes(blocked, honestNames, net.nodes)
      ensures Excused() && (!failed && !dropped ==> KeepsTo(old(net), net, honestNames, advName))
      ensures !failed ==> forall h :: h in honestNames ==> BarsAll(net, h, honestNames)
      ensures !failed ==> forall h, g :: h in honestNames && g in honestNames && h != g ==> Severed(net, h, g)
    {
      allSavedPeers, blocked := [], [];
      for i := 0 to |honestNames|
        invariant Valid() && net.nodes == old(net.nodes)
        invariant Recorded(old(net.blocks), net.blocks, blocked) && OnSpokes(blocked, honestNames, net.nodes)
        invariant Excused() && (!failed && !dropped ==> KeepsTo(old(net), net, honestNames, advName))
        invariant !failed ==> forall j :: 0 <= j < i ==> BarsAll(net, honestNames[j], honestNames)
        invariant !failed ==> forall j, k :: 0 <= j < i && 0 <= k < i && honestNames[j] != honestNames[k]
                                ==> Severed(net, honestNames[j], honestNames[k])
      {
        var name, saved := honestNames[i], [];
        ghost var before := net;
        blocked, saved := IsolateSpoke(name, honestNames, peerIds, advName, blocked, old(net.blocks));
        allSavedPeers := allSavedPeers + saved;
        if !failed {
          forall k | 0 <= k < i && honestNames[k] != name
            ensures Severed(net, name, honestNames[k]) && Severed(net, honestNames[k], name)
          {
            assert honestNames[k] in honestNames && BarsAll(before, honestNames[k], honestNames);
            assert Barred(before, name, honestNames[k]);
          }
        }
      }
    }

    /** The loop over the Forest nodes: afterwards none is linked to a node that
        bars it. */
    method IsolateForests(honestNames: seq<Node>, peerIds: map<Node, Node>, advName: Node, saved0: seq<Node>)
      returns (allSavedPeers: seq<Node>)
      requires Valid() && !IsForest(advName) && advName !in honestNames
      requires forall h :: h in honestNames ==> !IsForest(h)
      requires forall n :: n in peerIds ==> peerIds[n] == n
      requires !failed ==> forall h :: h in honestNames ==> BarsAll(net, h, honestNames)
      modifies `net, `failed, `dropped
      ensures Valid() && KeepsSevered(old(net), net) && net.blocks == old(net.blocks)
      ensures Excused() && (!failed && !dropped ==> KeepsTo(old(net), net, honestNames, advName))
      ensures !failed ==> forall h, x :: h in honestNames && x in net.nodes && IsForest(x) ==> Severed(net, h, x)
    {
      allSavedPeers := saved0;
      for i := 0 to |nodeKeys|
        invariant Valid() && KeepsSevered(old(net), net) && net.blocks == old(net.blocks)
        invariant Excused() && (!failed && !dropped ==> KeepsTo(old(net), net, honestNames, advName))
        invariant !failed ==> forall h, j :: h in honestNames && 0 <= j < i && IsForest(nodeKeys[j])
                                ==> Severed(net, h, nodeKeys[j])
      {
        if !IsForest(nodeKeys[i]) {
          continue;
        }
        var listening, forestId := NetAddrsListen(nodeKeys[i]);
        if !listening {
          continue;
        }
        DisconnectForest(forestId, honestNames, peerIds, advName);
        allSavedPeers := allSavedPeers + [forestId];
      }
    }

    /** The honest nodes of the table and the peer IDs that could be read. */
    method GatherNames(table: seq<Miner>, advName: Node) returns (honestNames: seq<Node>, peerIds: map<Node, Node>)
      requires Valid()
      modifies `net, `failed, `dropped
      ensures Valid() && KeepsSevered(old(net), net) && net.blocks == old(net.blocks)
      ensures forall n :: n in honestNames <==> n in NodeNames(table, net.nodes) && n != advName
      ensures forall n :: n in peerIds ==> peerIds[n] == n
      ensures Excused() && (!dropped ==> KeepsLinks(old(net), net))
      ensures !failed ==> forall n :: n in NodeNames(table, net.nodes) ==> n in peerIds
    {
      hide MinerToNodeName, NodeNames;
      NoNames(net.nodes);
      honestNames, peerIds := [], map[];
      for i := 0 to |table|
        invariant Valid() && KeepsSevered(old(net), net) && net.blocks == old(net.blocks)
        invariant forall n :: n in honestNames <==> n in NodeNames(table[..i], net.nodes) && n != advName
        invariant forall n :: n in peerIds ==> peerIds[n] == n
        invariant Excused() && (!dropped ==> KeepsLinks(old(net), net))
        invariant !failed ==> forall n :: n in NodeNames(table[..i], net.nodes) ==> n in peerIds
      {
        NodeNamesSnoc(table[..i], table[i], net.nodes);
        assert table[..i + 1] == table[..i] + [table[i]];
        var name := MinerToNodeName(table[i].addr, net.nodes);
        if name == "" {
          continue;
        }
        var ok, id := NetAddrsListen(name);
        if ok {
          peerIds := peerIds[name := id];
        }
        if name != advName {
          honestNames := honestNames + [name];
        }
      }
      assert table[..|table|] == table;
    }

    /** Blocks the other honest nodes and the Forest nodes on one honest node,
        after disconnecting all its peers but the adversary. */
    method IsolateSpoke(name: Node, honestNames: seq<Node>, peerIds: map<Node, Node>, advName: Node,
                        blocked0: seq<Block>, ghost blocks0: set<Block>)
      returns (blocked: seq<Block>, saved: seq<Node>)
      requires Valid() && name in honestNames && advName !in honestNames
      requires forall h :: h in honestNames ==> h in net.nodes && !IsForest(h)
      requires forall n :: n in peerIds ==> peerIds[n] == n
      requires !failed ==> advName in peerIds && forall h :: h in honestNames ==> h in peerIds
      requires Recorded(blocks0, net.blocks, blocked0) && OnSpokes(blocked0, honestNames, net.nodes)
      modifies `net, `failed, `dropped
      ensures Valid() && KeepsSevered(old(net), net) && old(net.blocks) <= net.blocks
      ensures Recorded(blocks0, net.blocks, blocked) && OnSpokes(blocked, honestNames, net.nodes)
      ensures Excused() && (!failed && !dropped ==> KeepsTo(old(net), net, honestNames, advName))
      ensures !failed ==> BarsAll(net, name, honestNames)
      ensures !failed ==> forall p :: p != advName && Barred(old(net), name, p) ==> Severed(net, name, p)
    {
      blocked, saved := blocked0, [];
      var toBlock: seq<Node>;
      toBlock, blocked := BlockList(name, honestNames, peerIds, blocked, blocks0);
      var advId := if advName in peerIds then peerIds[advName] else "";
      var ok;
      ok, saved := DisconnectAllBut(name, advId);
      if !ok {
        return;
      }
      if |toBlock| > 0 {
        ok := NetBlockAdd(name, toBlock);
        if ok {
          blocked := Record(blocked, name, toBlock);
        }
        BlocksOnMembers(name, toBlock);
      }
    }

    /** Disconnects the present peers of a node, but one; reports whether they
        could be listed and which were disconnected. */
    method DisconnectAllBut(name: Node, keep: Node) returns (ok: bool, saved: seq<Node>)
      requires Valid() && name != keep
      modifies `net, `failed, `dropped
      ensures Valid() && KeepsSevered(old(net), net) && net.blocks == old(net.blocks)
      ensures Excused() && (!ok ==> failed)
      ensures !dropped ==> forall a, b :: Linked(old(net), a, b) && ((a != name && b != name) || a == keep || b == keep)
                             ==> Linked(net, a, b)
      ensures !failed ==> forall p :: p != keep && Barred(old(net), name, p) ==> Severed(net, name, p)
    {
      var peers;
      saved := [];
      ok, peers := NetPeers(name);
      if !ok {
        return;
      }
      for i := 0 to |peers|
        invariant Valid() && KeepsSevered(old(net), net) && net.blocks == old(net.blocks)
        invariant Excused()
        invariant !dropped ==>
                    forall a, b :: Linked(old(net), a, b) && ((a != name && b != name) || a == keep || b == keep)
                      ==> Linked(net, a, b)
        invariant !failed ==> forall p :: p != keep && Barred(old(net), name, p) && p !in peers[i..]
                                ==> Severed(net, name, p)
      {
        if peers[i] == keep {
          continue;
        }
        var disconnected := NetDisconnect(name, peers[i]);
        if disconnected {
          saved := saved + [peers[i]];
        }
      }
    }

    /** What one honest node is to block; the Forest entries go on the record at once. */
    method BlockList(name: Node, honestNames: seq<Node>, peerIds: map<Node, Node>,
                     blocked0: seq<Block>, ghost blocks0: set<Block>)
      returns (toBlock: seq<Node>, blocked: seq<Block>)
      requires Valid() && name in honestNames
      requires forall h :: h in honestNames ==> h in net.nodes && !IsForest(h)
      requires forall n :: n in peerIds ==> peerIds[n] == n
      requires Recorded(blocks0, net.blocks, blocked0) && OnSpokes(blocked0, honestNames, net.nodes)
      modifies `net, `failed, `dropped
      ensures Valid() && KeepsSevered(old(net), net) && net.blocks == old(net.blocks)
      ensures Recorded(blocks0, net.blocks, blocked) && OnSpokes(blocked, honestNames, net.nodes)
      ensures Excused() && (!dropped ==> KeepsLinks(old(net), net))
      ensures forall p :: p in toBlock ==> p in net.nodes && (p in honestNames || IsForest(p))
      ensures forall o :: o in honestNames && o != name && o in peerIds ==> o in toBlock
      ensures !failed ==> forall x :: x in net.nodes && IsForest(x) ==> x in toBlock
    {
      toBlock, blocked := [], blocked0;
      for i := 0 to |honestNames|
        invariant forall p :: p in toBlock ==> p in net.nodes && p in honestNames
        invariant forall o :: o in honestNames[..i] && o != name && o in peerIds ==> o in toBlock
      {
        var otherHonest := honestNames[i];
        if otherHonest == name {
          continue;
        }
        if otherHonest in peerIds {
          toBlock := toBlock + [peerIds[otherHonest]];
        }
      }
      for i := 0 to |nodeKeys|
        invariant Valid() && KeepsSevered(old(net), net) && net.blocks == old(net.blocks)
        invariant Recorded(blocks0, net.blocks, blocked) && OnSpokes(blocked, honestNames, net.nodes)
        invariant Excused() && (!dropped ==> KeepsLinks(old(net), net))
        invariant forall p :: p in toBlock ==> p in net.nodes && (p in honestNames || IsForest(p))
        invariant forall o :: o in honestNames && o != name && o in peerIds ==> o in toBlock
        invariant !failed ==> forall j :: 0 <= j < i && IsForest(nodeKeys[j]) ==> nodeKeys[j] in toBlock
      {
        if IsForest(nodeKeys[i]) {
          var ok, id := NetAddrsListen(nodeKeys[i]);
          if ok {
            toBlock := toBlock + [id];
            blocked := blocked + [Block(name, id)];
          }
        }
      }
    }

    /** Disconnects a Forest node from every honest node, both ways, and from the hub. */
    method DisconnectForest(forestId: Node, honestNames: seq<Node>, peerIds: map<Node, Node>, advName: Node)
      requires Valid() && IsForest(forestId) && !IsForest(advName) && advName !in honestNames
      requires forall h :: h in honestNames ==> !IsForest(h)
      requires forall n :: n in peerIds ==> peerIds[n] == n
      modifies `net, `failed, `dropped
      ensures Valid() && KeepsSevered(old(net), net) && net.blocks == old(net.blocks)
      ensures Excused() && (!failed && !dropped ==> KeepsTo(old(net), net, honestNames, advName))
      ensures !failed ==> forall h :: h in honestNames && Barred(old(net), h, forestId) ==> Severed(net, h, forestId)
    {
      for i := 0 to |honestNames|
        invariant Valid() && KeepsSevered(old(net), net) && net.blocks == old(net.blocks)
        invariant Excused() && (!failed && !dropped ==> KeepsTo(old(net), net, honestNames, advName))
        invariant !failed ==> forall h :: h in honestNames[..i] && Barred(old(net), h, forestId)
                                ==> Severed(net, h, forestId)
      {
        var h := honestNames[i];
        var there := NetDisconnect(forestId, if h in peerIds then peerIds[h] else "");
        var here := NetDisconnect(h, forestId);
        assert Barred(old(net), h, forestId) ==> Barred(net, h, forestId);
      }
      var advId := if advName in peerIds then peerIds[advName] else "";
      var there := NetDisconnect(forestId, advId);
      var here := NetDisconnect(advName, forestId);
    }

    // --------------------------------------------------------------- bisection

    method CreateBisection(table: seq<Miner>, f3Active: bool) returns (outcome: Outcome)
      requires Valid() && table != []
      modifies `net, `failed, `dropped, `fullIsolationIdx
      ensures Valid() && net.nodes == old(net.nodes)
      ensures Accounted() && fullIsolationIdx == old(fullIsolationIdx) + (if |table| < 4 then 1 else 0)
      ensures |table| < 4 ==>
                var advName := MinerToNodeName(table[old(fullIsolationIdx) % |table|].addr, net.nodes);
                && !outcome.Crashed?
                && (outcome.Split? ==>
                      outcome.result.adversaryName == advName != "" && exists p :: Linked(old(net), advName, p))
                && (!failed && advName != "" && (exists p :: Linked(old(net), advName, p)) ==> outcome.Split?)
      ensures outcome.NoSplit? ==> net.blocks == old(net.blocks)
      ensures outcome.Split? ==> Recorded(old(net.blocks), net.blocks, outcome.result.blocked)
      ensures |table| < 4 && outcome.Split? ==>
                outcome.result.strategy == FullIsolation
                && (!failed ==> CutOff(net, {outcome.result.adversaryName}))
      ensures |table| >= 4 ==>
                var left, right := LeftGroup(table, net.nodes), RightGroup(table, net.nodes);
                && (outcome.Crashed? <==> left == {} || right == {})
                && (outcome.Split? <==> left != {} && right != {})
                && (outcome.Split? ==>
                      var sr := outcome.result;
                      && sr.strategy == Bisection && sr.adversaryName in left && !sr.f3HasQuorum && sr.ecVulnerable
                      && sr.adversaryPct == NamedPower([table[0], table[|table| - 1]], net.nodes)
                      && sr.honestPct == NamedPower(table[1..|table| - 1], net.nodes)
                      && (forall b :: b in sr.blocked ==> AcrossGroups(b, left, right))
                      && (!dropped && DistinctMiners(table) ==> KeepsGroups(old(net), net, left, right))
                      && (!failed ==> GroupsBlock(net, left, right))
                      && (!failed ==> SeversGroups(net, left, right))
                      && (!failed && Unlisted(table, net.nodes) == {} ==> CutOff(net, left))
                      && (!failed && old(net.blocks) == {} && DistinctMiners(table) ==>
                            (StaysApart(net, left, right) <==> Unlisted(table, net.nodes) == {})))
    {
      hide NodeNames, NamedPower, LeftGroup, RightGroup, Severed, CutOff, StaysApart, Unlisted, DistinctMiners;
      if |table| < 4 {
        outcome := CreateFullIsolation(table, f3Active);
        return;
      }
      failed, dropped := false, false;
      var groupA, groupB := [table[0], table[|table| - 1]], [];
      for i := 1 to |table| - 1
        invariant groupB == table[1..i]
      {
        groupB := groupB + [table[i]];
      }
      var groupANames, groupAPower := GroupNames(groupA);
      var groupBNames, groupBPower := GroupNames(groupB);
      GroupMembers(table, net.nodes, groupANames, groupBNames);

      var blocked, allSavedPeers := SplitGroups(groupANames, groupBNames);
      if |groupANames| == 0 || |groupBNames| == 0 {
        return Crashed;
      }
      outcome := Split(SplitResult(
        Bisection, groupANames[0], groupAPower, groupBPower, allSavedPeers, blocked, true, false));
      assert LeftGroup(table, net.nodes) == Members(groupANames);
      assert RightGroup(table, net.nodes) == Members(groupBNames);
      if DistinctMiners(table) {
        GroupsDisjoint(table, net.nodes);
      }
      if !failed {
        BisectionHolds(net, table, blocked, old(net.blocks));
      }
    }

    /** The network part of a bisection. */
    method SplitGroups(groupANames: seq<Node>, groupBNames: seq<Node>)
      returns (blocked: seq<Block>, allSavedPeers: seq<Node>)
      requires Valid()
      requires forall n :: n in groupANames || n in groupBNames ==> n in net.nodes && !IsForest(n)
      modifies `net, `failed, `dropped
      ensures Valid() && net.nodes == old(net.nodes)
      ensures Recorded(old(net.blocks), net.blocks, blocked)
      ensures var left, right := Members(groupANames), Members(groupBNames);
              && (forall b :: b in blocked ==> AcrossGroups(b, left, right))
              && (!dropped && left !! right ==> KeepsGroups(old(net), net, left, right))
      ensures Excused() && (!failed ==> GroupsBlock(net, Members(groupANames), Members(groupBNames)))
      ensures !failed ==> forall a, b :: a in groupANames && b in groupBNames ==> Severed(net, a, b)
      ensures !failed ==> forall n, x :: (n in groupANames || n in groupBNames) && x in net.nodes && IsForest(x)
                            ==> Severed(net, n, x)
    {
      var groupBPeers := ListIds(groupBNames);
      var groupAPeers := ListIds(groupANames);
      blocked, allSavedPeers := BlockGroup(groupANames, groupBPeers, [], old(net.blocks));
      assert !failed ==> forall a, b :: a in groupANames && b in groupBNames ==> Barred(net, b, a);
      var unsaved;
      blocked, unsaved := BlockGroup(groupBNames, groupAPeers, blocked, old(net.blocks));
      blocked := IsolateForestsFrom(groupANames + groupBNames, groupAPeers + groupBPeers, blocked, old(net.blocks));
      assert !failed ==> forall a, b :: a in groupANames && b in groupBNames ==> Severed(net, b, a);
      assert forall n :: n in groupANames || n in groupBNames ==> n in groupANames + groupBNames;
    }

    method GroupNames(group: seq<Miner>) returns (names: seq<Node>, power: real)
      ensures names == NodeNames(group, net.nodes) && power == NamedPower(group, net.nodes)
    {
      hide MinerToNodeName, NodeNames, NamedPower;
      NoNames(net.nodes);
      names, power := [], 0.0;
      for i := 0 to |group|
        invariant names == NodeNames(group[..i], net.nodes) && power == NamedPower(group[..i], net.nodes)
      {
        NodeNamesSnoc(group[..i], group[i], net.nodes);
        NamedPowerSnoc(group[..i], group[i], net.nodes);
        assert group[..i + 1] == group[..i] + [group[i]];
        var name := MinerToNodeName(group[i].addr, net.nodes);
        if name == "" {
          continue;
        }
        names := names + [name];
        power := power + group[i].pct;
      }
      assert group[..|group|] == group;
    }

    method ListIds(names: seq<Node>) returns (ids: seq<Node>)
      requires Valid()
      modifies `net, `failed, `dropped
      ensures Valid() && KeepsSevered(old(net), net) && net.blocks == old(net.blocks)
      ensures Excused() && (!dropped ==> KeepsLinks(old(net), net))
      ensures forall p :: p in ids ==> p in names
      ensures !failed ==> forall p :: p in names ==> p in ids
    {
      ids := [];
      for i := 0 to |names|
        invariant Valid() && KeepsSevered(old(net), net) && net.blocks == old(net.blocks)
        invariant Excused() && (!dropped ==> KeepsLinks(old(net), net))
        invariant forall p :: p in ids ==> p in names
        invariant !failed ==> forall p :: p in names[..i] ==> p in ids
      {
        var ok, id := NetAddrsListen(names[i]);
        if ok {
          ids := ids + [id];
        }
      }
    }

    /** Every node of one group disconnects and blocks every peer of the other.
        Peers it bars already are severed for good afterwards. */
    method BlockGroup(names: seq<Node>, others: seq<Node>, blocked0: seq<Block>, ghost blocks0: set<Block>)
      returns (blocked: seq<Block>, saved: seq<Node>)
      requires Valid() && forall n :: n in names ==> n in net.nodes && !IsForest(n)
      requires Recorded(blocks0, net.blocks, blocked0)
      modifies `net, `failed, `dropped
      ensures Valid() && KeepsSevered(old(net), net) && old(net.blocks) <= net.blocks
      ensures Recorded(blocks0, net.blocks, blocked)
      ensures forall b :: b in blocked ==> b in blocked0 || (b.on in names && b.peer in others)
      ensures Excused() && (!dropped ==> CutsOnly(old(net), net, names, others))
      ensures !failed ==> forall n, p :: n in names && p in others ==> Block(n, p) in net.blocks
      ensures !failed ==> forall n, p :: n in names && p in others && Barred(old(net), n, p) ==> Severed(net, n, p)
    {
      blocked, saved := blocked0, [];
      for i := 0 to |names|
        invariant Valid() && KeepsSevered(old(net), net) && old(net.blocks) <= net.blocks
        invariant Recorded(blocks0, net.blocks, blocked)
        invariant forall b :: b in blocked ==> b in blocked0 || (b.on in names && b.peer in others)
        invariant Excused() && (!dropped ==> CutsOnly(old(net), net, names, others))
        invariant !failed ==> forall n, p :: n in names[..i] && p in others ==> Block(n, p) in net.blocks
        invariant !failed ==> forall n, p :: n in names[..i] && p in others && Barred(old(net), n, p)
                                ==> Severed(net, n, p)
      {
        blocked, saved := BlockGroupOn(names[i], others, blocked, saved, blocks0);
      }
    }

    /** One node's share of that. */
    method BlockGroupOn(name: Node, others: seq<Node>, blocked0: seq<Block>, saved0: seq<Node>,
                        ghost blocks0: set<Block>)
      returns (blocked: seq<Block>, saved: seq<Node>)
      requires Valid() && name in net.nodes && !IsForest(name)
      requires Recorded(blocks0, net.blocks, blocked0)
      modifies `net, `failed, `dropped
      ensures Valid() && KeepsSevered(old(net), net) && old(net.blocks) <= net.blocks
      ensures Recorded(blocks0, net.blocks, blocked)
      ensures forall b :: b in blocked ==> b in blocked0 || (b.on == name && b.peer in others)
      ensures Excused() && (!dropped ==> CutsOnly(old(net), net, [name], others))
      ensures !failed ==> forall p :: p in others ==> Block(name, p) in net.blocks
      ensures !failed ==> forall p :: p in others && Barred(old(net), name, p) ==> Severed(net, name, p)
    {
      blocked, saved := blocked0, saved0;
      var ok, peers := NetPeers(name);
      if !ok {
        return;
      }
      for i := 0 to |peers|
        invariant Valid() && KeepsSevered(old(net), net) && net.blocks == old(net.blocks)
        invariant Excused() && (!dropped ==> CutsOnly(old(net), net, [name], others))
        invariant !failed ==> forall p :: p in others && Barred(old(net), name, p) && p !in peers[i..]
                                ==> Severed(net, name, p)
      {
        if peers[i] in others {
          var disconnected := NetDisconnect(name, peers[i]);
          if disconnected {
            saved := saved + [peers[i]];
          }
        }
      }
      if |others| > 0 {
        ok := NetBlockAdd(name, others);
        BlocksOnMembers(name, others);
        if ok {
          blocked := Record(blocked, name, others);
        }
      }
    }

    /** Every named node blocks every Forest node and is disconnected from it,
        both ways. */
    method IsolateForestsFrom(names: seq<Node>, ids: seq<Node>, blocked0: seq<Block>, ghost blocks0: set<Block>)
      returns (blocked: seq<Block>)
      requires Valid() && forall n :: n in names ==> n in net.nodes && !IsForest(n)
      requires Recorded(blocks0, net.blocks, blocked0)
      modifies `net, `failed, `dropped
      ensures Valid() && KeepsSevered(old(net), net)
      ensures Recorded(blocks0, net.blocks, blocked) && old(net.blocks) <= net.blocks
      ensures !failed ==> forall n, x :: n in names && x in net.nodes && IsForest(x) ==> Block(n, x) in net.blocks
      ensures forall b :: b in blocked ==> b in blocked0 || (b.on in names && IsForest(b.peer))
      ensures Excused() && (!dropped ==> CutsForests(old(net), net))
      ensures !failed ==> forall n, x :: n in names && x in net.nodes && IsForest(x) ==> Severed(net, n, x)
    {
      blocked := blocked0;
      for i := 0 to |nodeKeys|
        invariant Valid() && KeepsSevered(old(net), net)
        invariant Recorded(blocks0, net.blocks, blocked) && old(net.blocks) <= net.blocks
        invariant !failed ==> forall n, j :: n in names && 0 <= j < i && IsForest(nodeKeys[j])
                                ==> Block(n, nodeKeys[j]) in net.blocks
        invariant forall b :: b in blocked ==> b in blocked0 || (b.on in names && IsForest(b.peer))
        invariant Excused() && (!dropped ==> CutsForests(old(net), net))
        invariant !failed ==> forall n, j :: n in names && 0 <= j < i && IsForest(nodeKeys[j])
                                ==> Severed(net, n, nodeKeys[j])
      {
        if !IsForest(nodeKeys[i]) {
          continue;
        }
        var listening, forestId := NetAddrsListen(nodeKeys[i]);
        if !listening {
          continue;
        }
        blocked := IsolateForestFrom(forestId, names, ids, blocked, blocks0);
      }
    }

    method IsolateForestFrom(forestId: Node, names: seq<Node>, ids: seq<Node>, blocked0: seq<Block>,
                             ghost blocks0: set<Block>)
      returns (blocked: seq<Block>)
      requires Valid() && IsForest(forestId) && forall n :: n in names ==> n in net.nodes && !IsForest(n)
      requires Recorded(blocks0, net.blocks, blocked0)
      modifies `net, `failed, `dropped
      ensures Valid() && KeepsSevered(old(net), net)
      ensures Recorded(blocks0, net.blocks, blocked) && old(net.blocks) <= net.blocks
      ensures !failed ==> forall n :: n in names ==> Block(n, forestId) in net.blocks
      ensures forall b :: b in blocked ==> b in blocked0 || (b.on in names && IsForest(b.peer))
      ensures Excused() && (!dropped ==> CutsForests(old(net), net))
      ensures !failed ==> forall n :: n in names ==> Severed(net, n, forestId)
    {
      blocked := blocked0;
      for i := 0 to |names|
        invariant Valid() && KeepsSevered(old(net), net)
        invariant Recorded(blocks0, net.blocks, blocked) && old(net.blocks) <= net.blocks
        invariant forall b :: b in blocked ==> b in blocked0 || (b.on in names && IsForest(b.peer))
        invariant Excused() && (!dropped ==> CutsForests(old(net), net))
        invariant !failed ==>
                    forall n :: n in names[..i] ==> Severed(net, n, forestId) && Block(n, forestId) in net.blocks
      {
        var ok := NetBlockAdd(names[i], [forestId]);
        BlocksOnMembers(names[i], [forestId]);
        if ok {
          blocked := blocked + [Block(names[i], forestId)];
        }
        var disconnected := NetDisconnect(names[i], forestId);
      }
      for i := 0 to |ids|
        invariant Valid() && KeepsSevered(old(net), net)
        invariant Recorded(blocks0, net.blocks, blocked) && old(net.blocks) <= net.blocks
        invariant Excused() && (!dropped ==> CutsForests(old(net), net))
        invariant !failed ==> forall n :: n in names ==> Severed(net, n, forestId) && Block(n, forestId) in net.blocks
      {
        var disconnected := NetDisconnect(forestId, ids[i]);
      }
    }

    // -------------------------------------------------------------------- heal

    /** Removes every recorded entry, node by node, and reconnects everyone. */
    method HealPartition(sr: SplitResult)
      requires Valid()
      modifies `net, `failed, `dropped
      ensures Valid() && net.nodes == old(net.nodes) && Accounted()
      ensures net.blocks <= old(net.blocks)
      ensures forall b :: b in old(net.blocks) ==> b in net.blocks || b in sr.blocked
      ensures !failed ==> forall b :: b in net.blocks ==> b !in sr.blocked
      ensures !failed && !dropped ==> FullMesh(net)
    {
      failed, dropped := false, false;
      var nodeBlocked: map<Node, seq<Node>> := map[];
      for i := 0 to |sr.blocked|
        invariant forall n, p :: n in nodeBlocked && p in nodeBlocked[n] <==> Block(n, p) in sr.blocked[..i]
      {
        var bp := sr.blocked[i];
        var earlier := if bp.on in nodeBlocked then nodeBlocked[bp.on] else [];
        nodeBlocked := nodeBlocked[bp.on := earlier + [bp.peer]];
      }
      assert sr.blocked[..|sr.blocked|] == sr.blocked;
      var left := nodeBlocked.Keys;
      while left != {}
        invariant Valid() && net.nodes == old(net.nodes) && Accounted()
        invariant left <= nodeBlocked.Keys
        invariant net.blocks <= old(net.blocks)
        invariant forall b :: b in old(net.blocks) ==> b in net.blocks || b in sr.blocked
        invariant !failed ==> forall b :: b in net.blocks && b in sr.blocked ==> b.on in left
        decreases left
      {
        var n :| n in left;
        left := left - {n};
        BlocksOnMembers(n, nodeBlocked[n]);
        var ok := NetBlockRemove(n, nodeBlocked[n]);
      }
      ConnectEveryone();
    }

    /** Connects every node to every address that can be read. */
    method ConnectEveryone()
      requires Valid()
      modifies `net, `failed, `dropped
      ensures Valid() && net.nodes == old(net.nodes) && net.blocks == old(net.blocks)
      ensures Excused()
      ensures !failed && !dropped ==> FullMesh(net)
    {
      var allAddrs := CollectNodeAddrInfos("");
      for i := 0 to |nodeKeys|
        invariant Valid() && net.nodes == old(net.nodes) && net.blocks == old(net.blocks)
        invariant Excused()
        invariant !failed ==> forall n :: n in net.nodes ==> n in allAddrs
        invariant !failed && !dropped ==> forall j, x :: 0 <= j < i && MayLink(net, nodeKeys[j], x)
                                            ==> Linked(net, nodeKeys[j], x)
      {
        ConnectToAll(nodeKeys[i], allAddrs);
      }
    }

    method ConnectToAll(n: Node, addrs: seq<Node>)
      requires Valid()
      modifies `net, `failed, `dropped
      ensures Valid() && net.nodes == old(net.nodes) && net.blocks == old(net.blocks)
      ensures Excused()
      ensures !dropped ==> KeepsLinks(old(net), net)
      ensures !failed && !dropped ==> forall x :: x in addrs && MayLink(net, n, x) ==> Linked(net, n, x)
    {
      for i := 0 to |addrs|
        invariant Valid() && net.nodes == old(net.nodes) && net.blocks == old(net.blocks)
        invariant Excused()
        invariant !dropped ==> KeepsLinks(old(net), net)
        invariant !failed && !dropped ==> forall x :: x in addrs[..i] && MayLink(net, n, x) ==> Linked(net, n, x)
      {
        NetConnect(n, addrs[i]);
      }
    }

    /** The addresses of all nodes but the excluded one, as far as they can be read. */
    method CollectNodeAddrInfos(exclude: Node) returns (infos: seq<Node>)
      requires Valid()
      modifies `net, `failed, `dropped
      ensures Valid() && net.nodes == old(net.nodes) && net.blocks == old(net.blocks)
      ensures Excused() && (!dropped ==> KeepsLinks(old(net), net))
      ensures forall p :: p in infos ==> p in net.nodes && p != exclude
      ensures !failed ==> forall n :: n in net.nodes && n != exclude ==> n in infos
    {
      infos := [];
      for i := 0 to |nodeKeys|
        invariant Valid() && net.nodes == old(net.nodes) && net.blocks == old(net.blocks)
        invariant Excused() && (!dropped ==> KeepsLinks(old(net), net))
        invariant forall p :: p in infos ==> p in net.nodes && p != exclude
        invariant !failed ==> forall j :: 0 <= j < i && nodeKeys[j] != exclude ==> nodeKeys[j] in infos
      {
        if nodeKeys[i] == exclude {
          continue;
        }
        var ok, id := NetAddrsListen(nodeKeys[i]);
        if ok {
          infos := infos + [id];
        }
      }
    }

    method CreatePartition(strategy: Strategy, table: seq<Miner>, f3Active: bool) returns (outcome: Outcome)
      requires Valid() && table != []
      modifies `net, `failed, `dropped, `fullIsolationIdx
      ensures Valid() && net.nodes == old(net.nodes) && Accounted()
      ensures outcome.Split? ==> SplitDue(strategy, table, old(fullIsolationIdx), old(net))
                                 && outcome.result.strategy == Effective(strategy, table)
      ensures !failed && SplitDue(strategy, table, old(fullIsolationIdx), old(net)) ==> outcome.Split?
      ensures outcome.NoSplit? ==> net.blocks == old(net.blocks)
      ensures outcome.Split? ==> Recorded(old(net.blocks), net.blocks, outcome.result.blocked)
    {
      match strategy {
        case FullIsolation => outcome := CreateFullIsolation(table, f3Active);
        case Star => outcome := CreateStarSplit(table, f3Active);
        case Bisection => outcome := CreateBisection(table, f3Active);
      }
    }

    /** A whole cycle. Whatever failed while splitting and whatever connected
        meanwhile, a heal whose own calls succeed leaves only entries that were
        there before, and a full mesh. */
    method RunCycle(strategy: Strategy, table: seq<Miner>, f3Active: bool) returns (outcome: Outcome)
      requires Valid() && table != []
      modifies `net, `failed, `dropped, `fullIsolationIdx
      ensures Valid() && net.nodes == old(net.nodes) && Accounted()
      ensures outcome.Split? ==> SplitDue(strategy, table, old(fullIsolationIdx), old(net))
                                 && outcome.result.strategy == Effective(strategy, table)
      ensures !callsMayFail && SplitDue(strategy, table, old(fullIsolationIdx), old(net)) ==> outcome.Split?
      ensures outcome.Split? && !failed ==> net.blocks <= old(net.blocks)
      ensures outcome.Split? && !failed ==>
                forall b :: b in old(net.blocks) ==> b in net.blocks || b in outcome.result.blocked
      ensures outcome.Split? && !failed && !dropped ==> FullMesh(net)
      ensures outcome.Split? && !failed && !dropped && old(net.blocks) == {} ==>
                net.blocks == {} && forall a, b :: a in net.nodes && b in net.nodes && a != b ==> Linked(net, a, b)
    {
      outcome := CreatePartition(strategy, table, f3Active);
      if !outcome.Split? {
        return;
      }
      Interfere();
      HealPartition(outcome.result);
      assert !failed && !dropped ==> forall a, b :: MayLink(net, a, b) ==> Linked(net, a, b);
    }
  }

  /** The strategy that is carried out: a bisection needs four miners. */
  function Effective(strategy: Strategy, table: seq<Miner>): Strategy {
    if strategy == Bisection && |table| < 4 then FullIsolation else strategy
  }

  /** The split finds the nodes it needs: a linked node to isolate, a hub, or a
      node in each half. */
  ghost predicate SplitDue(strategy: Strategy, table: seq<Miner>, idx: nat, n: Net)
    requires table != []
  {
    match Effective(strategy, table)
    case FullIsolation =>
      var name := MinerToNodeName(table[idx % |table|].addr, n.nodes);
      name != "" && exists p :: Linked(n, name, p)
    case Star => MinerToNodeName(table[0].addr, n.nodes) != ""
    case Bisection => |table| >= 2 && LeftGroup(table, n.nodes) != {} && RightGroup(table, n.nodes) != {}
  }

  function Members(names: seq<Node>): set<Node> {
    set n | n in names
  }

  ghost function LeftGroup(table: seq<Miner>, nodes: set<Node>): set<Node>
    requires table != []
  {
    var names := NodeNames([table[0], table[|table| - 1]], nodes);
    set n | n in names
  }

  ghost function RightGroup(table: seq<Miner>, nodes: set<Node>): set<Node>
    requires |table| >= 2
  {
    var names := NodeNames(table[1..|table| - 1], nodes);
    set n | n in names
  }

  /** The two groups are severed from each other and from every Forest node. */
  ghost predicate SeversGroups(n: Net, left: set<Node>, right: set<Node>) {
    && (forall a, b :: a in left && b in right ==> Severed(n, a, b))
    && (forall a, x :: a in left + right && x in n.nodes && IsForest(x) ==> Severed(n, a, x))
  }

  /** The names of a table are those of its miners that have a node. */
  lemma {:induction false} NodeNamesExactly(table: seq<Miner>, nodes: set<Node>, n: Node)
    ensures n in NodeNames(table, nodes) <==>
              n != "" && exists i :: 0 <= i < |table| && MinerToNodeName(table[i].addr, nodes) == n
  {
    hide MinerToNodeName;
    if table != [] {
      NodeNamesExactly(table[1..], nodes, n);
      if i :| 0 <= i < |table[1..]| && MinerToNodeName(table[1..][i].addr, nodes) == n {
        assert table[i + 1] == table[1..][i];
      }
      if i :| 0 <= i < |table| && MinerToNodeName(table[i].addr, nodes) == n {
        assert i > 0 ==> table[1..][i - 1] == table[i];
      }
    }
  }

  lemma NodeNamesOrigin(table: seq<Miner>, nodes: set<Node>, n: Node)
    requires n in NodeNames(table, nodes)
    ensures exists i :: 0 <= i < |table| && MinerToNodeName(table[i].addr, nodes) == n
  {
    NodeNamesExactly(table, nodes, n);
  }

  /** Who the two kinds of split speak of, miner by miner. */
  lemma SplitMembers(table: seq<Miner>, nodes: set<Node>, n: Node)
    requires |table| >= 2
    ensures n in Spokes(table, nodes) <==>
              && n != "" && n != MinerToNodeName(table[0].addr, nodes)
              && exists i :: 0 <= i < |table| && MinerToNodeName(table[i].addr, nodes) == n
    ensures n in LeftGroup(table, nodes) <==>
              n != "" && (MinerToNodeName(table[0].addr, nodes) == n
                          || MinerToNodeName(table[|table| - 1].addr, nodes) == n)
    ensures n in RightGroup(table, nodes) <==>
              n != "" && exists i :: 0 < i < |table| - 1 && MinerToNodeName(table[i].addr, nodes) == n
    ensures n in Unlisted(table, nodes) <==>
              n in nodes && !IsForest(n)
              && (n == "" || forall i :: 0 <= i < |table| ==> MinerToNodeName(table[i].addr, nodes) != n)
  {
    hide NodeNames, MinerToNodeName;
    var ends, middle := [table[0], table[|table| - 1]], table[1..|table| - 1];
    NodeNamesExactly(table, nodes, n);
    NodeNamesExactly(ends, nodes, n);
    NodeNamesExactly(middle, nodes, n);
    assert ends[0] == table[0] && ends[1] == table[|table| - 1];
    assert forall i :: 0 <= i < |middle| ==> middle[i] == table[i + 1];
    assert forall i :: 0 < i < |table| - 1 ==> table[i] == middle[i - 1];
  }

  lemma GroupsCoverTable(table: seq<Miner>, nodes: set<Node>)
    requires |table| >= 2
    ensures forall n :: n in NodeNames(table, nodes)
                        <==> n in LeftGroup(table, nodes) || n in RightGroup(table, nodes)
  {
    hide NodeNames, MinerToNodeName, LeftGroup, RightGroup;
    forall n ensures n in NodeNames(table, nodes) <==> n in LeftGroup(table, nodes) || n in RightGroup(table, nodes) {
      SplitMembers(table, nodes, n);
      NodeNamesExactly(table, nodes, n);
    }
  }

  predicate DistinctMiners(table: seq<Miner>) {
    forall i, j :: 0 <= i < j < |table| ==> table[i].addr != table[j].addr
  }

  /** With one entry a miner, the two groups of a bisection have no node in common. */
  lemma GroupsDisjoint(table: seq<Miner>, nodes: set<Node>)
    requires |table| >= 2 && "" !in nodes
    requires DistinctMiners(table)
    ensures LeftGroup(table, nodes) !! RightGroup(table, nodes)
  {
    var left, right := [table[0], table[|table| - 1]], table[1..|table| - 1];
    forall n | n in LeftGroup(table, nodes) && n in RightGroup(table, nodes) ensures false {
      NodeNamesOrigin(left, nodes, n);
      NodeNamesOrigin(right, nodes, n);
      var i :| 0 <= i < |left| && MinerToNodeName(left[i].addr, nodes) == n;
      var j :| 0 <= j < |right| && MinerToNodeName(right[j].addr, nodes) == n;
      assert right[j] == table[j + 1];
      NodeNameInjective(left[i].addr, right[j].addr, nodes);
    }
  }

  lemma GroupMembers(table: seq<Miner>, nodes: set<Node>, groupANames: seq<Node>, groupBNames: seq<Node>)
    requires |table| >= 2
    requires groupANames == NodeNames([table[0], table[|table| - 1]], nodes)
    requires groupBNames == NodeNames(table[1..|table| - 1], nodes)
    ensures forall n :: n in LeftGroup(table, nodes) <==> n in groupANames
    ensures forall n :: n in RightGroup(table, nodes) <==> n in groupBNames
    ensures LeftGroup(table, nodes) == {} <==> groupANames == []
    ensures RightGroup(table, nodes) == {} <==> groupBNames == []
  {
    if groupANames != [] {
      assert groupANames[0] in LeftGroup(table, nodes);
    }
    if groupBNames != [] {
      assert groupBNames[0] in RightGroup(table, nodes);
    }
  }

  /** Without f3HasQuorum the code takes it that neither half holds more than 67
      percent. Of the power that has a node, whatever the table, that is so
      exactly when the largest and the smallest miner hold no more than 67 percent
      and leave no more than 67; with a node for every miner the whole is 100. */
  lemma BisectionQuorum(table: seq<Miner>, entries: seq<Entry>, slashed: set<nat>, nodes: set<Node>)
    requires IsTable(table, entries, slashed) && |table| >= 2
    ensures var left := NamedPower([table[0], table[|table| - 1]], nodes);
            var right := NamedPower(table[1..|table| - 1], nodes);
            var whole := NamedPower(table, nodes);
            && left + right == whole
            && (left <= F3_QUORUM_PCT && right <= F3_QUORUM_PCT <==> whole - F3_QUORUM_PCT <= left <= F3_QUORUM_PCT)
            && ((forall m :: m in table ==> MinerToNodeName(m.addr, nodes) != "") ==> whole == 100.0)
  {
    hide IsTable, MinerToNodeName;
    var first, middle, last := table[0], table[1..|table| - 1], table[|table| - 1];
    assert table == ([first] + middle) + [last];
    assert ([first] + middle)[1..] == middle;
    assert [first] + [last] == [first, last];
    NamedPowerSnoc([first] + middle, last, nodes);
    NamedPowerSnoc([first], last, nodes);
    assert [first][1..] == [];
    if forall m :: m in table ==> MinerToNodeName(m.addr, nodes) != "" {
      NamedPowerIsShare(table, nodes);
      SharesSumTo100(table, entries, slashed);
    }
  }

  /** One miner with 70 percent and three with 10: a bisection's first half has 80. */
  lemma SkewedBisection() returns (table: seq<Miner>, entries: seq<Entry>, nodes: set<Node>)
    ensures IsTable(table, entries, {}) && |table| == 4
    ensures forall m :: m in table ==> MinerToNodeName(m.addr, nodes) != ""
    ensures NamedPower([table[0], table[3]], nodes) == 80.0 > F3_QUORUM_PCT
  {
    hide MinerToNodeName, IsTable, NamedPower, SumShares, Decimal;
    entries := [Entry(1000, 70), Entry(1001, 10), Entry(1002, 10), Entry(1003, 10)];
    table := [Miner(1000, 70, 70.0), Miner(1001, 10, 10.0), Miner(1002, 10, 10.0), Miner(1003, 10, 10.0)];
    nodes := {"lotus" + Decimal(0), "lotus" + Decimal(1), "lotus" + Decimal(2), "lotus" + Decimal(3)};
    SkewedTable(table, entries);
    forall m | m in table ensures MinerToNodeName(m.addr, nodes) != "" {
      HasNode(m.addr, nodes);
    }
    NamedPowerIsShare([table[0], table[3]], nodes);
    TwoShares(table[0], table[3]);
  }

  lemma HasNode(addr: nat, nodes: set<Node>)
    requires addr >= 1000 && "lotus" + Decimal(addr - 1000) in nodes
    ensures MinerToNodeName(addr, nodes) != ""
  {
  }

  lemma TwoShares(a: Miner, b: Miner)
    ensures SumShares([a, b]) == a.pct + b.pct
  {
    assert [a, b][1..] == [b] && [b][1..] == [];
    assert SumShares([b]) == b.pct;
  }

  lemma SkewedTable(table: seq<Miner>, entries: seq<Entry>)
    requires entries == [Entry(1000, 70), Entry(1001, 10), Entry(1002, 10), Entry(1003, 10)]
    requires table == [Miner(1000, 70, 70.0), Miner(1001, 10, 10.0), Miner(1002, 10, 10.0), Miner(1003, 10, 10.0)]
    ensures IsTable(table, entries, {})
  {
    hide Total, EntryTotal, Unslashed, Share;
    assert Bare(table) == entries;
    AllKept(entries);
    TotalOfBare(table);
    FourTotal(table[0], table[1], table[2], table[3]);
    RoundShares();
  }

  lemma FourTotal(a: Miner, b: Miner, c: Miner, d: Miner)
    ensures Total([a, b, c, d]) == a.power + b.power + c.power + d.power
  {
    hide Total;
    NoTotal();
    TotalSnoc([], a);
    assert [] + [a] == [a];
    TotalSnoc([a], b);
    assert [a] + [b] == [a, b];
    TotalSnoc([a, b], c);
    assert [a, b] + [c] == [a, b, c];
    TotalSnoc([a, b, c], d);
    assert [a, b, c] + [d] == [a, b, c, d];
  }

  lemma NoTotal()
    ensures Total([]) == 0
  {
  }

  lemma RoundShares()
    ensures Share(70, 100) == 70.0 && Share(10, 100) == 10.0
  {
  }

  lemma {:induction false} AllKept(entries: seq<Entry>)
    ensures Unslashed(entries, {}) == entries
  {
    if entries != [] {
      AllKept(entries[1..]);
    }
  }

  lemma {:induction false} NamedPowerIsShare(miners: seq<Miner>, nodes: set<Node>)
    requires forall m :: m in miners ==> MinerToNodeName(m.addr, nodes) != ""
    ensures NamedPower(miners, nodes) == SumShares(miners)
  {
    hide MinerToNodeName;
    if miners != [] {
      assert miners[0] in miners;
      NamedPowerIsShare(miners[1..], nodes);
    }
  }

  /** What severing the groups amounts to. */
  lemma BisectionHolds(n: Net, table: seq<Miner>, blocked: seq<Block>, before: set<Block>)
    requires |table| >= 2 && Recorded(before, n.blocks, blocked) && Network.Valid(n) && "" !in n.nodes
    requires var left, right := LeftGroup(table, n.nodes), RightGroup(table, n.nodes);
             && SeversGroups(n, left, right) && left != {} && right != {}
             && forall b :: b in blocked ==> b.on in left + right && (b.peer in left + right || IsForest(b.peer))
    ensures Unlisted(table, n.nodes) == {} ==> CutOff(n, LeftGroup(table, n.nodes))
    ensures before == {} && DistinctMiners(table) ==>
              (StaysApart(n, LeftGroup(table, n.nodes), RightGroup(table, n.nodes)) <==> Unlisted(table, n.nodes) == {})
  {
    hide StaysApart;
    GroupsCoverTable(table, n.nodes);
    if Unlisted(table, n.nodes) == {} {
      forall a, x | a in LeftGroup(table, n.nodes) && x in n.nodes && x !in LeftGroup(table, n.nodes)
        ensures Severed(n, a, x)
      {
        assert IsForest(x) || x in NodeNames(table, n.nodes) by {
          assert x !in Unlisted(table, n.nodes);
        }
      }
    }
    if before == {} && DistinctMiners(table) {
      var left, right := LeftGroup(table, n.nodes), RightGroup(table, n.nodes);
      UnlistedAreFree(n, table, blocked);
      GroupsDisjoint(table, n.nodes);
      var a :| a in left;
      var b :| b in right;
      forall h, x | h in left && x in n.nodes && x !in left && x !in FreeOutsiders(n, left, right)
        ensures Severed(n, h, x)
      {
        assert IsForest(x) || x in right;
      }
      BisectionSeparatesExactly(n, left, right, a, b);
    }
  }

  /** Started from empty block lists, a bisection bars exactly the listed and the
      Forest nodes. */
  lemma UnlistedAreFree(n: Net, table: seq<Miner>, blocked: seq<Block>)
    requires |table| >= 2 && Recorded({}, n.blocks, blocked)
    requires var left, right := LeftGroup(table, n.nodes), RightGroup(table, n.nodes);
             && SeversGroups(n, left, right) && left != {}
             && forall b :: b in blocked ==> b.on in left + right && (b.peer in left + right || IsForest(b.peer))
    ensures FreeOutsiders(n, LeftGroup(table, n.nodes), RightGroup(table, n.nodes)) == Unlisted(table, n.nodes)
  {
    var left, right := LeftGroup(table, n.nodes), RightGroup(table, n.nodes);
    GroupsCoverTable(table, n.nodes);
    forall x | x in Unlisted(table, n.nodes) ensures x in FreeOutsiders(n, left, right) {
      forall a | a in left + right ensures !Barred(n, a, x) {
        assert Block(a, x) !in blocked && Block(x, a) !in blocked;
      }
    }
    forall x | x in FreeOutsiders(n, left, right) ensures x in Unlisted(table, n.nodes) {
      var a :| a in left;
      assert !Severed(n, a, x);
    }
  }

  /** The honest nodes of a star split: the table's nodes but the largest miner's. */
  ghost function Spokes(table: seq<Miner>, nodes: set<Node>): set<Node>
    requires table != []
  {
    set n | n in NodeNames(table, nodes) && n != MinerToNodeName(table[0].addr, nodes)
  }

  /** Lotus nodes whose miner is not in the table. */
  ghost function Unlisted(table: seq<Miner>, nodes: set<Node>): set<Node> {
    set n | n in nodes && !IsForest(n) && n !in NodeNames(table, nodes)
  }

  /** A slash takes its miner out of the table, and with it the miner's node: from
      empty block lists, neither a star nor a bisection then separates for good. */
  lemma SlashedAreUnlisted(table: seq<Miner>, entries: seq<Entry>, slashed: set<nat>, m: nat, nodes: set<Node>)
    requires IsTable(table, entries, slashed) && m in slashed && MinerToNodeName(m, nodes) != ""
    ensures MinerToNodeName(m, nodes) in Unlisted(table, nodes)
  {
    hide IsTable;
    var name := MinerToNodeName(m, nodes);
    if name in NodeNames(table, nodes) {
      NodeNamesOrigin(table, nodes, name);
      var i :| 0 <= i < |table| && MinerToNodeName(table[i].addr, nodes) == name;
      NodeNameInjective(table[i].addr, m, nodes);
      TableSkipsSlashed(table, entries, slashed, i);
    }
  }

  /** Entries a star split records: on an honest node, against an honest or a
      Forest node. */
  ghost predicate OnSpokes(blocked: seq<Block>, honestNames: seq<Node>, nodes: set<Node>) {
    forall b :: b in blocked ==> b.on in honestNames && (b.peer in honestNames || IsForest(b.peer))
  }

  /** Every spoke is severed from every listed or Forest node but the hub. */
  ghost predicate SeversListed(n: Net, spokes: set<Node>, hub: Node, unlisted: set<Node>) {
    forall h, x :: h in spokes && x in n.nodes && x != h && x != hub && x !in unlisted ==> Severed(n, h, x)
  }

  /** h blocks every other honest node and every Forest node. */
  ghost predicate BarsAll(n: Net, h: Node, honestNames: seq<Node>) {
    && (forall o :: o in honestNames && o != h ==> Block(h, o) in n.blocks)
    && (forall x :: x in n.nodes && IsForest(x) ==> Block(h, x) in n.blocks)
  }

  /** Started from empty block lists, a star of two or more spokes keeps them
      apart for good exactly when the table lists every Lotus node. */
  lemma StarExact(n: Net, table: seq<Miner>, advName: Node, blocked: seq<Block>, honestNames: seq<Node>)
    requires table != [] && advName == MinerToNodeName(table[0].addr, n.nodes) != "" && Network.Valid(n)
    requires Recorded({}, n.blocks, blocked) && OnSpokes(blocked, honestNames, n.nodes)
    requires forall h :: h in honestNames <==> h in Spokes(table, n.nodes)
    requires SeversListed(n, Spokes(table, n.nodes), advName, Unlisted(table, n.nodes))
    ensures var spokes := Spokes(table, n.nodes);
            forall a, b :: a in spokes && b in spokes && a != b ==>
              (HubSeparates(n, spokes, advName) <==> Unlisted(table, n.nodes) == {})
  {
    hide HubSeparates;
    var spokes := Spokes(table, n.nodes);
    forall a, b | a in spokes && b in spokes && a != b
      ensures HubSeparates(n, spokes, advName) <==> Unlisted(table, n.nodes) == {}
    {
      UnlistedAreUnbarred(n, table, advName, blocked, honestNames);
      StarSeparatesExactly(n, spokes, advName, a, b);
    }
  }

  /** Started from empty block lists, a star split bars exactly the listed nodes. */
  lemma UnlistedAreUnbarred(n: Net, table: seq<Miner>, advName: Node, blocked: seq<Block>, honestNames: seq<Node>)
    requires table != [] && advName == MinerToNodeName(table[0].addr, n.nodes) != ""
    requires Recorded({}, n.blocks, blocked) && OnSpokes(blocked, honestNames, n.nodes)
    requires forall h :: h in honestNames <==> h in Spokes(table, n.nodes)
    requires SeversListed(n, Spokes(table, n.nodes), advName, Unlisted(table, n.nodes))
    requires Spokes(table, n.nodes) != {}
    ensures Unbarred(n, Spokes(table, n.nodes), advName) == Unlisted(table, n.nodes)
  {
    var spokes, unlisted := Spokes(table, n.nodes), Unlisted(table, n.nodes);
    forall x | x in unlisted ensures x in Unbarred(n, spokes, advName) {
      assert advName in NodeNames(table, n.nodes);
      forall a | a in spokes ensures !Barred(n, a, x) {
        assert x !in honestNames;
        assert Block(a, x) !in blocked && Block(x, a) !in blocked;
      }
    }
    forall x | x in Unbarred(n, spokes, advName) ensures x in unlisted {
      var a :| a in spokes;
      assert !Severed(n, a, x);
    }
  }
}
