/** The peer graph the partition attacks edit: links between nodes, per-node
    block lists, and what later connection attempts can and cannot do. */
module Network {
  import opened Nodes

  /** An entry of a node's block list. */
  datatype Block = Block(on: Node, peer: Node)

  datatype Net = Net(nodes: set<Node>, links: set<(Node, Node)>, blocks: set<Block>)

  predicate Linked(n: Net, a: Node, b: Node) {
    (a, b) in n.links || (b, a) in n.links
  }

  /** One of the two ends blocks the other. */
  predicate Barred(n: Net, a: Node, b: Node) {
    Block(a, b) in n.blocks || Block(b, a) in n.blocks
  }

  /** Not linked, and no connection attempt can change that. */
  predicate Severed(n: Net, a: Node, b: Node) {
    !Linked(n, a, b) && Barred(n, a, b)
  }

  predicate MayLink(n: Net, a: Node, b: Node) {
    a in n.nodes && b in n.nodes && a != b && !Barred(n, a, b)
  }

  /** Links run between different known nodes. */
  ghost predicate Valid(n: Net) {
    forall a, b :: Linked(n, a, b) ==> a in n.nodes && b in n.nodes && a != b
  }

  /** NetConnect by a to b: it succeeds only if neither end blocks the other. */
  function Connect(n: Net, a: Node, b: Node): Net {
    if MayLink(n, a, b) then n.(links := n.links + {(a, b)}) else n
  }

  /** A run of connection attempts, by any nodes. */
  function Connects(n: Net, attempts: seq<(Node, Node)>): Net
    decreases |attempts|
  {
    if attempts == [] then n
    else Connects(Connect(n, attempts[0].0, attempts[0].1), attempts[1..])
  }

  ghost predicate IsPath(n: Net, p: seq<Node>) {
    |p| >= 1 && forall i :: 0 <= i < |p| - 1 ==> Linked(n, p[i], p[i + 1])
  }

  function Disconnect(n: Net, a: Node, b: Node): Net {
    n.(links := n.links - {(a, b), (b, a)})
  }

  lemma DisconnectOnlyRemoves(n: Net, a: Node, b: Node)
    requires Valid(n)
    ensures var m := Disconnect(n, a, b);
            && Valid(m) && !Linked(m, a, b)
            && (forall x, y :: Severed(n, x, y) ==> Severed(m, x, y))
            && (forall x, y :: Linked(n, x, y) && !(x == a && y == b) && !(x == b && y == a) ==> Linked(m, x, y))
  {
    var m := Disconnect(n, a, b);
    forall x, y | Linked(m, x, y) ensures x in m.nodes && y in m.nodes && x != y {
      assert Linked(n, x, y);
    }
  }

  /** Other nodes' attempts under the present block lists, and losses. */
  lemma EvolveKeepsSevered(n: Net, extra: set<(Node, Node)>, lost: set<(Node, Node)>)
    requires Valid(n) && forall l :: l in extra ==> MayLink(n, l.0, l.1)
    ensures var m := n.(links := n.links - lost + extra);
            && Valid(m)
            && (forall a, b :: Linked(m, a, b) ==> Linked(n, a, b) || MayLink(m, a, b))
            && (forall a, b :: Severed(n, a, b) ==> Severed(m, a, b))
            && (lost == {} ==> forall a, b :: Linked(n, a, b) ==> Linked(m, a, b))
  {
    var m := n.(links := n.links - lost + extra);
    forall a, b | Linked(m, a, b)
      ensures (Linked(n, a, b) || MayLink(m, a, b)) && a in m.nodes && b in m.nodes && a != b
    {
      if (a, b) in extra {
        assert MayLink(n, a, b);
      } else if (b, a) in extra {
        assert MayLink(n, b, a);
      } else {
        assert Linked(n, a, b);
      }
    }
  }

  lemma AddBlocksKeepsSevered(n: Net, more: set<Block>)
    ensures var m := n.(blocks := n.blocks + more);
            && (Valid(n) ==> Valid(m))
            && (forall a, b :: Severed(n, a, b) ==> Severed(m, a, b))
  {
    var m := n.(blocks := n.blocks + more);
    assert forall a, b :: Linked(m, a, b) <==> Linked(n, a, b);
  }

  lemma RemoveBlocksKeepsValid(n: Net, fewer: set<Block>)
    requires Valid(n)
    ensures Valid(n.(blocks := n.blocks - fewer))
  {
    var m := n.(blocks := n.blocks - fewer);
    assert forall a, b :: Linked(m, a, b) <==> Linked(n, a, b);
  }

  lemma ConnectOnlyAdds(n: Net, a: Node, b: Node)
    requires Valid(n)
    ensures var m := Connect(n, a, b);
            && Valid(m) && m.nodes == n.nodes && m.blocks == n.blocks
            && (forall x, y :: Linked(n, x, y) ==> Linked(m, x, y))
            && (forall x, y :: Linked(m, x, y) ==> Linked(n, x, y) || MayLink(n, x, y))
  {
    var m := Connect(n, a, b);
    forall x, y | Linked(m, x, y) ensures Linked(n, x, y) || MayLink(n, x, y) {
      assert Linked(n, x, y) || (MayLink(n, a, b) && ((x, y) == (a, b) || (y, x) == (a, b)));
    }
    forall x, y | Linked(m, x, y) ensures x in m.nodes && y in m.nodes && x != y {
      assert Linked(n, x, y) || MayLink(n, x, y);
    }
  }

  /** Attempts leave the block lists alone, add only links nobody blocks, and
      remove none. */
  lemma {:induction false} ConnectsOnlyAdd(n: Net, attempts: seq<(Node, Node)>)
    requires Valid(n)
    ensures var m := Connects(n, attempts);
            && Valid(m) && m.nodes == n.nodes && m.blocks == n.blocks
            && (forall a, b :: Linked(n, a, b) ==> Linked(m, a, b))
            && (forall a, b :: Linked(m, a, b) ==> Linked(n, a, b) || MayLink(n, a, b))
    decreases |attempts|
  {
    if attempts != [] {
      var next := Connect(n, attempts[0].0, attempts[0].1);
      ConnectOnlyAdds(n, attempts[0].0, attempts[0].1);
      ConnectsOnlyAdd(next, attempts[1..]);
    }
  }

  // ---------------------------------------------------------------- separation

  /** Every link a side could have to the rest is severed. */
  ghost predicate CutOff(n: Net, side: set<Node>) {
    forall a, x :: a in side && x in n.nodes && x !in side ==> Severed(n, a, x)
  }

  /** Every node of the group can only ever reach the rest through the hub. */
  ghost predicate OnlyThrough(n: Net, group: set<Node>, hub: Node) {
    forall a, x :: a in group && x in n.nodes && x != a && x != hub ==> Severed(n, a, x)
  }

  lemma {:induction false} PathStays(n: Net, side: set<Node>, p: seq<Node>, i: nat)
    requires Valid(n) && CutOff(n, side) && IsPath(n, p) && p[0] in side && i < |p|
    ensures p[i] in side
  {
    if i > 0 {
      PathStays(n, side, p, i - 1);
      assert Linked(n, p[i - 1], p[i]);
    }
  }

  /** After any later attempts, no path leaves a side that is cut off. */
  lemma CutOffForGood(n: Net, side: set<Node>, attempts: seq<(Node, Node)>, p: seq<Node>)
    requires Valid(n) && CutOff(n, side)
    requires IsPath(Connects(n, attempts), p) && p[0] in side
    ensures forall i :: 0 <= i < |p| ==> p[i] in side
  {
    ConnectsOnlyAdd(n, attempts);
    var m := Connects(n, attempts);
    forall i | 0 <= i < |p| ensures p[i] in side {
      PathStays(m, side, p, i);
    }
  }

  /** After any later attempts, a path from a group member to any other node
      has the hub as its second node. */
  lemma HubForGood(n: Net, group: set<Node>, hub: Node, attempts: seq<(Node, Node)>, p: seq<Node>)
    requires Valid(n) && OnlyThrough(n, group, hub)
    requires IsPath(Connects(n, attempts), p) && p[0] in group && |p| >= 2
    ensures p[1] == hub
  {
    ConnectsOnlyAdd(n, attempts);
    var m := Connects(n, attempts);
    assert Linked(m, p[0], p[1]);
  }

  /** A node that neither of two others bars can always be made a bridge
      between them. */
  lemma Bridge(n: Net, a: Node, x: Node, b: Node)
    requires MayLink(n, a, x) && MayLink(n, x, b)
    ensures IsPath(Connects(n, [(a, x), (x, b)]), [a, x, b])
  {
    var m := Connect(n, a, x);
    assert MayLink(m, x, b);
    assert [(a, x), (x, b)][1..] == [(x, b)] && [(x, b)][1..] == [];
    assert Connects(m, [(x, b)]) == Connects(Connect(m, x, b), []);
    assert Connects(n, [(a, x), (x, b)]) == Connect(m, x, b);
  }

  /** No later run of attempts opens a path between two members of the group
      that avoids the hub. */
  ghost predicate HubSeparates(n: Net, group: set<Node>, hub: Node) {
    forall attempts, p ::
      IsPath(Connects(n, attempts), p) && p[0] in group && p[|p| - 1] in group && p[0] != p[|p| - 1]
      ==> hub in p
  }

  /** No later run of attempts opens a path from one group to the other. */
  ghost predicate StaysApart(n: Net, left: set<Node>, right: set<Node>) {
    forall attempts, p :: IsPath(Connects(n, attempts), p) && p[0] in left ==> p[|p| - 1] !in right
  }

  lemma CutOffStaysApart(n: Net, side: set<Node>)
    requires Valid(n) && CutOff(n, side)
    ensures StaysApart(n, side, n.nodes - side)
  {
    forall attempts, p | IsPath(Connects(n, attempts), p) && p[0] in side
      ensures p[|p| - 1] !in n.nodes - side
    {
      CutOffForGood(n, side, attempts, p);
    }
  }

  /** Nodes outside the group, other than the hub, that no member bars. */
  function Unbarred(n: Net, group: set<Node>, hub: Node): set<Node> {
    set x | x in n.nodes && x !in group && x != hub && forall a | a in group :: !Barred(n, a, x)
  }

  /** A star (every member severed from every other node but the hub and the
      nodes nobody bars) with two or more members separates them for good
      exactly when there is no such unbarred node. */
  lemma StarSeparatesExactly(n: Net, group: set<Node>, hub: Node, a: Node, b: Node)
    requires Valid(n) && group <= n.nodes && hub !in group && a in group && b in group && a != b
    requires forall h, x :: h in group && x in n.nodes && x != h && x != hub && x !in Unbarred(n, group, hub)
               ==> Severed(n, h, x)
    ensures HubSeparates(n, group, hub) <==> Unbarred(n, group, hub) == {}
  {
    if Unbarred(n, group, hub) == {} {
      assert OnlyThrough(n, group, hub);
      forall attempts, p | IsPath(Connects(n, attempts), p) && p[0] in group && p[|p| - 1] in group
                           && p[0] != p[|p| - 1]
        ensures hub in p
      {
        HubForGood(n, group, hub, attempts, p);
        assert p[1] == hub;
      }
    } else {
      var x :| x in Unbarred(n, group, hub);
      Bridge(n, a, x, b);
      var p := [a, x, b];
      assert p[0] in group && p[|p| - 1] in group;
      assert hub !in p;
    }
  }

  /** Two groups whose mutual links, and links to every barred outsider, are
      severed stay apart for good exactly when every outsider is barred. */
  lemma BisectionSeparatesExactly(n: Net, left: set<Node>, right: set<Node>, a: Node, b: Node)
    requires Valid(n) && left <= n.nodes && right <= n.nodes && left !! right && a in left && b in right
    requires forall h, x :: h in left && x in n.nodes && x !in left && x !in FreeOutsiders(n, left, right)
               ==> Severed(n, h, x)
    ensures StaysApart(n, left, right) <==> FreeOutsiders(n, left, right) == {}
  {
    if FreeOutsiders(n, left, right) == {} {
      assert CutOff(n, left);
      forall attempts, p | IsPath(Connects(n, attempts), p) && p[0] in left
        ensures p[|p| - 1] !in right
      {
        CutOffForGood(n, left, attempts, p);
      }
    } else {
      var x :| x in FreeOutsiders(n, left, right);
      Bridge(n, a, x, b);
      var p := [a, x, b];
      assert p[0] in left && p[|p| - 1] in right;
    }
  }

  /** Nodes in neither group that no member of either bars. */
  function FreeOutsiders(n: Net, left: set<Node>, right: set<Node>): set<Node> {
    set x | x in n.nodes && x !in left && x !in right && forall a | a in left + right :: !Barred(n, a, x)
  }

  /** The other nodes a node could still be linked to. */
  function Open(n: Net, v: Node): set<Node> {
    set x | x in n.nodes && x != v && !Barred(n, v, x)
  }

  /** A node severed from every node one of them bars is isolated for good
      exactly when every other node is barred. */
  lemma IsolationExactly(n: Net, v: Node)
    requires Valid(n) && v in n.nodes
    requires forall x :: x in n.nodes && x != v && x !in Open(n, v) ==> Severed(n, v, x)
    ensures StaysApart(n, {v}, n.nodes - {v}) <==> Open(n, v) == {}
  {
    if Open(n, v) == {} {
      assert CutOff(n, {v});
      CutOffStaysApart(n, {v});
    } else {
      var x :| x in Open(n, v);
      var attempts := [(v, x)];
      assert attempts[1..] == [];
      var m := Connects(n, attempts);
      assert m == Connects(Connect(n, v, x), []);
      var p := [v, x];
      assert IsPath(m, p) && p[0] in {v} && p[|p| - 1] in n.nodes - {v};
    }
  }

  // ------------------------------------------------------------------ full mesh

  /** Every two nodes are linked unless one of them blocks the other. */
  ghost predicate FullMesh(n: Net) {
    forall a, b :: MayLink(n, a, b) ==> Linked(n, a, b)
  }
}
