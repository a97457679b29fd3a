/** The fuzzer's pool of libp2p hosts with a use budget each (identity.go).
    Hosts are numbered in the order they are created. */
module Identity {
  import opened Bytes

  /** A host given to a caller, and whether it was open then. */
  datatype Given = Given(host: nat, open: bool)

  /** The pool's fields, and what happened so far: hosts made, hosts closed, the
      budget each gossip host was created with, and what was given out. */
  datatype State = State(
    hosts: seq<nat>,
    budgets: map<nat, int>,
    streamHost: Option<nat>,
    made: nat,
    closed: set<nat>,
    quota: map<nat, int>,
    given: seq<Given>)

  const INITIAL := State([], map[], None, 0, {}, map[], [])

  datatype Reply = Host(host: nat) | CreateFailed | IndexPanic

  /** Go reads 0 for a host that is not in the map. */
  function Budget(budgets: map<nat, int>, h: nat): int {
    if h in budgets then budgets[h] else 0
  }

  function FirstWithBudget(hosts: seq<nat>, budgets: map<nat, int>): (r: Option<nat>)
    ensures r.Some? ==> r.value in hosts && Budget(budgets, r.value) > 0
    ensures r.None? ==> forall h :: h in hosts ==> Budget(budgets, h) <= 0
  {
    if hosts == [] then None
    else if Budget(budgets, hosts[0]) > 0 then Some(hosts[0])
    else FirstWithBudget(hosts[1..], budgets)
  }

  function Give(s: State, h: nat): State {
    s.(given := s.given + [Given(h, h !in s.closed)])
  }

  function EvictOldest(s: State): State
    requires s.hosts != []
  {
    s.(closed := s.closed + {s.hosts[0]}, budgets := s.budgets - {s.hosts[0]}, hosts := s.hosts[1..])
  }

  function AddHost(s: State, budget: int): State {
    Give(s.(hosts := s.hosts + [s.made], budgets := s.budgets[s.made := budget - 1],
            quota := s.quota[s.made := budget], made := s.made + 1),
         s.made)
  }

  function ForGossip(s: State, maxPool: int, budget: int, created: bool): (State, Reply) {
    var first := FirstWithBudget(s.hosts, s.budgets);
    if first.Some? then
      (Give(s.(budgets := s.budgets[first.value := s.budgets[first.value] - 1]), first.value), Host(first.value))
    else if |s.hosts| >= maxPool && s.hosts == [] then (s, IndexPanic)
    else
      var e := if |s.hosts| >= maxPool then EvictOldest(s) else s;
      if created then (AddHost(e, budget), Host(e.made)) else (e, CreateFailed)
  }

  function ForStream(s: State, created: bool): (State, Reply) {
    if s.streamHost.Some? then (s, Host(s.streamHost.value))
    else if created then (s.(streamHost := Some(s.made), made := s.made + 1), Host(s.made))
    else (s, CreateFailed)
  }

  function SetOf(hosts: seq<nat>): set<nat> {
    set h | h in hosts
  }

  /** CloseAll forgets the gossip hosts but keeps the closed stream host. */
  function AllClosed(s: State): State {
    s.(closed := s.closed + SetOf(s.hosts) + (if s.streamHost.Some? then {s.streamHost.value} else {}),
       hosts := [], budgets := map[])
  }

  datatype Op = Gossip(budget: int, created: bool) | Stream(created: bool) | CloseEverything

  // ------------------------------------------------------------------ every run

  function Times(given: seq<Given>, h: nat): nat {
    if given == [] then 0
    else Times(given[..|given| - 1], h) + if given[|given| - 1].host == h then 1 else 0
  }

  /** The uses a host created with this budget has: creating it takes one. */
  function Allowed(budget: int): int {
    if budget > 1 then budget else 1
  }

  ghost predicate HostInv(s: State, h: nat)
    requires h in s.quota
  {
    && 1 <= Times(s.given, h) <= Allowed(s.quota[h])
    && (h in s.budgets ==> Times(s.given, h) + s.budgets[h] == s.quota[h])
    && (h !in s.budgets ==> h in s.closed)
  }

  ghost predicate Inv(s: State, maxPool: int) {
    && (forall h :: h in s.hosts <==> h in s.budgets)
    && |s.hosts| <= (if maxPool > 0 then maxPool else 0)
    && Increasing(s.hosts)
    && (forall h :: h in s.hosts ==> h in s.quota && h !in s.closed)
    && (forall h :: h in s.quota ==> h < s.made && HostInv(s, h))
    && (forall h :: h in s.closed ==> h < s.made)
    && (s.streamHost.Some? ==> s.streamHost.value < s.made && s.streamHost.value !in s.quota)
    && (forall h: nat :: h !in s.quota ==> Times(s.given, h) == 0)
    && (forall k :: 0 <= k < |s.given| ==> s.given[k].open)
  }

  lemma TimesSnoc(given: seq<Given>, g: Given)
    ensures forall h: nat :: Times(given + [g], h) == Times(given, h) + if g.host == h then 1 else 0
  {
    assert (given + [g])[..|given|] == given;
  }

  lemma ReuseKeeps(s: State, maxPool: int, h: nat)
    requires Inv(s, maxPool) && h in s.budgets && s.budgets[h] > 0
    ensures Inv(Give(s.(budgets := s.budgets[h := s.budgets[h] - 1]), h), maxPool)
  {
    var s' := Give(s.(budgets := s.budgets[h := s.budgets[h] - 1]), h);
    TimesSnoc(s.given, Given(h, h !in s.closed));
    forall x | x in s'.quota ensures HostInv(s', x) {
      assert HostInv(s, x);
    }
  }

  predicate Increasing(hosts: seq<nat>) {
    forall i, j :: 0 <= i < j < |hosts| ==> hosts[i] < hosts[j]
  }

  lemma TailDropsHead(hosts: seq<nat>)
    requires hosts != [] && Increasing(hosts)
    ensures Increasing(hosts[1..])
    ensures forall h :: h in hosts[1..] <==> h in hosts && h != hosts[0]
  {
    assert hosts == [hosts[0]] + hosts[1..];
  }

  /** The evicted host is the oldest, and its budget was used up. */
  lemma EvictKeeps(s: State, maxPool: int)
    requires Inv(s, maxPool) && s.hosts != []
    requires forall h :: h in s.hosts ==> Budget(s.budgets, h) <= 0
    ensures var e := EvictOldest(s);
            && Inv(e, maxPool)
            && forall h :: h in s.hosts && h !in e.hosts ==> h == s.hosts[0] && Times(s.given, h) == Allowed(s.quota[h])
  {
    hide Increasing, Times;
    var e := EvictOldest(s);
    TailDropsHead(s.hosts);
    assert HostInv(s, s.hosts[0]);
    forall x | x in e.quota ensures HostInv(e, x) {
      assert HostInv(s, x);
    }
  }

  lemma AddKeeps(s: State, maxPool: int, budget: int)
    requires Inv(s, maxPool) && |s.hosts| < maxPool
    ensures Inv(AddHost(s, budget), maxPool)
  {
    var s' := AddHost(s, budget);
    assert forall i :: 0 <= i < |s.hosts| ==> s.hosts[i] in s.quota;
    TimesSnoc(s.given, Given(s.made, s.made !in s.closed));
    forall x | x in s'.quota ensures x < s'.made && HostInv(s', x) {
      if x in s.quota {
        assert HostInv(s, x);
      }
    }
  }

  lemma InvBasics(s: State, maxPool: int)
    requires Inv(s, maxPool)
    ensures |s.hosts| <= (if maxPool > 0 then maxPool else 0)
    ensures forall h :: h in s.hosts ==> h in s.budgets && h in s.quota && h !in s.closed
    ensures s.made !in s.closed
  {
  }

  /** One GetForGossip: it panics exactly when the pool may hold no host; the
      host it gives is open; and a host leaves the pool only when its budget is
      used up, and then it is the oldest. */
  lemma GossipStep(s: State, maxPool: int, budget: int, created: bool)
    requires Inv(s, maxPool)
    ensures var (s', reply) := ForGossip(s, maxPool, budget, created);
            && Inv(s', maxPool)
            && (reply == IndexPanic <==> maxPool <= 0)
            && (reply.Host? ==> s'.given == s.given + [Given(reply.host, true)])
            && (!reply.Host? ==> s'.given == s.given)
            && (forall h :: h in s.hosts && h !in s'.hosts ==>
                  h in s.quota && h == s.hosts[0] && |s.hosts| == maxPool && Times(s.given, h) == Allowed(s.quota[h]))
  {
    hide Inv, Times, Allowed;
    InvBasics(s, maxPool);
    var first := FirstWithBudget(s.hosts, s.budgets);
    if first.Some? {
      ReuseKeeps(s, maxPool, first.value);
    } else if |s.hosts| >= maxPool && s.hosts == [] {
    } else {
      var e := if |s.hosts| >= maxPool then EvictOldest(s) else s;
      if |s.hosts| >= maxPool {
        EvictKeeps(s, maxPool);
      }
      if created {
        InvBasics(e, maxPool);
        AddKeeps(e, maxPool, budget);
      }
    }
  }

  /** Host i is the first one, in order of creation, with budget left. */
  predicate IsFirst(s: State, i: nat) {
    i < |s.hosts| && Budget(s.budgets, s.hosts[i]) > 0 && forall j :: 0 <= j < i ==> Budget(s.budgets, s.hosts[j]) <= 0
  }

  lemma {:induction false} FirstHasIndex(hosts: seq<nat>, budgets: map<nat, int>) returns (i: nat)
    requires FirstWithBudget(hosts, budgets).Some?
    ensures i < |hosts| && hosts[i] == FirstWithBudget(hosts, budgets).value
    ensures Budget(budgets, hosts[i]) > 0 && forall j :: 0 <= j < i ==> Budget(budgets, hosts[j]) <= 0
  {
    i := 0;
    if Budget(budgets, hosts[0]) <= 0 {
      var k := FirstHasIndex(hosts[1..], budgets);
      i := k + 1;
      assert forall j :: 0 <= j < k ==> hosts[1..][j] == hosts[j + 1];
    }
  }

  /** In a pool that may hold a host, GetForGossip gives one exactly when some
      host has budget left or a host can be created. It is the first one with
      budget, which loses one use, or else a new one, behind the others, the
      oldest making room in a full pool. */
  lemma GossipExactly(s: State, maxPool: int, budget: int, created: bool)
    requires Inv(s, maxPool) && maxPool > 0
    ensures var (s', reply) := ForGossip(s, maxPool, budget, created);
            var kept := if |s.hosts| == maxPool then s.hosts[1..] else s.hosts;
            && (reply.Host? <==> created || exists i: nat :: IsFirst(s, i))
            && (forall i: nat :: IsFirst(s, i) ==>
                  && reply == Host(s.hosts[i]) && s'.hosts == s.hosts && s.hosts[i] in s.budgets
                  && s'.budgets == s.budgets[s.hosts[i] := s.budgets[s.hosts[i]] - 1])
            && ((forall i: nat :: !IsFirst(s, i)) ==>
                  if created then
                    && reply == Host(s.made) && s'.hosts == kept + [s.made]
                    && s.made in s'.budgets && s'.budgets[s.made] == budget - 1
                  else reply == CreateFailed && s'.hosts == kept)
  {
    hide HostInv, Times, FirstWithBudget;
    if FirstWithBudget(s.hosts, s.budgets).Some? {
      var i := FirstHasIndex(s.hosts, s.budgets);
      assert IsFirst(s, i);
      forall k: nat | IsFirst(s, k) ensures k == i {
      }
    } else {
      forall i: nat ensures !IsFirst(s, i) {
        assert i < |s.hosts| ==> s.hosts[i] in s.hosts;
      }
    }
  }

  /** GetForStream gives the one stream host, made by the first creation that succeeds. */
  lemma StreamExactly(s: State, created: bool)
    ensures var (s', reply) := ForStream(s, created);
            && (reply.Host? <==> s.streamHost.Some? || created)
            && (s.streamHost.Some? ==> reply == Host(s.streamHost.value) && s' == s)
            && (s.streamHost.None? && created ==>
                  reply == Host(s.made) && s' == s.(streamHost := Some(s.made), made := s.made + 1))
            && (!reply.Host? ==> reply == CreateFailed && s' == s)
  {
  }

  function After(s: State, maxPool: int, op: Op): State {
    match op
    case Gossip(budget, created) => ForGossip(s, maxPool, budget, created).0
    case Stream(created) => ForStream(s, created).0
    case CloseEverything => AllClosed(s)
  }

  lemma StepKeeps(s: State, maxPool: int, op: Op)
    requires Inv(s, maxPool)
    ensures Inv(After(s, maxPool, op), maxPool)
  {
    var s' := After(s, maxPool, op);
    match op
    case Gossip(budget, created) => GossipStep(s, maxPool, budget, created);
    case Stream(_) | CloseEverything =>
      forall x | x in s'.quota ensures x < s'.made && HostInv(s', x) {
        assert HostInv(s, x);
      }
  }

  function Run(maxPool: int, ops: seq<Op>): State {
    if ops == [] then INITIAL else After(Run(maxPool, ops[..|ops| - 1]), maxPool, ops[|ops| - 1])
  }

  lemma {:induction false} RunInv(maxPool: int, ops: seq<Op>)
    ensures Inv(Run(maxPool, ops), maxPool)
  {
    if ops != [] {
      RunInv(maxPool, ops[..|ops| - 1]);
      StepKeeps(Run(maxPool, ops[..|ops| - 1]), maxPool, ops[|ops| - 1]);
    }
  }

  /** In every run, whatever creations fail: the pool never exceeds maxPool, its
      hosts are those with a budget, uses plus remaining budget stay what each
      host was created with, and only open hosts are given for gossip. */
  lemma BudgetsAreKept(maxPool: int, ops: seq<Op>)
    ensures var s := Run(maxPool, ops);
            && |s.hosts| <= (if maxPool > 0 then maxPool else 0)
            && (forall h :: h in s.hosts <==> h in s.budgets)
            && (forall h :: h in s.budgets ==> h in s.quota && Times(s.given, h) + s.budgets[h] == s.quota[h])
            && (forall h :: h in s.quota ==> 1 <= Times(s.given, h) <= Allowed(s.quota[h]))
            && (forall k :: 0 <= k < |s.given| ==> s.given[k].open)
  {
    RunInv(maxPool, ops);
    var s := Run(maxPool, ops);
    forall h | h in s.quota ensures HostInv(s, h) {
    }
  }

  lemma StreamStep(s: State, maxPool: int, op: Op)
    requires Inv(s, maxPool) && s.streamHost.Some?
    ensures var s' := After(s, maxPool, op);
            && s'.streamHost == s.streamHost
            && (s.streamHost.value in s'.closed <==> s.streamHost.value in s.closed || op.CloseEverything?)
  {
    hide HostInv, Times, FirstWithBudget;
    if s.hosts != [] {
      assert s.hosts[0] in s.quota;
    }
  }

  /** Once there is a stream host, every GetForStream gives that host; it is open
      exactly when CloseAll was not called since. */
  lemma {:induction false} StreamHostStays(maxPool: int, before: seq<Op>, later: seq<Op>)
    requires Run(maxPool, before).streamHost.Some?
    ensures var s, t := Run(maxPool, before), Run(maxPool, before + later);
            && t.streamHost == s.streamHost
            && (s.streamHost.value in t.closed <==> s.streamHost.value in s.closed || CloseEverything in later)
  {
    hide Inv, After;
    if later == [] {
      assert before + later == before;
    } else {
      var front, op := later[..|later| - 1], later[|later| - 1];
      StreamHostStays(maxPool, before, front);
      RunInv(maxPool, before + front);
      assert (before + later)[..|before + later| - 1] == before + front;
      assert later == front + [op];
      StreamStep(Run(maxPool, before + front), maxPool, op);
    }
  }

  // ------------------------------------------------------------------ the pool

  class IdentityPool {
    var hosts: seq<nat>
    var budgets: map<nat, int>
    var streamHost: Option<nat>
    const maxPool: int
    ghost var made: nat
    ghost var closed: set<nat>
    ghost var quota: map<nat, int>
    ghost var given: seq<Given>

    ghost function Now(): State
      reads this
    {
      State(hosts, budgets, streamHost, made, closed, quota, given)
    }

    constructor (maxPool: int)
      ensures Now() == INITIAL && this.maxPool == maxPool
    {
      this.maxPool := maxPool;
      hosts, budgets, streamHost := [], map[], None;
      made, closed, quota, given := 0, {}, map[], [];
    }

    /** The first host, in order of creation, with budget left. */
    method FindBudgeted() returns (found: Option<nat>)
      ensures found == FirstWithBudget(hosts, budgets)
    {
      for i := 0 to |hosts|
        invariant FirstWithBudget(hosts, budgets) == FirstWithBudget(hosts[i..], budgets)
      {
        if Budget(budgets, hosts[i]) > 0 {
          return Some(hosts[i]);
        }
      }
      return None;
    }

    /** newHost is the identity a successful creation gives. */
    method GetForGossip(budget: int, created: bool, newHost: nat) returns (reply: Reply)
      requires newHost == made
      modifies this
      ensures (Now(), reply) == ForGossip(old(Now()), maxPool, budget, created)
    {
      hide FirstWithBudget;
      var found := FindBudgeted();
      if found.Some? {
        var h := found.value;
        budgets := budgets[h := budgets[h] - 1];
        given := given + [Given(h, h !in closed)];
        return Host(h);
      }
      if |hosts| >= maxPool {
        if hosts == [] {
          return IndexPanic;
        }
        var oldest := hosts[0];
        closed := closed + {oldest};
        budgets := budgets - {oldest};
        hosts := hosts[1..];
      }
      if !created {
        return CreateFailed;
      }
      hosts := hosts + [newHost];
      budgets := budgets[newHost := budget - 1];
      quota, made := quota[newHost := budget], made + 1;
      given := given + [Given(newHost, newHost !in closed)];
      return Host(newHost);
    }

    method GetForStream(created: bool, newHost: nat) returns (reply: Reply)
      requires newHost == made
      modifies this
      ensures (Now(), reply) == ForStream(old(Now()), created)
    {
      if streamHost.Some? {
        return Host(streamHost.value);
      }
      if !created {
        return CreateFailed;
      }
      streamHost, made := Some(newHost), made + 1;
      return Host(newHost);
    }

    method CloseAll()
      modifies this
      ensures Now() == AllClosed(old(Now()))
    {
      if streamHost.Some? {
        closed := closed + {streamHost.value};
      }
      ghost var before := closed;
      for i := 0 to |hosts|
        invariant closed == before + SetOf(hosts[..i])
        invariant hosts == old(hosts) && budgets == old(budgets) && streamHost == old(streamHost)
        invariant made == old(made) && quota == old(quota) && given == old(given)
      {
        assert hosts[..i + 1] == hosts[..i] + [hosts[i]];
        closed := closed + {hosts[i]};
      }
      assert hosts[..|hosts|] == hosts;
      hosts, budgets := [], map[];
    }
  }
}
