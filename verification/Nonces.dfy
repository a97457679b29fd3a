/** The Ethereum nonce cache that concurrent senders share (eth.go). */
module Nonces {
  import opened Bytes

  type Sender = bytes

  /** One critical section: a sender takes a nonce, asking the node when none is
      cached, or the sender's entry is invalidated. */
  datatype Event =
    | Take(sender: Sender, reply: Option<nat>)
    | Forget(sender: Sender)

  type Cache = map<Sender, nat>

  /** The nonce an event hands out, if any. */
  function Issued(c: Cache, e: Event): Option<nat> {
    match e
    case Take(s, reply) => if s in c then Some(c[s]) else reply
    case Forget(_) => None
  }

  /** uint64 arithmetic: the successor wraps. */
  function Next(n: nat): nat {
    (n + 1) % TWO_64
  }

  function After(c: Cache, e: Event): Cache {
    match e
    case Take(s, _) => if Issued(c, e).Some? then c[s := Next(Issued(c, e).value)] else c
    case Forget(s) => c - {s}
  }

  function AfterAll(es: seq<Event>): Cache {
    if es == [] then map[] else After(AfterAll(es[..|es| - 1]), es[|es| - 1])
  }

  // ------------------------------------------------------------------ the senders

  /** How an attempt to send goes, after its nonce is taken. */
  datatype Fate = BuildFails | SendFails | Accepted

  class EthNonces {
    var nonces: map<Sender, nat>
    /** The critical sections so far, in the order they ran. */
    ghost var log: seq<Event>

    ghost predicate Valid()
      reads this
    {
      nonces == AfterAll(log)
    }

    constructor ()
      ensures Valid() && log == []
    {
      nonces, log := map[], [];
    }

    method TakeNonce(sender: Sender, reply: Option<nat>) returns (nonce: Option<nat>)
      requires Valid()
      modifies this
      ensures Valid() && log == old(log) + [Take(sender, reply)]
      ensures nonce == Issued(old(nonces), Take(sender, reply))
      ensures nonce == if sender in old(nonces) then Some(old(nonces)[sender]) else reply
      ensures nonce.Some? ==> nonces == old(nonces)[sender := (nonce.value + 1) % 0x1_0000_0000_0000_0000]
      ensures nonce.None? ==> nonces == old(nonces)
    {
      assert (log + [Take(sender, reply)])[..|log|] == log;
      log := log + [Take(sender, reply)];
      var n;
      if sender in nonces {
        n := nonces[sender];
      } else {
        if reply.None? {
          return None;
        }
        n := reply.value;
      }
      nonces := nonces[sender := (n + 1) % TWO_64];
      return Some(n);
    }

    method Invalidate(sender: Sender)
      requires Valid()
      modifies this
      ensures Valid() && log == old(log) + [Forget(sender)]
      ensures nonces == old(nonces) - {sender}
    {
      assert (log + [Forget(sender)])[..|log|] == log;
      log := log + [Forget(sender)];
      nonces := nonces - {sender};
    }

    /** What other senders do meanwhile: any critical sections, in any order. */
    method Others() returns (ghost others: seq<Event>)
      requires Valid()
      modifies this
      ensures Valid() && log == old(log) + others
    {
      var es: seq<Event> := *;
      others := es;
      for i := 0 to |es|
        invariant Valid() && log == old(log) + es[..i]
      {
        match es[i] {
          case Take(sender, reply) => var nonce := TakeNonce(sender, reply);
          case Forget(sender) => Invalidate(sender);
        }
        assert es[..i + 1] == es[..i] + [es[i]];
      }
      assert es[..|es|] == es;
    }

    /** One call, with other senders before it takes its nonce and before it
        learns how sending went. A bad key takes no nonce, a failure to build the
        transaction keeps the taken one, a refused one invalidates. */
    method SendEthTxCore(keyOk: bool, sender: Sender, reply: Option<nat>, fate: Fate)
      returns (nonce: Option<nat>, ok: bool, ghost before: seq<Event>, ghost during: seq<Event>)
      requires Valid()
      modifies this
      ensures Valid()
      ensures nonce == if keyOk then Issued(AfterAll(old(log) + before), Take(sender, reply)) else None
      ensures log == old(log) + before + (if keyOk then [Take(sender, reply)] else []) + during
                     + (if nonce.Some? && fate == SendFails then [Forget(sender)] else [])
      ensures ok <==> nonce.Some? && fate == Accepted
    {
      nonce, ok, during := None, false, [];
      before := Others();
      if !keyOk {
        return;
      }
      nonce := TakeNonce(sender, reply);
      if nonce.None? {
        return;
      }
      during := Others();
      match fate {
        case BuildFails => return;
        case SendFails =>
          Invalidate(sender);
          return;
        case Accepted => ok := true;
      }
    }

    /** With the receipt, for which other senders do not wait: None after a
        timeout, which invalidates too. */
    method SendEthTxConfirmed(keyOk: bool, sender: Sender, reply: Option<nat>, fate: Fate, receipt: Option<bool>)
      returns (ok: bool, ghost before: seq<Event>, ghost during: seq<Event>)
      requires Valid()
      modifies this
      ensures Valid()
      ensures var nonce := if keyOk then Issued(AfterAll(old(log) + before), Take(sender, reply)) else None;
              && (ok <==> nonce.Some? && fate == Accepted && receipt == Some(true))
              && log == old(log) + before + (if keyOk then [Take(sender, reply)] else []) + during
                        + (if nonce.Some? && (fate == SendFails || (fate == Accepted && receipt == None))
                           then [Forget(sender)] else [])
    {
      var nonce, accepted;
      nonce, accepted, before, during := SendEthTxCore(keyOk, sender, reply, fate);
      if !accepted {
        return false, before, during;
      }
      ghost var waiting := Others();
      during := during + waiting;
      if receipt.Some? {
        return receipt.value, before, during;
      }
      Invalidate(sender);
      return false, before, during;
    }
  }

  // ------------------------------------------------------------- any interleaving

  /** The nonces handed to a sender since its last invalidation. */
  function Handed(es: seq<Event>, s: Sender): seq<nat> {
    if es == [] then []
    else
      var front, e := es[..|es| - 1], es[|es| - 1];
      if e.sender != s then Handed(front, s)
      else if e.Forget? then []
      else
        match Issued(AfterAll(front), e)
        case None => Handed(front, s)
        case Some(n) => Handed(front, s) + [n]
  }

  /** What the node reported for the first of them. */
  function Reported(es: seq<Event>, s: Sender): Option<nat> {
    if es == [] then None
    else
      var before, e := Reported(es[..|es| - 1], s), es[|es| - 1];
      if e.sender != s then before
      else if e.Forget? then None
      else if before.Some? then before
      else e.reply
  }

  function Consecutive(first: nat, n: nat): (ns: seq<nat>)
    ensures |ns| == n
  {
    seq(n, i requires 0 <= i < n => (first + i) % TWO_64)
  }

  ghost predicate Uint64Replies(es: seq<Event>) {
    forall i :: 0 <= i < |es| && es[i].Take? && es[i].reply.Some? ==> es[i].reply.value < TWO_64
  }

  /** In any interleaving of any senders, whatever sends fail or time out, the
      nonces handed out between two invalidations run on without a gap from the
      one the node reported. */
  lemma {:induction false} HandedAreConsecutive(es: seq<Event>, s: Sender)
    requires Uint64Replies(es)
    ensures Handed(es, s) != [] <==> Reported(es, s).Some?
    ensures Reported(es, s).Some? ==> Handed(es, s) == Consecutive(Reported(es, s).value, |Handed(es, s)|)
    ensures s in AfterAll(es) <==> Reported(es, s).Some?
    ensures Reported(es, s).Some? ==>
              AfterAll(es)[s] == (Reported(es, s).value + |Handed(es, s)|) % TWO_64
  {
    if es != [] {
      var front, e := es[..|es| - 1], es[|es| - 1];
      HandedAreConsecutive(front, s);
      if e.sender == s && e.Take? {
        TakeStep(front, e);
      }
    }
  }

  lemma TakeStep(front: seq<Event>, e: Event)
    requires e.Take? && Uint64Replies(front + [e])
    requires var s := e.sender;
             && (Handed(front, s) != [] <==> Reported(front, s).Some?)
             && (s in AfterAll(front) <==> Reported(front, s).Some?)
             && (Reported(front, s).Some? ==>
                   && Handed(front, s) == Consecutive(Reported(front, s).value, |Handed(front, s)|)
                   && AfterAll(front)[s] == (Reported(front, s).value + |Handed(front, s)|) % TWO_64)
    ensures var es, s := front + [e], e.sender;
            && (Handed(es, s) != [] <==> Reported(es, s).Some?)
            && (s in AfterAll(es) <==> Reported(es, s).Some?)
            && (Reported(es, s).Some? ==>
                  && Handed(es, s) == Consecutive(Reported(es, s).value, |Handed(es, s)|)
                  && AfterAll(es)[s] == (Reported(es, s).value + |Handed(es, s)|) % TWO_64)
  {
    var es, s := front + [e], e.sender;
    assert es[..|es| - 1] == front && es[|es| - 1] == e;
    if Reported(front, s).Some? {
      var first, k := Reported(front, s).value, |Handed(front, s)|;
      assert Handed(es, s) == Handed(front, s) + [(first + k) % TWO_64];
      assert Consecutive(first, k + 1) == Consecutive(first, k) + [(first + k) % TWO_64];
      WrapNext(first + k);
    } else if e.reply.Some? {
      var n := e.reply.value;
      assert (front + [e])[|front|] == e;
      assert Handed(es, s) == [n];
      assert Consecutive(n, 1) == [n];
    }
  }

  lemma WrapNext(n: nat)
    ensures Next(n % TWO_64) == (n + 1) % TWO_64
  {
  }

  /** Up to 2^64 nonces handed out between two invalidations are distinct. */
  lemma HandedAreDistinct(es: seq<Event>, s: Sender, i: nat, j: nat)
    requires Uint64Replies(es) && |Handed(es, s)| <= TWO_64
    requires i < j < |Handed(es, s)|
    ensures Handed(es, s)[i] != Handed(es, s)[j]
  {
    hide Handed, Reported;
    HandedAreConsecutive(es, s);
    var first := Reported(es, s).value;
    assert Handed(es, s)[i] == (first + i) % TWO_64 && Handed(es, s)[j] == (first + j) % TWO_64;
    CloseResidues(first + i, first + j);
  }

  lemma CloseResidues(a: nat, b: nat)
    requires a < b < a + TWO_64
    ensures a % TWO_64 != b % TWO_64
  {
  }

  // ---------------------------------------------------------- over invalidations

  /** All nonces ever handed to a sender. */
  function AllHanded(es: seq<Event>, s: Sender): seq<nat> {
    if es == [] then []
    else
      var front, e := es[..|es| - 1], es[|es| - 1];
      if e.sender != s || Issued(AfterAll(front), e).None? then AllHanded(front, s)
      else AllHanded(front, s) + [Issued(AfterAll(front), e).value]
  }

  /** An event for which the node is asked for the sender's nonce, and answers. */
  predicate Asks(front: seq<Event>, e: Event, s: Sender) {
    e.Take? && e.sender == s && s !in AfterAll(front) && e.reply.Some?
  }

  /** Whenever the node is asked, what it reports is at least the successor of
      the last nonce handed out. */
  predicate ReportsAdvance(es: seq<Event>, s: Sender) {
    if es == [] then true
    else
      var front, e := es[..|es| - 1], es[|es| - 1];
      var given := AllHanded(front, s);
      && ReportsAdvance(front, s)
      && (Asks(front, e, s) && given != [] ==> e.reply.value >= given[|given| - 1] + 1)
  }

  /** The node's last answer. */
  function LastReport(es: seq<Event>, s: Sender): nat {
    if es == [] then 0
    else if Asks(es[..|es| - 1], es[|es| - 1], s) then es[|es| - 1].reply.value
    else LastReport(es[..|es| - 1], s)
  }

  /** The node never reports less than it reported before. */
  predicate NeverBack(es: seq<Event>, s: Sender) {
    if es == [] then true
    else
      var front, e := es[..|es| - 1], es[|es| - 1];
      NeverBack(front, s) && (Asks(front, e, s) ==> e.reply.value >= LastReport(front, s))
  }

  /** The cached nonce has run over the end of uint64: 0 was handed out from the
      cache, where it can only follow 2^64 - 1. */
  predicate Wrapped(es: seq<Event>, s: Sender) {
    if es == [] then false
    else
      var front, e := es[..|es| - 1], es[|es| - 1];
      Wrapped(front, s) || (e.Take? && e.sender == s && s in AfterAll(front) && AfterAll(front)[s] == 0)
  }

  /** Reports advance, the node is not asked again after a wrap, and the nonces
      after a wrap stay below the first one handed out. */
  predicate StaysFresh(es: seq<Event>, s: Sender) {
    if es == [] then true
    else
      var front, e := es[..|es| - 1], es[|es| - 1];
      var given := AllHanded(front, s);
      && StaysFresh(front, s)
      && (Asks(front, e, s) && given != [] ==> !Wrapped(front, s) && e.reply.value >= given[|given| - 1] + 1)
      && (e.Take? && e.sender == s && s in AfterAll(front) && given != [] && Wrapped(es, s) ==>
            AfterAll(front)[s] < given[0])
  }

  ghost predicate IncreasingSeq(ns: seq<nat>) {
    forall i, j :: 0 <= i < j < |ns| ==> ns[i] < ns[j]
  }

  ghost predicate Distinct(ns: seq<nat>) {
    forall i, j :: 0 <= i < j < |ns| ==> ns[i] != ns[j]
  }

  lemma FrontReplies(es: seq<Event>)
    requires es != [] && Uint64Replies(es)
    ensures Uint64Replies(es[..|es| - 1])
  {
    var front := es[..|es| - 1];
    assert forall i :: 0 <= i < |front| ==> front[i] == es[i];
  }

  /** The cached nonce is the successor of the last one handed out. */
  ghost predicate CacheFollows(es: seq<Event>, s: Sender) {
    var given, c := AllHanded(es, s), AfterAll(es);
    && (forall i :: 0 <= i < |given| ==> given[i] < TWO_64)
    && (s in c ==> given != [] && c[s] == Next(given[|given| - 1]))
  }

  lemma {:induction false} CacheFollowsAlways(es: seq<Event>, s: Sender)
    requires Uint64Replies(es)
    ensures CacheFollows(es, s)
  {
    if es != [] {
      var front, e := es[..|es| - 1], es[|es| - 1];
      FrontReplies(es);
      CacheFollowsAlways(front, s);
      if e.sender == s && Issued(AfterAll(front), e).Some? {
        HandOne(es);
      }
    }
  }

  /** One more nonce handed out, from the cache or as the node reports it. */
  lemma HandOne(es: seq<Event>)
    requires es != [] && Uint64Replies(es)
    requires var front, e := es[..|es| - 1], es[|es| - 1];
             CacheFollows(front, e.sender) && Issued(AfterAll(front), e).Some?
    ensures var front, e := es[..|es| - 1], es[|es| - 1];
            var s, n := e.sender, Issued(AfterAll(front), e).value;
            && AllHanded(es, s) == AllHanded(front, s) + [n]
            && n < TWO_64 && CacheFollows(es, s)
            && (if s in AfterAll(front)
                then var given := AllHanded(front, s);
                     given != [] && n == AfterAll(front)[s] == Next(given[|given| - 1])
                else Asks(front, e, s) && n == e.reply.value)
  {
    hide Issued;
    var front, e := es[..|es| - 1], es[|es| - 1];
    var s, n := e.sender, Issued(AfterAll(front), e).value;
    OneIssued(AfterAll(front), e);
    assert AllHanded(es, s) == AllHanded(front, s) + [n];
  }

  lemma OneIssued(c: Cache, e: Event)
    requires Issued(c, e).Some?
    ensures e.Take? && Issued(c, e) == if e.sender in c then Some(c[e.sender]) else e.reply
    ensures After(c, e) == c[e.sender := Next(Issued(c, e).value)]
  {
  }

  /** Over any invalidations, all nonces handed to a sender increase exactly when
      every report is at least the successor of the last nonce handed out and the
      cache never runs over. */
  lemma {:induction false} HandedIncrease(es: seq<Event>, s: Sender)
    requires Uint64Replies(es)
    ensures IncreasingSeq(AllHanded(es, s)) <==> ReportsAdvance(es, s) && !Wrapped(es, s)
  {
    hide IncreasingSeq;
    if es == [] {
      NoneIncrease();
    } else {
      var front, e := es[..|es| - 1], es[|es| - 1];
      FrontReplies(es);
      HandedIncrease(front, s);
      CacheFollowsAlways(front, s);
      if e.sender == s && Issued(AfterAll(front), e).Some? {
        HandOne(es);
        IncreasingSnoc(AllHanded(front, s), Issued(AfterAll(front), e).value);
      }
    }
  }

  lemma NoneIncrease()
    ensures IncreasingSeq([])
  {
  }

  lemma IncreasingSnoc(ns: seq<nat>, n: nat)
    ensures IncreasingSeq(ns + [n]) <==> IncreasingSeq(ns) && (ns != [] ==> ns[|ns| - 1] < n)
  {
    var all := ns + [n];
    if IncreasingSeq(all) {
      assert forall i :: 0 <= i < |ns| ==> ns[i] == all[i];
      if ns != [] {
        assert all[|ns| - 1] < all[|ns|];
      }
    }
  }

  /** Every nonce from first on is in ns: up to its last one or, after a wrap, up
      to the end. */
  ghost predicate Covers(ns: seq<nat>, first: nat, wrapped: bool) {
    && ns != [] && (!wrapped ==> first <= ns[|ns| - 1])
    && forall n :: first <= n < TWO_64 && (wrapped || n <= ns[|ns| - 1]) ==> n in ns
  }

  lemma CoversAsked(ns: seq<nat>, first: nat, wrapped: bool, n: nat)
    requires ns != [] ==> Covers(ns, first, wrapped)
    requires wrapped ==> ns != [] && first <= n
    ensures Covers(ns + [n], n, wrapped)
  {
    var all := ns + [n];
    assert all[|ns|] == n;
    forall m | n <= m < TWO_64 && (wrapped || m <= n) ensures m in all {
      assert wrapped ==> m in ns;
    }
  }

  lemma CoversCached(ns: seq<nat>, first: nat, wrapped: bool)
    requires Covers(ns, first, wrapped) && ns[|ns| - 1] < TWO_64
    ensures var n := Next(ns[|ns| - 1]);
            Covers(ns + [n], first, wrapped || n == 0)
  {
    var last := ns[|ns| - 1];
    var n := Next(last);
    var all := ns + [n];
    assert all[|ns|] == n;
    forall m | first <= m < TWO_64 && (wrapped || n == 0 || m <= n) ensures m in all {
      assert m == n || wrapped || m <= last;
      assert m == n || m in ns;
    }
  }

  /** With a node that never goes back, every nonce from its last report on has
      been handed out. */
  lemma {:induction false} HandedCover(es: seq<Event>, s: Sender)
    requires Uint64Replies(es) && NeverBack(es, s)
    ensures AllHanded(es, s) != [] ==> Covers(AllHanded(es, s), LastReport(es, s), Wrapped(es, s))
    ensures Wrapped(es, s) ==> AllHanded(es, s) != []
  {
    hide Covers;
    if es != [] {
      var front, e := es[..|es| - 1], es[|es| - 1];
      FrontReplies(es);
      HandedCover(front, s);
      CacheFollowsAlways(front, s);
      if e.sender == s && Issued(AfterAll(front), e).Some? {
        HandOne(es);
        var given := AllHanded(front, s);
        if s in AfterAll(front) {
          CoversCached(given, LastReport(front, s), Wrapped(front, s));
        } else {
          CoversAsked(given, LastReport(front, s), Wrapped(front, s), e.reply.value);
        }
      }
    }
  }

  /** Increasing nonces and then, after a wrap, 0, 1, and so on, below the first. */
  ghost predicate Shape(ns: seq<nat>, wrapped: bool) {
    if !wrapped then IncreasingSeq(ns)
    else
      && ns != []
      && var k := |ns| - 1 - ns[|ns| - 1];
         && 0 < k && ns[|ns| - 1] < ns[0] && IncreasingSeq(ns[..k])
         && forall i :: k <= i < |ns| ==> ns[i] == i - k
  }

  lemma ShapeIsDistinct(ns: seq<nat>, wrapped: bool)
    requires Shape(ns, wrapped)
    ensures Distinct(ns)
  {
    if wrapped {
      var k := |ns| - 1 - ns[|ns| - 1];
      assert forall i :: 0 <= i < k ==> ns[..k][i] == ns[i];
      assert forall i :: 0 < i < k ==> ns[..k][0] < ns[..k][i];
    }
  }

  lemma ShapeCached(ns: seq<nat>, wrapped: bool)
    requires Shape(ns, wrapped) && ns != [] && ns[|ns| - 1] < TWO_64 && ns[0] < TWO_64
    requires var n := Next(ns[|ns| - 1]); wrapped || n == 0 ==> n < ns[0]
    ensures var n := Next(ns[|ns| - 1]); Shape(ns + [n], wrapped || n == 0)
  {
    var n := Next(ns[|ns| - 1]);
    var all := ns + [n];
    if !wrapped && n != 0 {
      IncreasingSnoc(ns, n);
    } else {
      var k := |all| - 1 - n;
      assert all[..k] == if wrapped then ns[..k] else ns;
    }
  }

  /** What was handed out while it stayed fresh. */
  lemma {:induction false} FreshShape(es: seq<Event>, s: Sender)
    requires Uint64Replies(es) && StaysFresh(es, s)
    ensures Shape(AllHanded(es, s), Wrapped(es, s))
  {
    hide Shape, IncreasingSeq;
    if es == [] {
      EmptyShape();
    } else {
      var front, e := es[..|es| - 1], es[|es| - 1];
      FrontReplies(es);
      FreshShape(front, s);
      CacheFollowsAlways(front, s);
      if e.sender == s && Issued(AfterAll(front), e).Some? {
        HandOne(es);
        var given := AllHanded(front, s);
        if s in AfterAll(front) {
          ShapeCached(given, Wrapped(front, s));
        } else {
          ShapeAsked(given, Wrapped(front, s), e.reply.value);
        }
      }
    }
  }

  lemma EmptyShape()
    ensures Shape([], false)
  {
  }

  lemma ShapeAsked(ns: seq<nat>, wrapped: bool, n: nat)
    requires Shape(ns, wrapped)
    requires ns != [] ==> !wrapped && n > ns[|ns| - 1]
    ensures Shape(ns + [n], wrapped)
  {
    IncreasingSnoc(ns, n);
  }

  lemma Repeats(ns: seq<nat>, n: nat)
    requires n in ns
    ensures !Distinct(ns + [n])
  {
    var k :| 0 <= k < |ns| && ns[k] == n;
    assert (ns + [n])[k] == (ns + [n])[|ns|];
  }

  lemma DistinctPrefix(a: seq<nat>, n: nat)
    requires Distinct(a + [n])
    ensures Distinct(a)
  {
    assert forall i :: 0 <= i < |a| ==> a[i] == (a + [n])[i];
  }

  /** The first event that is not fresh repeats a nonce. */
  lemma StaleRepeats(es: seq<Event>, s: Sender)
    requires es != [] && Uint64Replies(es) && NeverBack(es, s)
    requires StaysFresh(es[..|es| - 1], s) && !StaysFresh(es, s)
    ensures !Distinct(AllHanded(es, s))
  {
    hide Distinct, Shape, Covers;
    var front, e := es[..|es| - 1], es[|es| - 1];
    var given := AllHanded(front, s);
    FrontReplies(es);
    CacheFollowsAlways(front, s);
    HandOne(es);
    if s in AfterAll(front) {
      FreshShape(front, s);
      ShapeCloses(given, Wrapped(front, s), AfterAll(front)[s]);
    } else {
      HandedCover(front, s);
      CoversReport(given, LastReport(front, s), Wrapped(front, s), e.reply.value);
    }
    Repeats(given, Issued(AfterAll(front), e).value);
  }

  lemma ShapeCloses(ns: seq<nat>, wrapped: bool, n: nat)
    requires Shape(ns, wrapped) && ns != [] && n == Next(ns[|ns| - 1])
    requires wrapped || n == 0
    requires n >= ns[0]
    requires ns[0] < TWO_64
    ensures n in ns
  {
    assert n == ns[0];
  }

  lemma CoversReport(ns: seq<nat>, first: nat, wrapped: bool, n: nat)
    requires Covers(ns, first, wrapped) && first <= n < TWO_64
    requires wrapped || n <= ns[|ns| - 1]
    ensures n in ns
  {
  }

  /** With a node that never goes back, all nonces handed to a sender are distinct
      exactly when it stays fresh; without a wrap, exactly when every report is at
      least the successor of the last nonce handed out. */
  lemma {:induction false} HandedDistinctExactly(es: seq<Event>, s: Sender)
    requires Uint64Replies(es) && NeverBack(es, s)
    ensures Distinct(AllHanded(es, s)) <==> StaysFresh(es, s)
    ensures !Wrapped(es, s) ==> (StaysFresh(es, s) <==> ReportsAdvance(es, s))
  {
    hide Distinct, Shape;
    if es == [] {
      EmptyShape();
      ShapeIsDistinct([], false);
    } else {
      var front, e := es[..|es| - 1], es[|es| - 1];
      FrontReplies(es);
      HandedDistinctExactly(front, s);
      if StaysFresh(es, s) {
        FreshShape(es, s);
        ShapeIsDistinct(AllHanded(es, s), Wrapped(es, s));
      } else if StaysFresh(front, s) {
        StaleRepeats(es, s);
      } else if e.sender == s && Issued(AfterAll(front), e).Some? {
        var n := Issued(AfterAll(front), e).value;
        if Distinct(AllHanded(es, s)) {
          DistinctPrefix(AllHanded(front, s), n);
        }
      }
    }
  }

  /** A timeout invalidates before the node has seen the transaction: the node
      reports the same nonce, and it is handed out twice. */
  lemma NonceRepeats(s: Sender, n: nat) returns (es: seq<Event>)
    ensures es == [Take(s, Some(n)), Forget(s), Take(s, Some(n))]
    ensures AllHanded(es, s) == [n, n] && NeverBack(es, s) && !ReportsAdvance(es, s)
  {
    var take := Take(s, Some(n));
    es := [take, Forget(s), take];
    assert es[..2] == [take, Forget(s)] && es[..2][..1] == [take] && [take][..0] == [];
    assert AfterAll([]) == map[] && LastReport([], s) == 0 && Asks([], take, s);
    assert AllHanded([take], s) == [n] && LastReport([take], s) == n && NeverBack([take], s);
    assert AllHanded(es[..2], s) == [n] && LastReport(es[..2], s) == n && NeverBack(es[..2], s);
    assert s !in AfterAll([take, Forget(s)]);
  }
}
