/** The fuzzer's GossipSub publisher, which keeps one host and its joined topics
    and rotates the host after maxUse publishes (gossip_attacks.go). Hosts are
    numbered in the order they are created. */
module Gossip {
  import opened Bytes

  /** A joined topic belongs to the host it was joined on. */
  datatype Handle = Handle(host: nat, name: string)

  /** How the network answers during one call of publish. */
  datatype Replies = Replies(created: bool, connected: bool, meshed: bool, joined: bool, delivered: bool)

  /** A publish that was handed to the network: through which handle, on which
      host, and whether both were still open. */
  datatype Sent = Sent(handle: Handle, host: nat, open: bool)

  /** The publisher's fields, and what happened outside it: hosts made so far,
      what has been closed, and every publish. */
  datatype State = State(
    h: Option<nat>,
    topics: map<string, Handle>,
    uses: int,
    made: nat,
    shutHosts: set<nat>,
    shutTopics: set<Handle>,
    log: seq<Sent>)

  const INITIAL := State(None, map[], 0, 0, {}, {}, [])

  function CloseOld(s: State): State {
    s.(shutTopics := s.shutTopics + s.topics.Values,
       shutHosts := s.shutHosts + if s.h.Some? then {s.h.value} else {})
  }

  predicate ResetSucceeds(r: Replies) {
    r.created && r.connected && r.meshed
  }

  /** A reset that fails at any step leaves the old host and topics, now closed,
      in place. */
  function Reset(s: State, r: Replies): State {
    var c := CloseOld(s);
    if !r.created then c
    else if !r.connected || !r.meshed then c.(made := c.made + 1, shutHosts := c.shutHosts + {c.made})
    else c.(made := c.made + 1, h := Some(c.made), topics := map[], uses := 0)
  }

  predicate MustReset(s: State, maxUse: int) {
    s.h.None? || s.uses >= maxUse
  }

  function Send(s: State, name: string): State
    requires s.h.Some? && name in s.topics
  {
    var t := s.topics[name];
    s.(uses := s.uses + 1,
       log := s.log + [Sent(t, s.h.value, t !in s.shutTopics && t.host !in s.shutHosts)])
  }

  function JoinAndSend(s: State, name: string, r: Replies): State
    requires s.h.Some?
  {
    if name in s.topics then Send(s, name)
    else if r.joined then Send(s.(topics := s.topics[name := Handle(s.h.value, name)]), name)
    else s
  }

  function Publish(s: State, maxUse: int, name: string, r: Replies): State {
    if !MustReset(s, maxUse) then JoinAndSend(s, name, r)
    else if ResetSucceeds(r) then JoinAndSend(Reset(s, r), name, r)
    else Reset(s, r)
  }

  datatype Op = Publishing(name: string, replies: Replies) | Closing

  function After(s: State, maxUse: int, op: Op): State {
    match op
    case Publishing(name, r) => Publish(s, maxUse, name, r)
    case Closing => CloseOld(s)
  }

  function Run(maxUse: int, ops: seq<Op>): State {
    if ops == [] then INITIAL else After(Run(maxUse, ops[..|ops| - 1]), maxUse, ops[|ops| - 1])
  }

  // ------------------------------------------------------------------ every run

  function Carried(log: seq<Sent>, host: nat): (n: nat) {
    if log == [] then 0
    else Carried(log[..|log| - 1], host) + if log[|log| - 1].host == host then 1 else 0
  }

  function Limit(maxUse: int): int {
    if maxUse > 1 then maxUse else 1
  }

  /** What every run keeps, closed or not: cached topics belong to the current
      host, every other host ever made is closed, and uses counts the current
      host's publishes. */
  ghost predicate Inv(s: State, maxUse: int) {
    && (s.h.Some? ==> s.h.value < s.made && s.uses == Carried(s.log, s.h.value))
    && 0 <= s.uses <= Limit(maxUse)
    && (forall n :: n in s.topics ==> s.h.Some? && s.topics[n] == Handle(s.h.value, n))
    && (forall x :: x in s.shutHosts ==> x < s.made)
    && (forall t :: t in s.shutTopics ==> t.host in s.shutHosts)
    && (forall x :: 0 <= x < s.made && s.h != Some(x) ==> x in s.shutHosts)
    && (forall x: nat :: x >= s.made ==> Carried(s.log, x) == 0)
    && (forall x: nat :: Carried(s.log, x) <= Limit(maxUse))
    && (forall k :: 0 <= k < |s.log| ==> s.log[k].handle.host == s.log[k].host)
  }

  /** The next publish would go out on the cached host, and it is closed. */
  predicate Stale(s: State, maxUse: int) {
    !MustReset(s, maxUse) && s.h.value in s.shutHosts
  }

  lemma CarriedSnoc(log: seq<Sent>, e: Sent, x: nat)
    ensures Carried(log + [e], x) == Carried(log, x) + if e.host == x then 1 else 0
  {
    assert (log + [e])[..|log|] == log;
  }

  lemma SendKeeps(s: State, maxUse: int, name: string, r: Replies)
    requires Inv(s, maxUse) && s.h.Some? && s.uses < Limit(maxUse)
    ensures var s' := JoinAndSend(s, name, r);
            && Inv(s', maxUse) && s'.shutHosts == s.shutHosts && s'.h == s.h
            && (s'.log == s.log ||
                s'.log == s.log + [Sent(Handle(s.h.value, name), s.h.value, s.h.value !in s.shutHosts)])
  {
    var s' := JoinAndSend(s, name, r);
    if s' != s {
      var e := s'.log[|s.log|];
      assert s'.log == s.log + [e];
      forall x: nat ensures Carried(s'.log, x) == Carried(s.log, x) + if e.host == x then 1 else 0 {
        CarriedSnoc(s.log, e, x);
      }
    }
  }

  lemma CloseKeeps(s: State, maxUse: int)
    requires Inv(s, maxUse)
    ensures Inv(CloseOld(s), maxUse)
  {
    var c := CloseOld(s);
    forall t | t in c.shutTopics ensures t.host in c.shutHosts {
      if t !in s.shutTopics {
        var n :| n in s.topics && s.topics[n] == t;
      }
    }
  }

  lemma ResetKeeps(s: State, maxUse: int, r: Replies)
    requires Inv(s, maxUse)
    ensures Inv(Reset(s, r), maxUse)
    ensures ResetSucceeds(r) ==>
              Reset(s, r).h == Some(s.made) && s.made !in Reset(s, r).shutHosts && Reset(s, r).uses == 0
  {
    CloseKeeps(s, maxUse);
  }

  /** A publish keeps the invariant, and what it sends goes through a handle of
      its own host, open exactly when the state was not stale. */
  lemma PublishStep(s: State, maxUse: int, name: string, r: Replies)
    requires Inv(s, maxUse)
    ensures var s' := Publish(s, maxUse, name, r);
            && Inv(s', maxUse)
            && (s'.log != s.log ==>
                  s'.h.Some? && s'.log == s.log + [Sent(Handle(s'.h.value, name), s'.h.value, !Stale(s, maxUse))])
            && (Stale(s', maxUse) ==> Stale(s, maxUse))
  {
    if !MustReset(s, maxUse) {
      SendKeeps(s, maxUse, name, r);
    } else {
      ResetKeeps(s, maxUse, r);
      if ResetSucceeds(r) {
        SendKeeps(Reset(s, r), maxUse, name, r);
      }
    }
  }

  /** When a publish is handed to the network, and on which host. A host with uses
      left is used, if the topic is cached or can be joined; otherwise a new host is
      made, connected and meshed first, and the topic joined on it. */
  lemma PublishExactly(s: State, maxUse: int, name: string, r: Replies)
    requires Inv(s, maxUse)
    ensures var s' := Publish(s, maxUse, name, r);
            var usable := s.h.Some? && s.uses < maxUse;
            var renewed := !usable && r.created && r.connected && r.meshed;
            && (|s'.log| > |s.log| <==> (usable && (name in s.topics || r.joined)) || (renewed && r.joined))
            && s.log <= s'.log && |s'.log| <= |s.log| + 1
            && (usable ==> s'.h == s.h && s'.made == s.made && s'.shutHosts == s.shutHosts)
            && (renewed ==> s'.h == Some(s.made) && s'.made == s.made + 1 && s.made !in s'.shutHosts)
            && (!renewed ==> s'.h == s.h)
            && (!usable && s.h.Some? ==> s.h.value in s'.shutHosts)
            && s'.uses == (if renewed then 0 else s.uses) + |s'.log| - |s.log|
            && (|s'.log| > |s.log| ==> name in s'.topics)
  {
  }

  lemma {:induction false} RunInv(maxUse: int, ops: seq<Op>)
    ensures Inv(Run(maxUse, ops), maxUse)
  {
    if ops == [] {
    } else {
      RunInv(maxUse, ops[..|ops| - 1]);
      var s := Run(maxUse, ops[..|ops| - 1]);
      match ops[|ops| - 1]
      case Publishing(name, r) => PublishStep(s, maxUse, name, r);
      case Closing => CloseKeeps(s, maxUse);
    }
  }

  /** In every run, whatever fails in it: no host carries more than maxUse
      publishes (one, if maxUse is not positive), and no publish goes through a
      topic of an earlier host. Hosts made and no longer used are all closed. */
  lemma HostsAreRotated(maxUse: int, ops: seq<Op>)
    ensures var s := Run(maxUse, ops);
            && (forall x: nat :: Carried(s.log, x) <= Limit(maxUse))
            && (forall k :: 0 <= k < |s.log| ==> s.log[k].handle.host == s.log[k].host)
            && (forall x :: 0 <= x < s.made && s.h != Some(x) ==> x in s.shutHosts)
  {
    RunInv(maxUse, ops);
  }

  /** Before close, every publish goes through an open topic of an open host. */
  lemma {:induction false} NothingClosedIsUsed(maxUse: int, ops: seq<Op>)
    requires Closing !in ops
    ensures var s := Run(maxUse, ops);
            !Stale(s, maxUse) && forall k :: 0 <= k < |s.log| ==> s.log[k].open
  {
    if ops == [] {
    } else {
      var before := ops[..|ops| - 1];
      NothingClosedIsUsed(maxUse, before);
      RunInv(maxUse, before);
      var op := ops[|ops| - 1];
      assert op.Publishing?;
      PublishStep(Run(maxUse, before), maxUse, op.name, op.replies);
    }
  }

  /** close leaves the host in place: the next publish goes through the closed
      host exactly when the host's uses are not used up. */
  lemma AfterClose(maxUse: int, ops: seq<Op>, name: string, r: Replies)
    ensures var s := Run(maxUse, ops + [Closing]);
            var s' := Publish(s, maxUse, name, r);
            s'.log != s.log ==> (!s'.log[|s.log|].open <==> s.h.Some? && s.uses < maxUse)
  {
    var all := ops + [Closing];
    assert all[..|ops|] == ops;
    RunInv(maxUse, all);
    PublishStep(Run(maxUse, all), maxUse, name, r);
  }

  // ------------------------------------------------------------------ the publisher

  class GossipPublisher {
    var h: Option<nat>
    var topics: map<string, Handle>
    var uses: int
    const maxUse: int
    ghost var made: nat
    ghost var shutHosts: set<nat>
    ghost var shutTopics: set<Handle>
    ghost var log: seq<Sent>

    ghost function Now(): State
      reads this
    {
      State(h, topics, uses, made, shutHosts, shutTopics, log)
    }

    constructor (maxUse: int)
      ensures Now() == INITIAL && this.maxUse == maxUse
    {
      this.maxUse := maxUse;
      h, topics, uses := None, map[], 0;
      made, shutHosts, shutTopics, log := 0, {}, {}, [];
    }

    method CloseTopics()
      modifies `shutTopics
      ensures shutTopics == old(shutTopics) + topics.Values
    {
      var left := topics.Keys;
      while left != {}
        invariant left <= topics.Keys
        invariant old(shutTopics) <= shutTopics <= old(shutTopics) + topics.Values
        invariant forall n :: n in topics && n !in left ==> topics[n] in shutTopics
        decreases |left|
      {
        var n :| n in left;
        shutTopics := shutTopics + {topics[n]};
        left := left - {n};
      }
    }

    /** close, and the first half of reset: every cached topic, then the host. */
    method Close()
      modifies this
      ensures Now() == CloseOld(old(Now()))
      ensures h == old(h) && topics == old(topics) && uses == old(uses) && made == old(made) && log == old(log)
      ensures shutTopics == old(shutTopics) + topics.Values
      ensures shutHosts == old(shutHosts) + (if h.Some? then {h.value} else {})
    {
      CloseTopics();
      if h.Some? {
        shutHosts := shutHosts + {h.value};
      }
    }

    method ResetHost(r: Replies, newHost: nat) returns (ok: bool)
      requires newHost == made
      modifies this
      ensures Now() == Reset(old(Now()), r) && (ok <==> r.created && r.connected && r.meshed)
      ensures ok ==> h == Some(newHost) && topics == map[] && uses == 0
      ensures !ok ==> h == old(h) && topics == old(topics) && uses == old(uses)
      ensures made == old(made) + (if r.created then 1 else 0) && log == old(log)
      ensures shutTopics == old(shutTopics) + old(topics).Values
      ensures shutHosts == old(shutHosts) + (if old(h).Some? then {old(h).value} else {})
                           + (if r.created && !ok then {newHost} else {})
    {
      Close();
      if !r.created {
        return false;
      }
      made := made + 1;
      if !r.connected {
        shutHosts := shutHosts + {newHost};
        return false;
      }
      if !r.meshed {
        shutHosts := shutHosts + {newHost};
        return false;
      }
      h, topics, uses := Some(newHost), map[], 0;
      return true;
    }

    /** newHost is the identity a successful creation gives; the error reported
        is that of the reset, the join or the publish. */
    method PublishTo(name: string, r: Replies, newHost: nat) returns (ok: bool)
      requires newHost == made && Inv(Now(), maxUse)
      modifies this
      ensures Now() == Publish(old(Now()), maxUse, name, r) && Inv(Now(), maxUse)
      ensures ok <==> |log| > |old(log)| && r.delivered
    {
      hide Inv, Carried;
      PublishStep(Now(), maxUse, name, r);
      if h.None? || uses >= maxUse {
        var reset := ResetHost(r, newHost);
        if !reset {
          return false;
        }
      }
      var topic;
      if name in topics {
        topic := topics[name];
      } else {
        if !r.joined {
          return false;
        }
        topic := Handle(h.value, name);
        topics := topics[name := topic];
      }
      uses := uses + 1;
      log := log + [Sent(topic, h.value, topic !in shutTopics && topic.host !in shutHosts)];
      return r.delivered;
    }
  }
}
