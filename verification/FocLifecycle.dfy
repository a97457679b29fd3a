/** The FOC lifecycle and its piece queues (foc_vectors.go): setup in strict
    order, then uploads, additions and deletions, with every step free to fail. */
module FocLifecycle {
  import opened Bytes

  datatype Phase = Init | Approved | Deposited | OperatorApproved | DataSetCreated | Ready

  datatype Piece = Piece(cid: string, id: int)

  /** Which addresses and keys the configuration holds; loaded is false when
      there is no configuration. The service provider's key may appear later. */
  datatype Config = Config(
    loaded: bool, client: bool, clientAddr: bool, usdfc: bool, filPay: bool, fwss: bool, pdp: bool)

  /** What happened since the last reset: CIDs uploaded and CIDs added on chain,
      entries that entered and left the added list, deletions scheduled, and the
      client id whose service was terminated. */
  datatype History = History(
    uploads: multiset<string>,
    moved: multiset<string>,
    entered: multiset<Piece>,
    removed: multiset<Piece>,
    scheduled: multiset<Piece>,
    terminatedFor: Option<nat>)

  const NOTHING := History(multiset{}, multiset{}, multiset{}, multiset{}, multiset{}, None)

  datatype State = State(
    phase: Phase,
    clientId: Option<nat>,
    onChainId: int,
    uploaded: seq<Piece>,
    added: seq<Piece>,
    terminating: bool,
    spKey: bool,
    hist: History)

  function Initial(spKey: bool): State {
    State(Init, None, 0, [], [], false, spKey, NOTHING)
  }

  // ------------------------------------------------------------------ replies

  /** The replies one lifecycle step meets; keyFound says whether reloading the
      service provider's key finds one. */
  datatype SetupReplies = SetupReplies(
    confirmed: bool, keyFound: bool, clientId: nat, signed: bool, submitted: bool, onChainId: Option<int>)

  datatype UploadReplies = UploadReplies(reachable: bool, cid: Option<string>, stored: bool, indexed: bool)

  datatype AddReplies = AddReplies(decodes: bool, signed: bool, submitted: bool, ids: Option<seq<int>>)

  datatype DeleteReplies = DeleteReplies(keyFound: bool, signed: bool, sent: bool)

  datatype RemoveReplies = RemoveReplies(keyFound: bool, terminated: bool, signed: bool, deleted: bool)

  // ------------------------------------------------------------------ one step

  function Reload(s: State, keyFound: bool): State {
    s.(spKey := s.spKey || keyFound)
  }

  function CreateDataSet(cfg: Config, s: State, r: SetupReplies): State {
    if !cfg.fwss || !cfg.pdp then s
    else
      var k := Reload(s, r.keyFound);
      if k.spKey && r.signed && r.submitted && r.onChainId.Some?
      then k.(clientId := Some(r.clientId), onChainId := r.onChainId.value, phase := DataSetCreated)
      else k
  }

  function Lifecycle(cfg: Config, s: State, r: SetupReplies): State {
    if !cfg.loaded || !cfg.client then s
    else
      match s.phase
      case Init => if cfg.usdfc && cfg.filPay && r.confirmed then s.(phase := Approved) else s
      case Approved =>
        if cfg.usdfc && cfg.filPay && cfg.clientAddr && r.confirmed then s.(phase := Deposited) else s
      case Deposited =>
        if cfg.filPay && cfg.fwss && cfg.usdfc && r.confirmed then s.(phase := OperatorApproved) else s
      case OperatorApproved => CreateDataSet(cfg, s, r)
      case DataSetCreated => if s.onChainId == 0 then s else s.(phase := Ready)
      case Ready => Reload(s, r.keyFound)
  }

  predicate UploadSucceeds(r: UploadReplies) {
    r.reachable && r.cid.Some? && r.stored && r.indexed
  }

  function UploadPiece(cfg: Config, s: State, r: UploadReplies): State {
    if !cfg.loaded || s.phase != Ready || !UploadSucceeds(r) then s
    else s.(uploaded := s.uploaded + [Piece(r.cid.value, 0)],
            hist := s.hist.(uploads := s.hist.uploads + multiset{r.cid.value}))
  }

  /** One entry for each confirmed id, or a single unconfirmed one. */
  function Entries(cid: string, ids: seq<int>): seq<Piece> {
    if ids == [] then [Piece(cid, -1)] else seq(|ids|, i requires 0 <= i < |ids| => Piece(cid, ids[i]))
  }

  predicate AddSucceeds(s: State, r: AddReplies) {
    s.onChainId != 0 && r.decodes && r.signed && r.submitted && r.ids.Some?
  }

  predicate CanAdd(cfg: Config, s: State) {
    cfg.loaded && cfg.client && cfg.fwss && s.phase == Ready && s.uploaded != []
  }

  function AddPieces(cfg: Config, s: State, r: AddReplies): State {
    if !CanAdd(cfg, s) then s
    else
      var piece, rest := s.uploaded[0], s.uploaded[1..];
      if !AddSucceeds(s, r) then s.(uploaded := rest + [piece])
      else
        var entries := Entries(piece.cid, r.ids.value);
        s.(uploaded := rest, added := s.added + entries,
           hist := s.hist.(moved := s.hist.moved + multiset{piece.cid},
                           entered := s.hist.entered + multiset(entries)))
  }

  /** The last entry is taken off before anything is checked about it. */
  function DeletePiece(cfg: Config, s: State, r: DeleteReplies): State {
    if !cfg.loaded || !cfg.client || !cfg.fwss || !cfg.pdp then s
    else
      var k := Reload(s, r.keyFound);
      if !k.spKey || k.phase != Ready || k.added == [] then k
      else
        var piece := k.added[|k.added| - 1];
        var h := k.hist.(removed := k.hist.removed + multiset{piece});
        var out := k.(added := k.added[..|k.added| - 1], hist := h);
        if k.onChainId != 0 && piece.id > 0 && r.signed && r.sent
        then out.(hist := h.(scheduled := h.scheduled + multiset{piece}))
        else out
  }

  /** Terminate the service first; delete and start over in a later call. */
  function DeleteDataSet(cfg: Config, s: State, r: RemoveReplies): State {
    if !cfg.loaded || s.phase != Ready || s.onChainId == 0 || !cfg.client || !cfg.fwss || !cfg.pdp then s
    else
      var k := Reload(s, r.keyFound);
      if !k.spKey then k
      else if !k.terminating then
        if r.terminated then k.(terminating := true, hist := k.hist.(terminatedFor := k.clientId)) else k
      else if r.signed && r.deleted then Initial(k.spKey)
      else k
  }

  datatype Op =
    | Setup(setup: SetupReplies)
    | Upload(upload: UploadReplies)
    | Add(add: AddReplies)
    | Delete(delete: DeleteReplies)
    | Remove(remove: RemoveReplies)

  function After(cfg: Config, s: State, op: Op): State {
    match op
    case Setup(r) => Lifecycle(cfg, s, r)
    case Upload(r) => UploadPiece(cfg, s, r)
    case Add(r) => AddPieces(cfg, s, r)
    case Delete(r) => DeletePiece(cfg, s, r)
    case Remove(r) => DeleteDataSet(cfg, s, r)
  }

  function Run(cfg: Config, s: State, ops: seq<Op>): State {
    if ops == [] then s else After(cfg, Run(cfg, s, ops[..|ops| - 1]), ops[|ops| - 1])
  }

  // ------------------------------------------------------------------ every run

  function Cids(ps: seq<Piece>): (m: multiset<string>) {
    if ps == [] then multiset{} else Cids(ps[..|ps| - 1]) + multiset{ps[|ps| - 1].cid}
  }

  /** The state an observer may rely on. */
  ghost predicate PhaseInv(s: State) {
    && (s.phase == Ready ==> s.onChainId != 0 && s.clientId.Some?)
    && (s.phase == DataSetCreated ==> s.clientId.Some?)
    && (s.phase.Init? || s.phase.Approved? || s.phase.Deposited? || s.phase.OperatorApproved? ==>
          s.onChainId == 0 && s.clientId == None)
    && (s.phase != Ready ==> s.uploaded == [] && s.added == [] && !s.terminating && s.hist == NOTHING)
    && (s.terminating ==> s.hist.terminatedFor == s.clientId)
  }

  /** Nothing uploaded is lost or doubled, and nothing is added, removed or
      scheduled out of thin air. */
  ghost predicate PiecesInv(s: State) {
    var h := s.hist;
    && h.uploads == Cids(s.uploaded) + h.moved
    && h.entered == multiset(s.added) + h.removed
    && h.scheduled <= h.removed
    && (forall p :: p in h.scheduled ==> p.id > 0)
    && SameCids(h.entered, h.moved)
  }

  ghost predicate SameCids(entered: multiset<Piece>, moved: multiset<string>) {
    && (forall p :: p in entered ==> p.cid in moved)
    && (forall c :: c in moved ==> exists p :: p in entered && p.cid == c)
  }

  lemma {:induction false} CidsOfSum(a: seq<Piece>, b: seq<Piece>)
    ensures Cids(a + b) == Cids(a) + Cids(b)
  {
    if b == [] {
      assert a + b == a;
    } else {
      assert (a + b)[..|a + b| - 1] == a + b[..|b| - 1];
      CidsOfSum(a, b[..|b| - 1]);
    }
  }

  lemma CidsOfOne(p: Piece)
    ensures Cids([p]) == multiset{p.cid}
  {
    assert [p][..0] == [];
  }

  lemma CidsOfFront(ps: seq<Piece>)
    requires ps != []
    ensures Cids(ps) == multiset{ps[0].cid} + Cids(ps[1..])
  {
    assert ps == [ps[0]] + ps[1..];
    CidsOfSum([ps[0]], ps[1..]);
    CidsOfOne(ps[0]);
  }

  /** Which replies make a setup step succeed, and what it then records. */
  lemma SetupExactly(cfg: Config, s: State, r: SetupReplies)
    ensures var s' := Lifecycle(cfg, s, r);
            && (s'.phase != s.phase <==> cfg.loaded && cfg.client && match s.phase
                  case Init => cfg.usdfc && cfg.filPay && r.confirmed
                  case Approved => cfg.usdfc && cfg.filPay && cfg.clientAddr && r.confirmed
                  case Deposited => cfg.filPay && cfg.fwss && cfg.usdfc && r.confirmed
                  case OperatorApproved =>
                    cfg.fwss && cfg.pdp && (s.spKey || r.keyFound) && r.signed && r.submitted && r.onChainId.Some?
                  case DataSetCreated => s.onChainId != 0
                  case Ready => false)
            && (s'.phase != s.phase ==> Rank(s'.phase) == Rank(s.phase) + 1)
            && if s.phase == OperatorApproved && s'.phase == DataSetCreated
               then s'.clientId == Some(r.clientId) && Some(s'.onChainId) == r.onChainId
               else s'.clientId == s.clientId && s'.onChainId == s.onChainId
  {
  }

  lemma SetupLeavesPieces(cfg: Config, s: State, r: SetupReplies)
    ensures var s' := Lifecycle(cfg, s, r);
            var reloads := cfg.loaded && cfg.client
                           && (s.phase == Ready || (s.phase == OperatorApproved && cfg.fwss && cfg.pdp));
            && s' == s.(phase := s'.phase, clientId := s'.clientId, onChainId := s'.onChainId, spKey := s'.spKey)
            && (s'.spKey <==> s.spKey || (reloads && r.keyFound))
  {
  }

  /** An upload is queued exactly when Curio answers, the CID is computed, and the
      piece is stored and indexed. */
  lemma UploadExactly(cfg: Config, s: State, r: UploadReplies)
    ensures var s' := UploadPiece(cfg, s, r);
            if cfg.loaded && s.phase == Ready && r.reachable && r.cid.Some? && r.stored && r.indexed then
              && s'.uploaded == s.uploaded + [Piece(r.cid.value, 0)]
              && s'.hist.uploads == s.hist.uploads + multiset{r.cid.value}
              && s' == s.(uploaded := s'.uploaded, hist := s.hist.(uploads := s'.hist.uploads))
            else s' == s
  {
  }

  /** The newest entry is taken off whenever there is one and the key is at hand,
      and its removal is scheduled exactly when besides the data set and the entry
      have ids and the message is signed and sent. */
  lemma DeleteExactly(cfg: Config, s: State, r: DeleteReplies)
    ensures var s' := DeletePiece(cfg, s, r);
            var on := cfg.loaded && cfg.client && cfg.fwss && cfg.pdp;
            var taken := on && (s.spKey || r.keyFound) && s.phase == Ready && s.added != [];
            && (s'.spKey <==> s.spKey || (on && r.keyFound))
            && s' == s.(spKey := s'.spKey, added := s'.added,
                        hist := s.hist.(removed := s'.hist.removed, scheduled := s'.hist.scheduled))
            && (!taken ==> s'.added == s.added && s'.hist == s.hist)
            && (taken ==>
                  var last := s.added[|s.added| - 1];
                  && s.added == s'.added + [last] && s'.hist.removed == s.hist.removed + multiset{last}
                  && s'.hist.scheduled ==
                       if s.onChainId != 0 && last.id > 0 && r.signed && r.sent
                       then s.hist.scheduled + multiset{last} else s.hist.scheduled)
  {
  }

  /** The service is terminated by one call, and the lifecycle starts over in a
      later one, exactly when the replies allow. */
  lemma RemoveExactly(cfg: Config, s: State, r: RemoveReplies)
    ensures var s' := DeleteDataSet(cfg, s, r);
            var on := cfg.loaded && cfg.client && cfg.fwss && cfg.pdp && s.phase == Ready && s.onChainId != 0;
            var key := s.spKey || r.keyFound;
            && (on && key && s.terminating && r.signed && r.deleted ==>
                  && s'.phase == Init && s'.clientId == None && s'.onChainId == 0 && s'.uploaded == s'.added == []
                  && !s'.terminating && s'.spKey && s'.hist == NOTHING)
            && (!(on && key && s.terminating && r.signed && r.deleted) ==>
                  && (s'.terminating <==> s.terminating || (on && key && r.terminated))
                  && (s'.spKey <==> s.spKey || (on && r.keyFound))
                  && s'.hist.terminatedFor ==
                       (if s'.terminating != s.terminating then s.clientId else s.hist.terminatedFor)
                  && s' == s.(spKey := s'.spKey, terminating := s'.terminating,
                              hist := s.hist.(terminatedFor := s'.hist.terminatedFor)))
  {
  }

  lemma UploadKeeps(cfg: Config, s: State, r: UploadReplies)
    requires PiecesInv(s)
    ensures PiecesInv(UploadPiece(cfg, s, r))
  {
    var s' := UploadPiece(cfg, s, r);
    if s' != s {
      assert s'.uploaded[..|s.uploaded|] == s.uploaded;
    }
  }

  lemma RotatedIsSame(q: seq<Piece>)
    requires q != []
    ensures multiset(q[1..] + [q[0]]) == multiset(q) && Cids(q[1..] + [q[0]]) == Cids(q)
  {
    hide Cids;
    CidsOfSum(q[1..], [q[0]]);
    CidsOfSum([q[0]], q[1..]);
    assert q == [q[0]] + q[1..];
  }

  /** An addition succeeds exactly when the data set is known and the CID decodes,
      the message is signed and submitted, and an answer comes: then the front
      piece becomes one entry per confirmed id, in order, or a single one with id
      -1. Any failure sends the piece to the back, and no piece is lost. */
  lemma AddStep(cfg: Config, s: State, r: AddReplies)
    requires cfg.loaded && cfg.client && cfg.fwss && s.phase == Ready && s.uploaded != []
    ensures var s' := AddPieces(cfg, s, r);
            var front, rest, n := s.uploaded[0], s.uploaded[1..], |s.added|;
            && s' == s.(uploaded := s'.uploaded, added := s'.added, hist := s'.hist)
            && if s.onChainId != 0 && r.decodes && r.signed && r.submitted && r.ids.Some? then
                 && s'.uploaded == rest && s.added < s'.added
                 && (r.ids.value == [] ==> s'.added == s.added + [Piece(front.cid, -1)])
                 && (r.ids.value != [] ==> |s'.added| == n + |r.ids.value|)
                 && forall k :: 0 <= k < |r.ids.value| ==> s'.added[n + k] == Piece(front.cid, r.ids.value[k])
               else
                 s'.uploaded == rest + [front] && s'.added == s.added && s'.hist == s.hist
  {
  }

  lemma CannotAdd(cfg: Config, s: State, r: AddReplies)
    requires !(cfg.loaded && cfg.client && cfg.fwss && s.phase == Ready && s.uploaded != [])
    ensures AddPieces(cfg, s, r) == s
  {
  }

  lemma SameCidsGrow(entered: multiset<Piece>, moved: multiset<string>, cid: string, ids: seq<int>)
    requires SameCids(entered, moved)
    ensures SameCids(entered + multiset(Entries(cid, ids)), moved + multiset{cid})
  {
    var more := multiset(Entries(cid, ids));
    assert Entries(cid, ids)[0] in more;
    forall c | c in moved + multiset{cid} ensures exists p :: p in entered + more && p.cid == c {
      if c == cid {
        assert Entries(cid, ids)[0] in entered + more;
      } else {
        var p :| p in entered && p.cid == c;
        assert p in entered + more;
      }
    }
  }

  lemma AddKeeps(cfg: Config, s: State, r: AddReplies)
    requires PiecesInv(s)
    ensures PiecesInv(AddPieces(cfg, s, r))
  {
    hide Cids, SameCids, Entries;
    if CanAdd(cfg, s) {
      RotatedIsSame(s.uploaded);
      CidsOfFront(s.uploaded);
      if AddSucceeds(s, r) {
        SameCidsGrow(s.hist.entered, s.hist.moved, s.uploaded[0].cid, r.ids.value);
      }
    }
  }

  lemma DeleteKeeps(cfg: Config, s: State, r: DeleteReplies)
    requires PiecesInv(s)
    ensures PiecesInv(DeletePiece(cfg, s, r))
  {
    hide Cids, SameCids;
    if s.added != [] {
      PopLast(s.added, s.hist.removed, s.hist.scheduled);
    }
  }

  lemma PopLast(added: seq<Piece>, removed: multiset<Piece>, scheduled: multiset<Piece>)
    requires added != [] && scheduled <= removed
    ensures var last := multiset{added[|added| - 1]};
            && multiset(added) + removed == multiset(added[..|added| - 1]) + (removed + last)
            && scheduled <= removed + last && scheduled + last <= removed + last
  {
    assert added == added[..|added| - 1] + [added[|added| - 1]];
  }

  lemma SetupKeeps(cfg: Config, s: State, r: SetupReplies)
    requires PiecesInv(s)
    ensures PiecesInv(Lifecycle(cfg, s, r))
  {
    hide Cids, SameCids;
    var s' := Lifecycle(cfg, s, r);
    assert s'.hist == s.hist && s'.uploaded == s.uploaded && s'.added == s.added;
  }

  lemma RemoveKeeps(cfg: Config, s: State, r: RemoveReplies)
    requires PiecesInv(s)
    ensures PiecesInv(DeleteDataSet(cfg, s, r))
  {
    hide Cids, SameCids;
    FreshPieces();
  }

  lemma PiecesStep(cfg: Config, s: State, op: Op)
    requires PiecesInv(s)
    ensures PiecesInv(After(cfg, s, op))
  {
    hide PiecesInv, Lifecycle, UploadPiece, AddPieces, DeletePiece, DeleteDataSet;
    match op
    case Setup(r) => SetupKeeps(cfg, s, r);
    case Upload(r) => UploadKeeps(cfg, s, r);
    case Add(r) => AddKeeps(cfg, s, r);
    case Delete(r) => DeleteKeeps(cfg, s, r);
    case Remove(r) => RemoveKeeps(cfg, s, r);
  }

  lemma FreshPieces()
    ensures forall spKey :: PiecesInv(Initial(spKey))
  {
  }

  lemma FreshPhase()
    ensures forall spKey :: PhaseInv(Initial(spKey))
  {
  }

  lemma PhaseStep(cfg: Config, s: State, op: Op)
    requires PhaseInv(s)
    ensures PhaseInv(After(cfg, s, op))
  {
  }

  /** In every run of the deck: Ready has a data set and a client id, setup holds
      no pieces, and the pieces add up. */
  lemma {:induction false} RunKeeps(cfg: Config, spKey: bool, ops: seq<Op>)
    ensures var s := Run(cfg, Initial(spKey), ops);
            PhaseInv(s) && PiecesInv(s)
  {
    hide PhaseInv, PiecesInv, After;
    FreshPieces();
    FreshPhase();
    if ops == [] {
    } else {
      RunKeeps(cfg, spKey, ops[..|ops| - 1]);
      var s := Run(cfg, Initial(spKey), ops[..|ops| - 1]);
      PhaseStep(cfg, s, ops[|ops| - 1]);
      PiecesStep(cfg, s, ops[|ops| - 1]);
    }
  }

  /** Operation k creates the data set: every reply is good and the ids are these. */
  ghost predicate CreatesAt(cfg: Config, spKey: bool, ops: seq<Op>, k: nat, clientId: nat, onChainId: int)
    requires k < |ops|
  {
    && Run(cfg, Initial(spKey), ops[..k]).phase == OperatorApproved && ops[k].Setup?
    && var r := ops[k].setup;
       r.signed && r.submitted && r.onChainId == Some(onChainId) && r.clientId == clientId
  }

  /** In every run, the two ids are those that one operation drew and was told
      when it created the data set. */
  lemma {:induction false} IdsComeFromReplies(cfg: Config, spKey: bool, ops: seq<Op>) returns (k: nat)
    requires Run(cfg, Initial(spKey), ops).clientId.Some?
    ensures var s := Run(cfg, Initial(spKey), ops);
            k < |ops| && CreatesAt(cfg, spKey, ops, k, s.clientId.value, s.onChainId)
  {
    hide Lifecycle, AddPieces, DeletePiece, DeleteDataSet, UploadPiece, PiecesInv;
    var n := |ops| - 1;
    var before, op := Run(cfg, Initial(spKey), ops[..n]), ops[n];
    RunKeeps(cfg, spKey, ops[..n]);
    match op {
      case Setup(r) => SetupExactly(cfg, before, r);
      case Upload(r) => UploadExactly(cfg, before, r);
      case Add(r) => if CanAdd(cfg, before) { AddStep(cfg, before, r); } else { CannotAdd(cfg, before, r); }
      case Delete(r) => DeleteExactly(cfg, before, r);
      case Remove(r) => RemoveExactly(cfg, before, r);
    }
    var s := Run(cfg, Initial(spKey), ops);
    if before.clientId == s.clientId && before.onChainId == s.onChainId {
      k := IdsComeFromReplies(cfg, spKey, ops[..n]);
      assert ops[..n][..k] == ops[..k];
    } else {
      k := n;
    }
  }

  /** Every CID in the added list was uploaded since the last reset. */
  lemma AddedWereUploaded(cfg: Config, spKey: bool, ops: seq<Op>, k: nat)
    requires var s := Run(cfg, Initial(spKey), ops); k < |s.added|
    ensures var s := Run(cfg, Initial(spKey), ops);
            s.added[k].cid in s.hist.uploads
  {
    RunKeeps(cfg, spKey, ops);
    var s := Run(cfg, Initial(spKey), ops);
    assert s.added[k] in multiset(s.added);
  }

  lemma DeleteOne(cfg: Config, s: State, d: DeleteReplies, a: seq<Piece>, b: seq<Piece>)
    requires cfg.loaded && cfg.client && cfg.fwss && cfg.pdp && s.spKey && s.phase == Ready
    requires s.added == a + b && b != []
    ensures var t := DeletePiece(cfg, s, d);
            t.added == a + b[..|b| - 1] && t.phase == Ready && t.spKey
  {
    assert s.added[..|s.added| - 1] == a + b[..|b| - 1];
  }

  function Deleting(n: nat, d: DeleteReplies): seq<Op> {
    seq(n, _ => Delete(d))
  }

  /** Deletions take the newest entries first: as many of them as an addition
      made entries undo its effect on the added list, whether or not the
      deletions can be signed and sent. */
  lemma {:induction false} DeletionsUndoAddition(cfg: Config, s: State, r: AddReplies, d: DeleteReplies, n: nat)
    requires CanAdd(cfg, s) && AddSucceeds(s, r) && n <= |Entries(s.uploaded[0].cid, r.ids.value)|
    requires cfg.pdp && s.spKey
    ensures var t := Run(cfg, AddPieces(cfg, s, r), Deleting(n, d));
            var entries := Entries(s.uploaded[0].cid, r.ids.value);
            && t.added == s.added + entries[..|entries| - n]
            && t.phase == Ready && t.spKey
  {
    hide DeletePiece, Entries;
    var entries := Entries(s.uploaded[0].cid, r.ids.value);
    if n == 0 {
      assert entries[..|entries|] == entries;
    } else {
      DeletionsUndoAddition(cfg, s, r, d, n - 1);
      assert Deleting(n, d)[..n - 1] == Deleting(n - 1, d);
      var t := Run(cfg, AddPieces(cfg, s, r), Deleting(n - 1, d));
      DeleteOne(cfg, t, d, s.added, entries[..|entries| - (n - 1)]);
      assert entries[..|entries| - (n - 1)][..|entries| - n] == entries[..|entries| - n];
    }
  }

  function Rank(p: Phase): nat {
    match p
    case Init => 0
    case Approved => 1
    case Deposited => 2
    case OperatorApproved => 3
    case DataSetCreated => 4
    case Ready => 5
  }

  /** In every run the phase moves one step forward, or from Ready to a fresh
      start, and only after the service of this very client id was terminated. */
  lemma PhasesInOrder(cfg: Config, spKey: bool, ops: seq<Op>, op: Op)
    ensures var s := Run(cfg, Initial(spKey), ops);
            var s' := After(cfg, s, op);
            || Rank(s.phase) <= Rank(s'.phase) <= Rank(s.phase) + 1
            || (s.phase == Ready && op.Remove? && s.hist.terminatedFor == s.clientId && s.clientId.Some?
                && s' == Initial(true))
  {
    hide PiecesInv, Run;
    RunKeeps(cfg, spKey, ops);
  }

  /** A data set reported with id 0 blocks the lifecycle for good: from
      DataSetCreated, Ready is reached by some run exactly when the id is not 0. */
  lemma {:induction false} ZeroIdBlocks(cfg: Config, s: State, ops: seq<Op>)
    requires s.phase == DataSetCreated && s.onChainId == 0
    ensures Run(cfg, s, ops).phase == DataSetCreated && Run(cfg, s, ops).onChainId == 0
  {
    if ops == [] {
    } else {
      ZeroIdBlocks(cfg, s, ops[..|ops| - 1]);
    }
  }

  ghost predicate LeadsToReady(cfg: Config, s: State, ops: seq<Op>) {
    Run(cfg, s, ops).phase == Ready
  }

  lemma ReadyIsReachable(cfg: Config, s: State)
    requires s.phase == DataSetCreated && cfg.loaded && cfg.client
    ensures (exists ops :: LeadsToReady(cfg, s, ops)) <==> s.onChainId != 0
  {
    if s.onChainId == 0 {
      forall ops ensures !LeadsToReady(cfg, s, ops) {
        ZeroIdBlocks(cfg, s, ops);
      }
    } else {
      var op := Setup(SetupReplies(false, false, 0, false, false, None));
      assert [op][..0] == [];
      assert Run(cfg, s, []) == s;
      assert LeadsToReady(cfg, s, [op]);
    }
  }

  lemma RotateOnce(q: seq<Piece>, n: nat)
    requires 0 < n < |q|
    ensures var t := q[n - 1..] + q[..n - 1];
            |t| == |q| && t[1..] + [t[0]] == q[n..] + q[..n]
  {
  }

  function Failing(n: nat, r: AddReplies): seq<Op> {
    seq(n, _ => Add(r))
  }

  /** Failing additions go round: after n of them the piece n places back is the
      next to be tried, so no piece holds up the others. */
  lemma {:induction false} EveryPieceGetsItsTurn(cfg: Config, s: State, r: AddReplies, n: nat)
    requires CanAdd(cfg, s) && !AddSucceeds(s, r) && n < |s.uploaded|
    ensures Run(cfg, s, Failing(n, r)) == s.(uploaded := s.uploaded[n..] + s.uploaded[..n])
  {
    if n == 0 {
      assert s.uploaded[0..] + s.uploaded[..0] == s.uploaded;
    } else {
      EveryPieceGetsItsTurn(cfg, s, r, n - 1);
      assert Failing(n, r)[..n - 1] == Failing(n - 1, r);
      RotateOnce(s.uploaded, n);
    }
  }

  // ------------------------------------------------------------------ the runtime

  /** The global lifecycle state; one deck thread runs its actions in turn. */
  class FocRuntime {
    var phase: Phase
    var clientId: Option<nat>
    var onChainId: int
    var uploadedPieces: seq<Piece>
    var addedPieces: seq<Piece>
    var terminationInitiated: bool
    var spKey: bool
    const cfg: Config
    ghost var hist: History

    ghost function Now(): State
      reads this
    {
      State(phase, clientId, onChainId, uploadedPieces, addedPieces, terminationInitiated, spKey, hist)
    }

    constructor (cfg: Config, spKey: bool)
      ensures Now() == Initial(spKey) && this.cfg == cfg
    {
      this.cfg, this.spKey := cfg, spKey;
      phase, clientId, onChainId := Init, None, 0;
      uploadedPieces, addedPieces, terminationInitiated := [], [], false;
      hist := NOTHING;
    }

    method ReloadSPKey(keyFound: bool)
      modifies this
      ensures Now() == Reload(old(Now()), keyFound)
    {
      if !spKey {
        spKey := keyFound;
      }
    }

    method DoStepCreateDataSet(r: SetupReplies)
      modifies this
      ensures Now() == CreateDataSet(cfg, old(Now()), r)
    {
      if !cfg.fwss || !cfg.pdp {
        return;
      }
      if !spKey {
        ReloadSPKey(r.keyFound);
        if !spKey {
          return;
        }
      }
      if !r.signed || !r.submitted || r.onChainId.None? {
        return;
      }
      clientId, onChainId, phase := Some(r.clientId), r.onChainId.value, DataSetCreated;
    }

    method DoFOCLifecycle(r: SetupReplies)
      modifies this
      ensures Now() == Lifecycle(cfg, old(Now()), r)
    {
      if !cfg.loaded || !cfg.client {
        return;
      }
      match phase {
        case Init =>
          if cfg.usdfc && cfg.filPay && r.confirmed {
            phase := Approved;
          }
        case Approved =>
          if cfg.usdfc && cfg.filPay && cfg.clientAddr && r.confirmed {
            phase := Deposited;
          }
        case Deposited =>
          if cfg.filPay && cfg.fwss && cfg.usdfc && r.confirmed {
            phase := OperatorApproved;
          }
        case OperatorApproved => DoStepCreateDataSet(r);
        case DataSetCreated =>
          if onChainId != 0 {
            phase := Ready;
          }
        case Ready => ReloadSPKey(r.keyFound);
      }
    }

    method DoFOCUploadPiece(r: UploadReplies)
      modifies this
      ensures Now() == UploadPiece(cfg, old(Now()), r)
    {
      if !cfg.loaded || phase != Ready || !r.reachable || r.cid.None? || !r.stored || !r.indexed {
        return;
      }
      uploadedPieces := uploadedPieces + [Piece(r.cid.value, 0)];
      hist := hist.(uploads := hist.uploads + multiset{r.cid.value});
    }

    method ReturnPiece(piece: Piece)
      modifies this`uploadedPieces
      ensures uploadedPieces == old(uploadedPieces) + [piece]
    {
      uploadedPieces := uploadedPieces + [piece];
    }

    /** The entries of one confirmed addition, appended one at a time. */
    method RecordAdded(cid: string, ids: seq<int>)
      modifies this`addedPieces
      ensures addedPieces == old(addedPieces) + Entries(cid, ids)
    {
      if |ids| > 0 {
        for i := 0 to |ids|
          invariant addedPieces == old(addedPieces) + Entries(cid, ids)[..i]
        {
          addedPieces := addedPieces + [Piece(cid, ids[i])];
        }
      } else {
        addedPieces := addedPieces + [Piece(cid, -1)];
      }
    }

    method DoFOCAddPieces(r: AddReplies)
      modifies this
      ensures Now() == AddPieces(cfg, old(Now()), r)
    {
      if !cfg.loaded || !cfg.client || !cfg.fwss || phase != Ready || uploadedPieces == [] {
        return;
      }
      var piece := uploadedPieces[0];
      uploadedPieces := uploadedPieces[1..];
      if onChainId == 0 {
        ReturnPiece(piece);
        return;
      }
      if !r.decodes {
        ReturnPiece(piece);
        return;
      }
      if !r.signed {
        ReturnPiece(piece);
        return;
      }
      if !r.submitted {
        ReturnPiece(piece);
        return;
      }
      if r.ids.None? {
        ReturnPiece(piece);
        return;
      }
      RecordAdded(piece.cid, r.ids.value);
      hist := hist.(moved := hist.moved + multiset{piece.cid},
                    entered := hist.entered + multiset(Entries(piece.cid, r.ids.value)));
    }

    method DoFOCDeletePiece(r: DeleteReplies)
      modifies this
      ensures Now() == DeletePiece(cfg, old(Now()), r)
    {
      if !cfg.loaded || !cfg.client || !cfg.fwss || !cfg.pdp {
        return;
      }
      ReloadSPKey(r.keyFound);
      if !spKey || phase != Ready || addedPieces == [] {
        return;
      }
      var piece := addedPieces[|addedPieces| - 1];
      addedPieces := addedPieces[..|addedPieces| - 1];
      hist := hist.(removed := hist.removed + multiset{piece});
      if onChainId == 0 || piece.id <= 0 || !r.signed {
        return;
      }
      if r.sent {
        hist := hist.(scheduled := hist.scheduled + multiset{piece});
      }
    }

    method DoFOCDeleteDataSet(r: RemoveReplies)
      modifies this
      ensures Now() == DeleteDataSet(cfg, old(Now()), r)
    {
      if !cfg.loaded || phase != Ready || onChainId == 0 || !cfg.client || !cfg.fwss || !cfg.pdp {
        return;
      }
      ReloadSPKey(r.keyFound);
      if !spKey {
        return;
      }
      if !terminationInitiated {
        if !r.terminated {
          return;
        }
        terminationInitiated := true;
        hist := hist.(terminatedFor := clientId);
        return;
      }
      if !r.signed {
        return;
      }
      if r.deleted {
        phase, onChainId, clientId := Init, 0, None;
        addedPieces, uploadedPieces, terminationInitiated := [], [], false;
        hist := NOTHING;
      }
    }
  }
}
