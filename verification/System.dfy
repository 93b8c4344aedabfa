/** The whole chain as one step system: the store under its lock, the queue of
    messages, the queue of peer actions, the runner, and the octets each session
    has received. Every interleaving, every failed write, every second
    registration and every message that is too long is a possible run. */
module System {
  import opened Types
  import opened StoreSpec
  import opened Counts
  import opened Batch
  import opened Packet
  import opened Wire
  import opened Plugin
  import B = Broadcast
  import R = Runs
  import F = Refinement

  /** blocked is the message of a store call that waits for room in the queue and
      holds the lock meanwhile. stale is bookkeeping: for each session, the
      addresses about which it was not told the last word. */
  datatype Sys = Sys(
    store: State,
    blocked: Option<Message>,
    output: seq<Message>,
    action: seq<B.Action>,
    runner: B.Runner,
    used: set<B.Session>,
    stale: map<B.Session, set<Addr>>)

  datatype Step =
    | StoreCall(op: R.Op)
    | Enqueue
    | CallAddPeer(peer: PeerId, session: B.Session)
    | CallDelPeer(peer: PeerId)
    | RunAction(outcome: B.Outcome)
    | RunMessage(next: seq<Addr>, order: seq<PeerId>, outcomes: PeerId -> B.Outcome)
    | MarkEndOfRib(session: B.Session)

  ghost function Initially(names: seq<Domain>): Sys {
    Sys(Initial(names), None, [], [], B.Runner([], map[], map[]), {}, map[])
  }

  /** A store call takes the lock, so it waits for a blocked one. Sessions are
      never reused. The batches published are those the resolver can make. */
  ghost predicate Enabled(s: Sys, step: Step) {
    match step
    case StoreCall(op) => s.blocked == None && R.SafeOp(op)
    case Enqueue => s.blocked.Some? && |s.output| < B.CAPACITY
    case CallAddPeer(_, session) => |s.action| < B.CAPACITY && session !in s.used
    case CallDelPeer(_) => |s.action| < B.CAPACITY
    case RunAction(_) => s.action != []
    case RunMessage(next, order, _) =>
      s.output != [] && B.Covers(order, s.runner.peer) && B.NextList(s.runner.list, s.output[0], next)
    case MarkEndOfRib(session) => session in s.used
  }

  // ---------- who was told ----------

  ghost function InitialTable(r: B.Runner, pref: Quad): seq<Octet> {
    MessageBody(Message(CauseRemoval, r.list, []), pref)
  }

  /** The stale set of a session after an AddPeer action. */
  ghost function StaleAtStart(r: B.Runner, p: PeerId, outcome: B.Outcome, pref: Quad): set<Addr> {
    if p !in r.peer && outcome != B.UpdateFailed && FitsMessage(InitialTable(r, pref)) then {}
    else Elements(r.list)
  }

  /** The sessions that got the octets in the first k calls of a round. */
  ghost function Told(r: B.Runner, order: seq<PeerId>, k: nat, outcomes: PeerId -> B.Outcome, bs: seq<Octet>)
    : set<B.Session>
    requires k <= |order| && forall p :: p in order ==> p in r.peer
  {
    if k == 0 then {}
    else
      var told := Told(r, order, k - 1, outcomes, bs);
      if B.RoundTo(r.wire, r.peer, order, k - 1, outcomes, bs).aborted || outcomes(order[k - 1]) == B.UpdateFailed
      then told
      else told + {r.peer[order[k - 1]]}
  }

  ghost function StaleAfter(stale: map<B.Session, set<Addr>>, registered: set<B.Session>, told: set<B.Session>,
                            msg: Message, bs: seq<Octet>): map<B.Session, set<Addr>> {
    map s | s in stale ::
      if s !in registered then stale[s]
      else if s in told && FitsMessage(bs) then stale[s] - Touched(msg)
      else stale[s] + Touched(msg)
  }

  // ---------- steps ----------

  ghost function Next(s: Sys, step: Step, pref: Quad): Sys
    requires Enabled(s, step)
  {
    match step
    case StoreCall(op) =>
      var sent := R.SentBy(s.store, op);
      s.(store := R.After(s.store, op), blocked := if sent == [] then None else Some(sent[0]))
    case Enqueue => s.(blocked := None, output := s.output + [s.blocked.value])
    case CallAddPeer(p, session) =>
      s.(action := s.action + [B.AddPeer(p, session)], used := s.used + {session})
    case CallDelPeer(p) => s.(action := s.action + [B.RemovePeer(p)])
    case RunAction(outcome) =>
      var a := s.action[0];
      s.(action := s.action[1..],
         runner := B.AfterAction(s.runner, a, outcome, pref),
         stale := if a.AddPeer? then s.stale[a.session := StaleAtStart(s.runner, a.peer, outcome, pref)] else s.stale)
    case RunMessage(next, order, outcomes) =>
      var msg := s.output[0];
      var bs := MessageBody(msg, pref);
      assert forall p :: p in order ==> p in Elements(order);
      s.(output := s.output[1..],
         runner := B.AfterMessage(s.runner, msg, next, order, outcomes, pref),
         stale := if B.Empty(msg) then s.stale
                  else StaleAfter(s.stale, s.runner.peer.Values, Told(s.runner, order, |order|, outcomes, bs), msg, bs))
    case MarkEndOfRib(session) =>
      s.(runner := s.runner.(wire := s.runner.wire[session := B.Log(s.runner.wire, session) + [END_OF_RIB]]))
  }

  ghost function After(names: seq<Domain>, pref: Quad, steps: seq<Step>, n: nat): Option<Sys>
    requires n <= |steps|
  {
    if n == 0 then Some(Initially(names))
    else match After(names, pref, steps, n - 1)
         case None => None
         case Some(s) => if Enabled(s, steps[n - 1]) then Some(Next(s, steps[n - 1], pref)) else None
  }

  // ---------- the store and the broadcaster ----------

  function Pending(s: Sys): seq<Message> {
    s.output + if s.blocked == None then [] else [s.blocked.value]
  }

  /** Folding what is under way into the broadcaster's table gives the addresses
      with a counter. */
  ghost predicate TableFollows(s: Sys) {
    Folded(Elements(s.runner.list), Pending(s)) == s.store.list.Keys
  }

  lemma OneMessage(st: State, op: R.Op)
    ensures |R.SentBy(st, op)| <= 1
  {
  }

  lemma StepKeepsTable(s: Sys, step: Step, pref: Quad)
    requires Counted(s.store) && TableFollows(s) && Enabled(s, step)
    ensures Counted(Next(s, step, pref).store) && TableFollows(Next(s, step, pref))
  {
    hide Counted, R.After, R.SentBy, B.AfterMessage, MessageBody, Told, StaleAfter, StaleAtStart;
    var list := Elements(s.runner.list);
    match step
    case StoreCall(op) =>
      R.OpKeepsCounts(s.store, op);
      R.SentIsExact(s.store, op);
      OneMessage(s.store, op);
      var sent := R.SentBy(s.store, op);
      FoldedAppend(list, s.output, sent);
      assert s.output + [] == s.output;
      assert sent == [] || sent == [sent[0]];
    case Enqueue =>
      assert s.output + [s.blocked.value] + [] == s.output + [s.blocked.value];
    case RunMessage(next, order, outcomes) =>
      assert Pending(s)[0] == s.output[0] && Pending(s)[1..] == Pending(Next(s, step, pref));
      ListAfterMessage(s.runner, s.output[0], next, order, outcomes, pref);
    case _ =>
  }

  lemma ListAfterMessage(r: B.Runner, msg: Message, next: seq<Addr>, order: seq<PeerId>,
                         outcomes: PeerId -> B.Outcome, pref: Quad)
    requires B.Covers(order, r.peer) && B.NextList(r.list, msg, next)
    ensures Elements(B.AfterMessage(r, msg, next, order, outcomes, pref).list) == Patched(Elements(r.list), msg)
    ensures B.AfterMessage(r, msg, next, order, outcomes, pref).peer == r.peer
  {
    if B.Empty(msg) {
      assert Elements(msg.toUpdate) == {} && Elements(msg.toRemove) == {};
    }
  }

  // ---------- the peers ----------

  /** A session knows the broadcaster's table except for its stale addresses, and
      has no routes but host routes. */
  ghost predicate InStep(rib: set<Prefix>, list: set<Addr>, stale: set<Addr>) {
    && (forall x :: x in rib ==> exists a :: Host(a) == x)
    && (forall a: Addr :: a !in stale ==> (Host(a) in rib <==> a in list))
  }

  lemma InStepMeansSame(rib: set<Prefix>, list: set<Addr>)
    requires InStep(rib, list, {})
    ensures rib == Hosts(list)
  {
    forall x: Prefix
      ensures x in rib <==> x in Hosts(list)
    {
      if x in rib {
        var a :| Host(a) == x;
      }
    }
  }

  lemma ToldStaysInStep(rib: set<Prefix>, list: set<Addr>, stale: set<Addr>, msg: Message, pref: Quad)
    requires InStep(rib, list, stale) && FitsMessage(MessageBody(msg, pref))
    ensures InStep(Received(rib, MessageBody(msg, pref)), Patched(list, msg), stale - Touched(msg))
  {
    hide FitsMessage, MessageBody, Received;
    var after := Received(rib, MessageBody(msg, pref));
    forall x | x in after
      ensures exists a :: Host(a) == x
    {
      PeerFollows(rib, msg, pref, x);
    }
    forall a: Addr | a !in stale - Touched(msg)
      ensures Host(a) in after <==> a in Patched(list, msg)
    {
      PeerFollows(rib, msg, pref, Host(a));
      forall b | Host(b) == Host(a)
        ensures b == a
      {
        HostInjective(a, b);
      }
    }
  }

  lemma UntoldStaysInStep(rib: set<Prefix>, list: set<Addr>, stale: set<Addr>, msg: Message)
    requires InStep(rib, list, stale)
    ensures InStep(rib, Patched(list, msg), stale + Touched(msg))
  {
  }

  /** What one writer call does to the routes of a session. */
  lemma CallAndRib(wire: B.Logs, c: B.Session, bs: seq<Octet>, o: B.Outcome, s: B.Session)
    ensures Rib(B.Log(B.Called(wire, c, bs, o), s)) ==
            if s == c && o != B.UpdateFailed then Received(Rib(B.Log(wire, s)), bs) else Rib(B.Log(wire, s))
  {
    hide Received;
    var log := B.Log(wire, c);
    RibAppend(log, bs);
    RibAppend(log + [bs], END_OF_RIB);
    EndOfRibChangesNothing(Rib(log + [bs]));
  }

  /** Different peers write to different sessions. */
  ghost predicate Separate(peer: map<PeerId, B.Session>) {
    forall p, q :: p in peer && q in peer && peer[p] == peer[q] ==> p == q
  }

  lemma {:induction false} RoundAndRib(r: B.Runner, order: seq<PeerId>, k: nat, outcomes: PeerId -> B.Outcome,
                                       bs: seq<Octet>, s: B.Session)
    requires k <= |order| && Separate(r.peer) && NoDuplicates(order) && forall p :: p in order ==> p in r.peer
    ensures s in Told(r, order, k, outcomes, bs) ==> exists i :: 0 <= i < k && r.peer[order[i]] == s
    ensures Rib(B.Log(B.RoundTo(r.wire, r.peer, order, k, outcomes, bs).wire, s)) ==
            if s in Told(r, order, k, outcomes, bs) then Received(Rib(B.Log(r.wire, s)), bs) else Rib(B.Log(r.wire, s))
  {
    hide Received, B.Called, B.Log, Rib;
    if k == 0 {
    } else {
      RoundAndRib(r, order, k - 1, outcomes, bs, s);
      var c := r.peer[order[k - 1]];
      if c == s {
        assert forall i :: 0 <= i < k - 1 ==> order[i] != order[k - 1] && r.peer[order[i]] != s;
      }
      CallAndRib(B.RoundTo(r.wire, r.peer, order, k - 1, outcomes, bs).wire, c, bs, outcomes(order[k - 1]), s);
    }
  }

  ghost predicate PeerInStep(s: Sys, p: PeerId) {
    p in s.runner.peer ==>
      && s.runner.peer[p] in s.used && s.runner.peer[p] in s.stale
      && InStep(Rib(B.Log(s.runner.wire, s.runner.peer[p])), Elements(s.runner.list), s.stale[s.runner.peer[p]])
  }

  /** A session that waits to be registered: nobody writes to it yet. */
  ghost predicate Waiting(s: Sys, i: nat)
    requires i < |s.action|
  {
    s.action[i].AddPeer? ==>
      && s.action[i].session in s.used
      && Rib(B.Log(s.runner.wire, s.action[i].session)) == {}
      && (forall p :: p in s.runner.peer ==> s.runner.peer[p] != s.action[i].session)
      && (forall j :: i < j < |s.action| && s.action[j].AddPeer? ==> s.action[j].session != s.action[i].session)
  }

  ghost predicate PeersFollow(s: Sys) {
    && Separate(s.runner.peer)
    && (forall p :: PeerInStep(s, p))
    && (forall i :: 0 <= i < |s.action| ==> Waiting(s, i))
    && (forall session :: session !in s.used ==> Rib(B.Log(s.runner.wire, session)) == {})
  }

  /** A message changes the routes of the sessions that got it. */
  lemma RibsAfterMessage(r: B.Runner, msg: Message, next: seq<Addr>, order: seq<PeerId>,
                         outcomes: PeerId -> B.Outcome, pref: Quad, session: B.Session)
    requires Separate(r.peer) && B.Covers(order, r.peer) && !B.Empty(msg)
    ensures forall p :: p in order ==> p in r.peer
    ensures
      var bs := MessageBody(msg, pref);
      var told := Told(r, order, |order|, outcomes, bs);
      && Rib(B.Log(B.AfterMessage(r, msg, next, order, outcomes, pref).wire, session)) ==
         (if session in told then Received(Rib(B.Log(r.wire, session)), bs) else Rib(B.Log(r.wire, session)))
      && (session in told ==> exists p :: p in r.peer && r.peer[p] == session)
  {
    assert forall p :: p in order ==> p in Elements(order);
    hide MessageBody, Received, Rib, B.Log;
    var bs := MessageBody(msg, pref);
    RoundAndRib(r, order, |order|, outcomes, bs, session);
    if session in Told(r, order, |order|, outcomes, bs) {
      var i :| 0 <= i < |order| && r.peer[order[i]] == session;
      assert order[i] in r.peer;
    }
  }

  lemma MessageKeepsPeers(s: Sys, step: Step, pref: Quad)
    requires PeersFollow(s) && step.RunMessage? && Enabled(s, step)
    ensures PeersFollow(Next(s, step, pref))
  {
    var r, msg := s.runner, s.output[0];
    var t := Next(s, step, pref);
    assert forall p :: p in step.order ==> p in Elements(step.order);
    ListAfterMessage(r, msg, step.next, step.order, step.outcomes, pref);
    if B.Empty(msg) {
      hide InStep, Rib, B.Log, MessageBody, Told, B.RoundTo;
      QuietKeepsPeers(s, t);
    } else {
      var bs := MessageBody(msg, pref);
      var told := Told(r, step.order, |step.order|, step.outcomes, bs);
      forall session: B.Session
        ensures Rib(B.Log(t.runner.wire, session)) ==
                (if session in told then Received(Rib(B.Log(r.wire, session)), bs) else Rib(B.Log(r.wire, session)))
        ensures session in told ==> exists p :: p in r.peer && r.peer[p] == session
      {
        hide MessageBody, Received, Rib, B.Log, B.RoundTo, Told, B.NextList, PeersFollow;
        RibsAfterMessage(r, msg, step.next, step.order, step.outcomes, pref, session);
      }
      hide MessageBody, Received, Rib, B.Log, B.RoundTo, Told, B.NextList, Patched, Enabled, B.AfterMessage;
      ToldKeepsPeers(s, t, msg, pref, told);
    }
  }

  lemma ToldKeepsPeers(s: Sys, t: Sys, msg: Message, pref: Quad, told: set<B.Session>)
    requires PeersFollow(s) && t.action == s.action && t.used == s.used && t.runner.peer == s.runner.peer
    requires t.stale == StaleAfter(s.stale, s.runner.peer.Values, told, msg, MessageBody(msg, pref))
    requires Elements(t.runner.list) == Patched(Elements(s.runner.list), msg)
    requires forall session: B.Session ::
      && Rib(B.Log(t.runner.wire, session)) ==
         (if session in told then Received(Rib(B.Log(s.runner.wire, session)), MessageBody(msg, pref))
          else Rib(B.Log(s.runner.wire, session)))
      && (session in told ==> exists p :: p in s.runner.peer && s.runner.peer[p] == session)
    ensures PeersFollow(t)
  {
    hide MessageBody, Received, Rib, B.Log, Patched, InStep, StaleAfter;
    forall p
      ensures PeerInStep(t, p)
      ensures p in s.runner.peer ==> s.runner.peer[p] in s.used
    {
      assert PeerInStep(s, p);
      if p in s.runner.peer {
        MessageKeepsPeer(s, t, p, msg, pref, told);
      }
    }
    forall i | 0 <= i < |t.action|
      ensures Waiting(t, i)
    {
      assert Waiting(s, i);
    }
  }

  lemma MessageKeepsPeer(s: Sys, t: Sys, p: PeerId, msg: Message, pref: Quad, told: set<B.Session>)
    requires PeerInStep(s, p) && p in s.runner.peer && t.runner.peer == s.runner.peer && t.used == s.used
    requires t.stale == StaleAfter(s.stale, s.runner.peer.Values, told, msg, MessageBody(msg, pref))
    requires Elements(t.runner.list) == Patched(Elements(s.runner.list), msg)
    requires
      var session := s.runner.peer[p];
      Rib(B.Log(t.runner.wire, session)) ==
      if session in told then Received(Rib(B.Log(s.runner.wire, session)), MessageBody(msg, pref))
      else Rib(B.Log(s.runner.wire, session))
    ensures PeerInStep(t, p)
  {
    var session := s.runner.peer[p];
    var rib := Rib(B.Log(s.runner.wire, session));
    var list := Elements(s.runner.list);
    assert session in s.runner.peer.Values;
    if FitsMessage(MessageBody(msg, pref)) && session in told {
      hide InStep, Patched, Touched, MessageBody, FitsMessage, Received;
      ToldStaysInStep(rib, list, s.stale[session], msg, pref);
    } else {
      hide InStep, Patched, Touched, MessageBody;
      UntoldStaysInStep(rib, list, s.stale[session], msg);
    }
  }

  lemma ActionKeepsPeers(s: Sys, step: Step, pref: Quad)
    requires PeersFollow(s) && step.RunAction? && Enabled(s, step)
    ensures PeersFollow(Next(s, step, pref))
  {
    hide InStep, Rib, B.Log, MessageBody, FitsMessage, Received;
    if s.action[0].AddPeer? {
      AddKeepsPeers(s, step, pref);
    } else {
      var t := Next(s, step, pref);
      forall p
        ensures PeerInStep(t, p)
      {
        assert PeerInStep(s, p);
      }
      forall i | 0 <= i < |t.action|
        ensures Waiting(t, i)
      {
        assert Waiting(s, i + 1) && t.action[i] == s.action[i + 1];
      }
    }
  }

  lemma AddKeepsPeers(s: Sys, step: Step, pref: Quad)
    requires PeersFollow(s) && step.RunAction? && Enabled(s, step) && s.action[0].AddPeer?
    ensures PeersFollow(Next(s, step, pref))
  {
    hide InStep, Rib, B.Log, MessageBody, FitsMessage, Received, StaleAtStart, B.Called, InitialTable;
    var r, a := s.runner, s.action[0];
    var t := Next(s, step, pref);
    assert Waiting(s, 0);
    NewSession(s, a.peer, step.outcome, pref, a.session);
    forall other: B.Session | other != a.session
      ensures Rib(B.Log(t.runner.wire, other)) == Rib(B.Log(r.wire, other))
    {
      OtherSession(s, a.peer, step.outcome, pref, a.session, other);
    }
    forall p
      ensures PeerInStep(t, p)
    {
      assert PeerInStep(s, p);
    }
    forall i | 0 <= i < |t.action|
      ensures Waiting(t, i)
    {
      assert Waiting(s, i + 1) && t.action[i] == s.action[i + 1];
    }
  }

  lemma OtherSession(s: Sys, p: PeerId, outcome: B.Outcome, pref: Quad, c: B.Session, other: B.Session)
    requires other != c
    ensures Rib(B.Log(B.AfterAction(s.runner, B.AddPeer(p, c), outcome, pref).wire, other)) ==
            Rib(B.Log(s.runner.wire, other))
  {
    hide MessageBody, Received;
    CallAndRib(s.runner.wire, c, InitialTable(s.runner, pref), outcome, other);
  }

  /** A session that starts empty is in step but for its stale addresses. */
  lemma NewSession(s: Sys, p: PeerId, outcome: B.Outcome, pref: Quad, c: B.Session)
    requires Rib(B.Log(s.runner.wire, c)) == {}
    ensures InStep(Rib(B.Log(B.AfterAction(s.runner, B.AddPeer(p, c), outcome, pref).wire, c)),
                   Elements(s.runner.list), StaleAtStart(s.runner, p, outcome, pref))
  {
    var r := s.runner;
    var table := Message(CauseRemoval, r.list, []);
    CallAndRib(r.wire, c, MessageBody(table, pref), outcome, c);
    assert Patched({}, table) == Elements(r.list) && Elements(table.toRemove) == {};
    if FitsMessage(MessageBody(table, pref)) {
      hide MessageBody, FitsMessage, Received;
      ToldStaysInStep({}, {}, {}, table, pref);
      assert {} - Touched(table) == {};
    }
  }

  lemma StepKeepsPeers(s: Sys, step: Step, pref: Quad)
    requires PeersFollow(s) && Enabled(s, step)
    ensures PeersFollow(Next(s, step, pref))
  {
    var t := Next(s, step, pref);
    match step
    case RunMessage(_, _, _) =>
      hide PeersFollow, Next, Enabled;
      MessageKeepsPeers(s, step, pref);
    case RunAction(_) =>
      hide PeersFollow, Next, Enabled;
      ActionKeepsPeers(s, step, pref);
    case CallAddPeer(p, session) =>
      CallKeepsPeers(s, step, pref);
    case CallDelPeer(p) =>
      CallKeepsPeers(s, step, pref);
    case MarkEndOfRib(session) =>
      MarkerKeepsPeers(s, session, pref);
    case StoreCall(op) =>
      QuietKeepsPeers(s, t);
    case Enqueue =>
      QuietKeepsPeers(s, t);
  }

  lemma QuietKeepsPeers(s: Sys, t: Sys)
    requires PeersFollow(s) && t.action == s.action && t.used == s.used && t.stale == s.stale
    requires t.runner.list == s.runner.list && t.runner.peer == s.runner.peer
    requires forall c: B.Session :: Rib(B.Log(t.runner.wire, c)) == Rib(B.Log(s.runner.wire, c))
    ensures PeersFollow(t)
  {
    hide InStep, Rib, B.Log;
    forall p
      ensures PeerInStep(t, p)
    {
      assert PeerInStep(s, p);
    }
    forall i | 0 <= i < |t.action|
      ensures Waiting(t, i)
    {
      assert Waiting(s, i);
    }
  }

  lemma CallKeepsPeers(s: Sys, step: Step, pref: Quad)
    requires PeersFollow(s) && (step.CallAddPeer? || step.CallDelPeer?) && Enabled(s, step)
    ensures PeersFollow(Next(s, step, pref))
  {
    hide InStep, Rib, B.Log;
    var t := Next(s, step, pref);
    forall p
      ensures PeerInStep(t, p)
      ensures p in s.runner.peer ==> s.runner.peer[p] in s.used
    {
      assert PeerInStep(s, p);
    }
    forall i | 0 <= i < |t.action|
      ensures Waiting(t, i)
    {
      assert i < |s.action| ==> Waiting(s, i) && t.action[i] == s.action[i];
    }
  }

  lemma MarkAndRib(wire: B.Logs, session: B.Session, c: B.Session)
    ensures Rib(B.Log(wire[session := B.Log(wire, session) + [END_OF_RIB]], c)) == Rib(B.Log(wire, c))
  {
    hide Rib, Received;
    RibAppend(B.Log(wire, session), END_OF_RIB);
    EndOfRibChangesNothing(Rib(B.Log(wire, session)));
  }

  lemma MarkerKeepsPeers(s: Sys, session: B.Session, pref: Quad)
    requires PeersFollow(s) && session in s.used
    ensures PeersFollow(Next(s, MarkEndOfRib(session), pref))
  {
    var t := Next(s, MarkEndOfRib(session), pref);
    hide PeersFollow, Rib, B.Log;
    forall c: B.Session
      ensures Rib(B.Log(t.runner.wire, c)) == Rib(B.Log(s.runner.wire, c))
    {
      MarkAndRib(s.runner.wire, session, c);
    }
    QuietKeepsPeers(s, t);
  }

  // ---------- all runs ----------

  ghost predicate Invariant(s: Sys) {
    Counted(s.store) && TableFollows(s) && PeersFollow(s)
  }

  lemma InitialInvariant(names: seq<Domain>)
    ensures Invariant(Initially(names))
  {
    InitialIsCounted(names);
    hide Counted;
    var s := Initially(names);
    assert Pending(s) == [] && Elements(s.runner.list) == {} && s.store.list.Keys == {};
    assert forall session: B.Session :: B.Log(s.runner.wire, session) == [];
  }

  lemma {:induction false} RunKeepsInvariant(names: seq<Domain>, pref: Quad, steps: seq<Step>, n: nat)
    requires n <= |steps| && After(names, pref, steps, n).Some?
    ensures Invariant(After(names, pref, steps, n).value)
  {
    hide Counted, TableFollows, PeersFollow, Next, Enabled, Initially;
    if n == 0 {
      InitialInvariant(names);
    } else {
      RunKeepsInvariant(names, pref, steps, n - 1);
      var s := After(names, pref, steps, n - 1).value;
      StepKeepsTable(s, steps[n - 1], pref);
      StepKeepsPeers(s, steps[n - 1], pref);
    }
  }

  ghost predicate Quiescent(s: Sys) {
    s.output == [] && s.blocked == None
  }

  /** What every reachable state promises about its peers: each session has
      exactly the host routes of the broadcaster's table outside its stale set,
      and with nothing under way the table is the union of what all domains
      hold. */
  ghost predicate Agreement(s: Sys) {
    && s.store.list.Keys == Live(s.store.domains)
    && Folded(Elements(s.runner.list), Pending(s)) == Live(s.store.domains)
    && (Quiescent(s) ==> Elements(s.runner.list) == Live(s.store.domains))
    && forall p :: p in s.runner.peer ==>
         var rib := Rib(B.Log(s.runner.wire, s.runner.peer[p]));
         && s.runner.peer[p] in s.stale
         && InStep(rib, Elements(s.runner.list), s.stale[s.runner.peer[p]])
         && (s.stale[s.runner.peer[p]] == {} ==> rib == Hosts(Elements(s.runner.list)))
         && (s.stale[s.runner.peer[p]] == {} && Quiescent(s) ==> rib == Hosts(Live(s.store.domains)))
  }

  /** End to end: in every reachable state of the whole chain. */
  lemma EndToEnd(names: seq<Domain>, pref: Quad, steps: seq<Step>)
    requires After(names, pref, steps, |steps|).Some?
    ensures Agreement(After(names, pref, steps, |steps|).value)
  {
    RunKeepsInvariant(names, pref, steps, |steps|);
    var s := After(names, pref, steps, |steps|).value;
    hide After;
    AnnouncedIsLive(s.store);
    hide Counted, Live, InStep, Rib, B.Log, Hosts;
    forall p | p in s.runner.peer
      ensures s.runner.peer[p] in s.stale
      ensures
        var rib := Rib(B.Log(s.runner.wire, s.runner.peer[p]));
        && InStep(rib, Elements(s.runner.list), s.stale[s.runner.peer[p]])
        && (s.stale[s.runner.peer[p]] == {} ==> rib == Hosts(Elements(s.runner.list)))
    {
      assert PeerInStep(s, p);
      if s.stale[s.runner.peer[p]] == {} {
        InStepMeansSame(Rib(B.Log(s.runner.wire, s.runner.peer[p])), Elements(s.runner.list));
      }
    }
  }

  // ---------- runs without trouble ----------

  /** Every write succeeds, no registered peer is added again, and no message is
      too long for one UPDATE. */
  ghost predicate Clean(s: Sys, step: Step) {
    match step
    case RunAction(outcome) =>
      s.action != [] && s.action[0].AddPeer? ==>
        s.action[0].peer !in s.runner.peer && outcome == B.Sent && |s.runner.list| <= 810
    case RunMessage(_, order, outcomes) =>
      s.output != [] ==>
        |s.output[0].toUpdate| + |s.output[0].toRemove| <= 810 && forall p :: p in order ==> outcomes(p) == B.Sent
    case _ => true
  }

  ghost predicate NobodyStale(s: Sys) {
    forall p :: p in s.runner.peer && s.runner.peer[p] in s.stale ==> s.stale[s.runner.peer[p]] == {}
  }

  lemma {:induction false} EverybodyTold(r: B.Runner, order: seq<PeerId>, k: nat,
                                         outcomes: PeerId -> B.Outcome, bs: seq<Octet>)
    requires k <= |order| && forall p :: p in order ==> p in r.peer && outcomes(p) == B.Sent
    ensures !B.RoundTo(r.wire, r.peer, order, k, outcomes, bs).aborted
    ensures forall i :: 0 <= i < k ==> r.peer[order[i]] in Told(r, order, k, outcomes, bs)
  {
    if k == 0 {
    } else {
      EverybodyTold(r, order, k - 1, outcomes, bs);
    }
  }

  lemma CleanStepKeepsFresh(s: Sys, step: Step, pref: Quad)
    requires Invariant(s) && NobodyStale(s) && Enabled(s, step) && Clean(s, step)
    ensures NobodyStale(Next(s, step, pref))
  {
    hide Counted, TableFollows, InStep, Rib, B.Log, MessageBody, R.After, R.SentBy, B.NextList;
    match step
    case RunAction(outcome) =>
      var a := s.action[0];
      assert Waiting(s, 0);
      if a.AddPeer? {
        BodySize(Message(CauseRemoval, s.runner.list, []), pref);
      }
    case RunMessage(next, order, outcomes) =>
      var msg := s.output[0];
      BodySize(msg, pref);
      assert forall p :: p in order ==> p in Elements(order);
      if !B.Empty(msg) {
        EverybodyTold(s.runner, order, |order|, outcomes, MessageBody(msg, pref));
        forall p | p in s.runner.peer
          ensures s.runner.peer[p] in Told(s.runner, order, |order|, outcomes, MessageBody(msg, pref))
        {
          assert p in Elements(order);
          var i :| 0 <= i < |order| && order[i] == p;
        }
      }
    case _ =>
  }

  lemma {:induction false} CleanRunStaysFresh(names: seq<Domain>, pref: Quad, steps: seq<Step>, n: nat)
    requires n <= |steps| && After(names, pref, steps, n).Some?
    requires forall k :: 0 <= k < n && After(names, pref, steps, k).Some? ==>
               Clean(After(names, pref, steps, k).value, steps[k])
    ensures NobodyStale(After(names, pref, steps, n).value)
  {
    hide Invariant, NobodyStale, Clean, Next, Enabled;
    if n == 0 {
      NobodyAtFirst(names);
    } else {
      CleanRunStaysFresh(names, pref, steps, n - 1);
      RunKeepsInvariant(names, pref, steps, n - 1);
      CleanStepKeepsFresh(After(names, pref, steps, n - 1).value, steps[n - 1], pref);
    }
  }

  lemma NobodyAtFirst(names: seq<Domain>)
    ensures NobodyStale(Initially(names))
  {
  }

  /** In a run without trouble every registered peer holds the broadcaster's
      table, and with nothing under way exactly the union of the addresses of
      all domains. */
  lemma CleanRunsAgree(names: seq<Domain>, pref: Quad, steps: seq<Step>)
    requires After(names, pref, steps, |steps|).Some?
    requires forall k :: 0 <= k < |steps| && After(names, pref, steps, k).Some? ==>
               Clean(After(names, pref, steps, k).value, steps[k])
    ensures
      var s := After(names, pref, steps, |steps|).value;
      forall p :: p in s.runner.peer ==>
        && Rib(B.Log(s.runner.wire, s.runner.peer[p])) == Hosts(Elements(s.runner.list))
        && (Quiescent(s) ==> Rib(B.Log(s.runner.wire, s.runner.peer[p])) == Hosts(Live(s.store.domains)))
  {
    EndToEnd(names, pref, steps);
    CleanRunStaysFresh(names, pref, steps, |steps|);
    hide After, Clean, Rib, B.Log, Hosts, Live, InStep;
  }

  // ---------- what is on the wire, and how much waits ----------

  /** Octets that go out in one message are an UPDATE. */
  ghost predicate Readable(bs: seq<Octet>) {
    FitsMessage(bs) ==> Decode(bs).Some?
  }

  ghost predicate AllReadable(wire: B.Logs) {
    forall c: B.Session, bs :: bs in B.Log(wire, c) ==> Readable(bs)
  }

  lemma MarkerReadable()
    ensures Readable(END_OF_RIB)
  {
    EndOfRibChangesNothing({});
  }

  lemma CalledEntry(wire: B.Logs, c: B.Session, bs: seq<Octet>, o: B.Outcome, s: B.Session, x: seq<Octet>)
    requires x in B.Log(B.Called(wire, c, bs, o), s)
    ensures x in B.Log(wire, s) || x == bs || x == END_OF_RIB
  {
    hide B.Called, B.Log;
    B.CalledLog(wire, c, bs, o, s);
  }

  lemma CalledReadable(wire: B.Logs, c: B.Session, bs: seq<Octet>, o: B.Outcome)
    requires AllReadable(wire) && Readable(bs)
    ensures AllReadable(B.Called(wire, c, bs, o))
  {
    hide Readable, B.Called, B.Log;
    MarkerReadable();
    forall s: B.Session, x | x in B.Log(B.Called(wire, c, bs, o), s)
      ensures Readable(x)
    {
      CalledEntry(wire, c, bs, o, s, x);
    }
  }

  lemma {:induction false} RoundReadable(wire: B.Logs, peer: map<PeerId, B.Session>, order: seq<PeerId>, k: nat,
                                         outcomes: PeerId -> B.Outcome, bs: seq<Octet>)
    requires k <= |order| && forall p :: p in order ==> p in peer
    requires AllReadable(wire) && Readable(bs)
    ensures AllReadable(B.RoundTo(wire, peer, order, k, outcomes, bs).wire)
  {
    hide AllReadable, Readable, B.Called;
    if k == 0 {
    } else {
      RoundReadable(wire, peer, order, k - 1, outcomes, bs);
      CalledReadable(B.RoundTo(wire, peer, order, k - 1, outcomes, bs).wire, peer[order[k - 1]], bs, outcomes(order[k - 1]));
    }
  }

  lemma MessageReadable(msg: Message, pref: Quad)
    ensures Readable(MessageBody(msg, pref))
  {
    hide Decode;
    if FitsMessage(MessageBody(msg, pref)) {
      BodyDecodes(msg, pref);
    }
  }

  lemma StepReadable(s: Sys, step: Step, pref: Quad)
    requires AllReadable(s.runner.wire) && Enabled(s, step)
    ensures AllReadable(Next(s, step, pref).runner.wire)
  {
    hide AllReadable, MessageBody, Told, StaleAfter, StaleAtStart, Readable, B.Called;
    match step
    case RunAction(outcome) =>
      var table := Message(CauseRemoval, s.runner.list, []);
      MessageReadable(table, pref);
      if s.action[0].AddPeer? {
        CalledReadable(s.runner.wire, s.action[0].session, MessageBody(table, pref), outcome);
      }
    case RunMessage(next, order, outcomes) =>
      var bs := MessageBody(s.output[0], pref);
      MessageReadable(s.output[0], pref);
      assert forall p :: p in order ==> p in Elements(order);
      RoundReadable(s.runner.wire, s.runner.peer, order, |order|, outcomes, bs);
    case MarkEndOfRib(session) =>
      MarkReadable(s.runner.wire, session);
    case _ =>
  }

  lemma MarkReadable(wire: B.Logs, session: B.Session)
    requires AllReadable(wire)
    ensures AllReadable(wire[session := B.Log(wire, session) + [END_OF_RIB]])
  {
    hide Readable;
    MarkerReadable();
    var after := wire[session := B.Log(wire, session) + [END_OF_RIB]];
    forall s: B.Session, x | x in B.Log(after, s)
      ensures Readable(x)
    {
      assert x in B.Log(wire, s) || x == END_OF_RIB;
    }
  }

  lemma {:induction false} RunReadable(names: seq<Domain>, pref: Quad, steps: seq<Step>, n: nat)
    requires n <= |steps| && After(names, pref, steps, n).Some?
    ensures AllReadable(After(names, pref, steps, n).value.runner.wire)
    ensures |After(names, pref, steps, n).value.output| <= 10 && |After(names, pref, steps, n).value.action| <= 10
  {
    hide AllReadable, Enabled, Next, Initially;
    if n == 0 {
      NothingWritten(names);
    } else {
      RunReadable(names, pref, steps, n - 1);
      var s := After(names, pref, steps, n - 1).value;
      StepReadable(s, steps[n - 1], pref);
      StepBounded(s, steps[n - 1], pref);
    }
  }

  lemma NothingWritten(names: seq<Domain>)
    ensures AllReadable(Initially(names).runner.wire)
    ensures Initially(names).output == [] && Initially(names).action == []
  {
  }

  lemma StepBounded(s: Sys, step: Step, pref: Quad)
    requires Enabled(s, step) && |s.output| <= 10 && |s.action| <= 10
    ensures |Next(s, step, pref).output| <= 10 && |Next(s, step, pref).action| <= 10
  {
    hide B.AfterAction, B.AfterMessage, MessageBody, Told, StaleAfter, StaleAtStart, B.NextList, B.Covers;
  }

  /** In every reachable state: whatever was written to any session and fits one
      message decodes, and neither queue holds more than ten entries. */
  lemma EveryMessageDecodes(names: seq<Domain>, pref: Quad, steps: seq<Step>, c: B.Session, bs: seq<Octet>)
    requires After(names, pref, steps, |steps|).Some?
    requires bs in B.Log(After(names, pref, steps, |steps|).value.runner.wire, c) && FitsMessage(bs)
    ensures Decode(bs).Some?
    ensures |After(names, pref, steps, |steps|).value.output| <= 10
    ensures |After(names, pref, steps, |steps|).value.action| <= 10
  {
    RunReadable(names, pref, steps, |steps|);
    hide Decode, After, FitsMessage, B.Log;
    assert Readable(bs);
  }

  /** Who waits: a store call for another that is blocked, a blocked call and a
      call about a peer for room among ten, the runner for either queue. */
  lemma WhoWaits(s: Sys, op: R.Op, p: PeerId, c: B.Session, o: B.Outcome)
    requires R.SafeOp(op) && c !in s.used
    ensures Enabled(s, StoreCall(op)) <==> s.blocked == None
    ensures Enabled(s, Enqueue) <==> s.blocked.Some? && |s.output| < 10
    ensures Enabled(s, CallAddPeer(p, c)) <==> |s.action| < 10
    ensures Enabled(s, CallDelPeer(p)) <==> |s.action| < 10
    ensures Enabled(s, RunAction(o)) <==> s.action != []
    ensures s.output != [] <==> exists next, order :: Enabled(s, RunMessage(next, order, Always(o)))
  {
    hide B.AsSeq;
    if s.output != [] {
      var msg := s.output[0];
      var next := if B.Empty(msg) then s.runner.list else B.AsSeq(Patched(Elements(s.runner.list), msg));
      assert Enabled(s, RunMessage(next, B.AsSeq(s.runner.peer.Keys), Always(o)));
    }
  }

  // ---------- settling ----------

  /** Nothing is left to do: no message and no registration or removal. */
  ghost predicate Idle(s: Sys) {
    Quiescent(s) && s.action == []
  }

  ghost function Backlog(s: Sys): nat {
    |s.action| + |s.output| + if s.blocked == None then 0 else 2
  }

  /** A step of the chain itself: nobody calls the store or the broadcaster. */
  predicate Internal(step: Step) {
    step.Enqueue? || step.RunMessage? || step.RunAction?
  }

  lemma {:induction false} AfterPrefix(names: seq<Domain>, pref: Quad, steps: seq<Step>, more: seq<Step>, n: nat)
    requires n <= |steps|
    ensures After(names, pref, steps + more, n) == After(names, pref, steps, n)
  {
    hide Enabled, Next;
    if n == 0 {
    } else {
      AfterPrefix(names, pref, steps, more, n - 1);
    }
  }

  lemma OneStep(names: seq<Domain>, pref: Quad, steps: seq<Step>, step: Step, s: Sys)
    requires After(names, pref, steps, |steps|) == Some(s) && Enabled(s, step)
    ensures After(names, pref, steps + [step], |steps + [step]|) == Some(Next(s, step, pref))
  {
    hide Enabled, Next;
    AfterPrefix(names, pref, steps, [step], |steps|);
  }

  /** While anything is left to do, the runner or the blocked call can go on. */
  lemma NeverStuck(s: Sys, pref: Quad) returns (step: Step)
    requires !Idle(s)
    ensures Enabled(s, step) && Internal(step)
    ensures Backlog(Next(s, step, pref)) < Backlog(s) && Next(s, step, pref).store == s.store
  {
    hide B.AfterMessage, B.AfterAction, StaleAfter, StaleAtStart, Told, MessageBody, B.AsSeq;
    if s.action != [] {
      step := RunAction(B.Sent);
    } else if s.output == [] {
      step := Enqueue;
    } else {
      var msg := s.output[0];
      var list := if B.Empty(msg) then s.runner.list else B.AsSeq(Patched(Elements(s.runner.list), msg));
      step := RunMessage(list, B.AsSeq(s.runner.peer.Keys), p => B.Sent);
    }
  }

  /** Every step of the chain itself brings it closer to rest. */
  lemma InternalStepSettles(s: Sys, step: Step, pref: Quad)
    requires Internal(step) && Enabled(s, step)
    ensures Backlog(Next(s, step, pref)) < Backlog(s) && Next(s, step, pref).store == s.store
  {
    hide B.AfterMessage, B.AfterAction, StaleAfter, StaleAtStart, Told, MessageBody, B.NextList, B.Covers;
  }

  lemma {:induction false} InternalRunsEnd(names: seq<Domain>, pref: Quad, steps: seq<Step>, more: seq<Step>, k: nat)
    requires After(names, pref, steps, |steps|).Some? && k <= |more|
    requires After(names, pref, steps + more, |steps| + k).Some?
    requires forall step :: step in more ==> Internal(step)
    ensures k + Backlog(After(names, pref, steps + more, |steps| + k).value) <=
            Backlog(After(names, pref, steps, |steps|).value)
    ensures After(names, pref, steps + more, |steps| + k).value.store == After(names, pref, steps, |steps|).value.store
  {
    hide Enabled, Next, Backlog, Internal;
    if k == 0 {
      AfterPrefix(names, pref, steps, more, |steps|);
    } else {
      InternalRunsEnd(names, pref, steps, more, k - 1);
      var s := After(names, pref, steps + more, |steps| + k - 1).value;
      assert (steps + more)[|steps| + k - 1] == more[k - 1];
      InternalStepSettles(s, more[k - 1], pref);
    }
  }

  /** However the runner and a blocked call go on, they take no more steps than
      the backlog allows, with the same domains and counters, and they can only
      stop when nothing is left to do. */
  lemma EveryInternalRunSettles(names: seq<Domain>, pref: Quad, steps: seq<Step>, more: seq<Step>)
    requires After(names, pref, steps, |steps|).Some? && After(names, pref, steps + more, |steps + more|).Some?
    requires forall step :: step in more ==> Internal(step)
    ensures
      var s, t := After(names, pref, steps, |steps|).value, After(names, pref, steps + more, |steps + more|).value;
      && |more| <= Backlog(s) && t.store == s.store
      && (Idle(t) || exists step :: Internal(step) && Enabled(t, step))
  {
    hide Enabled, Next, Backlog, Internal, Idle, After;
    InternalRunsEnd(names, pref, steps, more, |more|);
    var t := After(names, pref, steps + more, |steps + more|).value;
    if !Idle(t) {
      var step := NeverStuck(t, pref);
    }
  }

  /** From every reachable state the chain can settle without further calls, with
      the same domains and counters. */
  lemma {:induction false} CanSettle(names: seq<Domain>, pref: Quad, steps: seq<Step>) returns (more: seq<Step>)
    requires After(names, pref, steps, |steps|).Some?
    ensures forall step :: step in more ==> Internal(step)
    ensures After(names, pref, steps + more, |steps + more|).Some?
    ensures Idle(After(names, pref, steps + more, |steps + more|).value)
    ensures
      After(names, pref, steps + more, |steps + more|).value.store == After(names, pref, steps, |steps|).value.store
    decreases Backlog(After(names, pref, steps, |steps|).value)
  {
    hide Enabled, Next, Idle, Backlog, Internal, After;
    var s := After(names, pref, steps, |steps|).value;
    if Idle(s) {
      more := [];
      assert steps + more == steps;
    } else {
      var step := NeverStuck(s, pref);
      OneStep(names, pref, steps, step, s);
      var rest := CanSettle(names, pref, steps + [step]);
      more := [step] + rest;
      assert steps + more == steps + [step] + rest;
    }
  }

  // ---------- trouble: exactly when a peer disagrees ----------

  ghost predicate Agrees(s: Sys, p: PeerId) {
    p in s.runner.peer && Rib(B.Log(s.runner.wire, s.runner.peer[p])) == Hosts(Elements(s.runner.list))
  }

  lemma {:induction false} ToldIffReached(r: B.Runner, order: seq<PeerId>, k: nat, outcomes: PeerId -> B.Outcome,
                                          bs: seq<Octet>, i: nat)
    requires k <= |order| && i < |order|
    requires Separate(r.peer) && NoDuplicates(order) && forall p :: p in order ==> p in r.peer
    ensures r.peer[order[i]] in Told(r, order, k, outcomes, bs) <==>
            i < k && B.Reached(order, i, outcomes) && outcomes(order[i]) != B.UpdateFailed
  {
    hide B.Reached, B.RoundTo, B.Log, B.Written;
    if k == 0 {
    } else {
      ToldIffReached(r, order, k - 1, outcomes, bs, i);
      B.RoundWrites(r.wire, r.peer, order, k - 1, outcomes, bs, 0);
      assert i != k - 1 ==> order[i] != order[k - 1];
    }
  }

  lemma HostsEqual(s: set<Addr>, t: set<Addr>)
    ensures Hosts(s) == Hosts(t) <==> s == t
  {
    if Hosts(s) == Hosts(t) {
      forall a: Addr
        ensures a in s <==> a in t
      {
        assert a in s ==> Host(a) in Hosts(s);
        assert a in t ==> Host(a) in Hosts(t);
        forall b | Host(b) == Host(a)
          ensures b == a
        {
          HostInjective(a, b);
        }
      }
    }
  }

  /** The session differs from the table only on addresses of which the message
      speaks. */
  ghost predicate Repairs(msg: Message, rib: set<Prefix>, table: set<Addr>) {
    forall a: Addr :: a !in Touched(msg) ==> (Host(a) in rib <==> a in table)
  }

  lemma ToldAgreesIff(rib: set<Prefix>, table: set<Addr>, stale: set<Addr>, msg: Message, pref: Quad)
    requires InStep(rib, table, stale) && FitsMessage(MessageBody(msg, pref))
    ensures Received(rib, MessageBody(msg, pref)) == Hosts(Patched(table, msg)) <==> Repairs(msg, rib, table)
  {
    hide FitsMessage, MessageBody, Received;
    var after := Received(rib, MessageBody(msg, pref));
    forall a: Addr
      ensures Host(a) in after <==> a in msg.toUpdate || (Host(a) in rib && a !in msg.toRemove)
      ensures Host(a) in Hosts(Patched(table, msg)) <==> a in Patched(table, msg)
    {
      PeerFollows(rib, msg, pref, Host(a));
      forall b | Host(b) == Host(a)
        ensures b == a
      {
        HostInjective(a, b);
      }
    }
    if Repairs(msg, rib, table) {
      forall x: Prefix
        ensures x in after <==> x in Hosts(Patched(table, msg))
      {
        PeerFollows(rib, msg, pref, x);
      }
    } else {
      var a: Addr :| a !in Touched(msg) && (Host(a) in rib <==> a !in table);
      assert Host(a) in after <==> Host(a) !in Hosts(Patched(table, msg));
    }
  }

  /** Any registered peer, in agreement before or not, agrees after a message: if
      nobody visited earlier failed, its own update was written and the message
      fits one UPDATE, exactly when the message speaks of every address on which
      it differed; otherwise exactly when its routes happen to be the new table. */
  lemma RoundRepairsIff(s: Sys, step: Step, pref: Quad, i: nat)
    requires PeersFollow(s) && step.RunMessage? && Enabled(s, step) && i < |step.order|
    ensures step.order[i] in s.runner.peer
    ensures
      var p, msg := step.order[i], s.output[0];
      var table, rib := Elements(s.runner.list), Rib(B.Log(s.runner.wire, s.runner.peer[p]));
      Agrees(Next(s, step, pref), p) <==>
        if B.Reached(step.order, i, step.outcomes) && step.outcomes(p) != B.UpdateFailed
           && |msg.toUpdate| + |msg.toRemove| <= 810
        then Repairs(msg, rib, table)
        else rib == Hosts(Patched(table, msg))
  {
    var r, msg, p := s.runner, s.output[0], step.order[i];
    assert p in Elements(step.order);
    assert PeerInStep(s, p);
    var table, rib, stale := Elements(r.list), Rib(B.Log(r.wire, r.peer[p])), s.stale[r.peer[p]];
    ListAfterMessage(r, msg, step.next, step.order, step.outcomes, pref);
    if B.Empty(msg) {
      EmptyRepairsIff(rib, table, stale, msg);
    } else {
      RibsAfterMessage(r, msg, step.next, step.order, step.outcomes, pref, r.peer[p]);
      ToldIffReached(r, step.order, |step.order|, step.outcomes, MessageBody(msg, pref), i);
      BodySize(msg, pref);
      if FitsMessage(MessageBody(msg, pref)) {
        ToldAgreesIff(rib, table, stale, msg, pref);
      }
      hide MessageBody, Rib, B.Log, Hosts, Repairs, InStep, PeersFollow, Told, B.RoundTo, B.NextList;
    }
  }

  lemma EmptyRepairsIff(rib: set<Prefix>, table: set<Addr>, stale: set<Addr>, msg: Message)
    requires InStep(rib, table, stale) && B.Empty(msg)
    ensures Patched(table, msg) == table
    ensures rib == Hosts(table) <==> Repairs(msg, rib, table)
  {
    assert Elements(msg.toUpdate) == {} && Elements(msg.toRemove) == {};
    if Repairs(msg, rib, table) {
      assert InStep(rib, table, {});
      InStepMeansSame(rib, table);
    } else {
      var a: Addr :| a !in Touched(msg) && (Host(a) in rib <==> a !in table);
      forall b | Host(b) == Host(a)
        ensures b == a
      {
        HostInjective(a, b);
      }
      assert Host(a) in Hosts(table) <==> a in table;
    }
  }

  lemma AgreeingRepairs(msg: Message, table: set<Addr>)
    ensures Repairs(msg, Hosts(table), table)
  {
    forall a: Addr
      ensures Host(a) in Hosts(table) <==> a in table
    {
      forall b | Host(b) == Host(a)
        ensures b == a
      {
        HostInjective(a, b);
      }
    }
  }

  /** A peer that agreed with the table before a message agrees after it if and
      only if nobody visited earlier failed, its own update was written, and the
      message fits one UPDATE; or else the message changes nothing. */
  lemma RoundAgreesIff(s: Sys, step: Step, pref: Quad, i: nat)
    requires PeersFollow(s) && step.RunMessage? && Enabled(s, step)
    requires i < |step.order| && Agrees(s, step.order[i])
    ensures
      var p, msg := step.order[i], s.output[0];
      var table := Elements(s.runner.list);
      Agrees(Next(s, step, pref), p) <==>
        || (B.Reached(step.order, i, step.outcomes) && step.outcomes(p) != B.UpdateFailed
            && |msg.toUpdate| + |msg.toRemove| <= 810)
        || Patched(table, msg) == table
  {
    var table, msg := Elements(s.runner.list), s.output[0];
    AgreeingRepairs(msg, table);
    HostsEqual(table, Patched(table, msg));
    RoundRepairsIff(s, step, pref, i);
    hide Repairs, Hosts, Rib, B.Log, PeersFollow, Enabled, Next, B.Reached;
  }

  lemma TableAgreesIff(list: seq<Addr>, pref: Quad)
    ensures Received({}, MessageBody(Message(CauseRemoval, list, []), pref)) == Hosts(Elements(list)) <==>
            |list| <= 810 || list == []
    ensures {} == Hosts(Elements(list)) <==> list == []
  {
    var table := Message(CauseRemoval, list, []);
    assert list != [] ==> list[0] in Elements(list) && Host(list[0]) in Hosts(Elements(list));
    BodySize(table, pref);
    if FitsMessage(MessageBody(table, pref)) {
      hide MessageBody, Received;
      assert Hosts({}) == {} && Patched({}, table) == Elements(list);
      PeerRefinesUpdateList({}, table, pref);
    }
  }

  lemma NewSessionAgreesIff(r: B.Runner, p: PeerId, c: B.Session, outcome: B.Outcome, pref: Quad)
    requires Rib(B.Log(r.wire, c)) == {}
    ensures
      var after := B.AfterAction(r, B.AddPeer(p, c), outcome, pref);
      && p in after.peer && after.peer[p] == c && after.list == r.list
      && (Rib(B.Log(after.wire, c)) == Hosts(Elements(r.list)) <==>
          (p !in r.peer && outcome != B.UpdateFailed && |r.list| <= 810) || r.list == [])
  {
    TableAgreesIff(r.list, pref);
    CallAndRib(r.wire, c, InitialTable(r, pref), outcome, c);
    hide MessageBody, Received, Rib, B.Log, Hosts, Elements, B.Called;
  }

  /** A session just registered agrees with the table if and only if its peer was
      not registered before, the table was written, and it fits one UPDATE; or
      else there is nothing to announce. */
  lemma RegistrationAgreesIff(s: Sys, outcome: B.Outcome, pref: Quad)
    requires PeersFollow(s) && s.action != [] && s.action[0].AddPeer?
    ensures
      var p := s.action[0].peer;
      Agrees(Next(s, RunAction(outcome), pref), p) <==>
        || (p !in s.runner.peer && outcome != B.UpdateFailed && |s.runner.list| <= 810)
        || s.runner.list == []
  {
    hide Rib, B.Log, Hosts, StaleAtStart, B.AfterAction, Separate, PeerInStep, InitialTable;
    assert Waiting(s, 0);
    NewSessionAgreesIff(s.runner, s.action[0].peer, s.action[0].session, outcome, pref);
  }

  /** A registered peer that is added again gets no table: its new session agrees
      with the broadcaster exactly when there is nothing to announce. */
  lemma SecondRegistrationAgreesIffEmpty(s: Sys, outcome: B.Outcome, pref: Quad)
    requires PeersFollow(s) && s.action != [] && s.action[0].AddPeer? && s.action[0].peer in s.runner.peer
    ensures
      var r := Next(s, RunAction(outcome), pref).runner;
      Rib(B.Log(r.wire, r.peer[s.action[0].peer])) == Hosts(Elements(r.list)) <==> r.list == []
  {
    RegistrationAgreesIff(s, outcome, pref);
  }

  // ---------- trouble: runs from the start ----------

  ghost predicate Leads(names: seq<Domain>, pref: Quad, steps: seq<Step>, s: Sys) {
    After(names, pref, steps, |steps|) == Some(s)
  }

  lemma Begin(names: seq<Domain>, pref: Quad)
    ensures Leads(names, pref, [], Initially(names))
  {
  }

  lemma Onward(names: seq<Domain>, pref: Quad, steps: seq<Step>, s: Sys, step: Step)
    requires Leads(names, pref, steps, s) && Enabled(s, step)
    ensures Leads(names, pref, steps + [step], Next(s, step, pref))
  {
    hide Enabled, Next, After;
    OneStep(names, pref, steps, step, s);
  }

  lemma LeadsIsSound(names: seq<Domain>, pref: Quad, steps: seq<Step>, s: Sys)
    requires Leads(names, pref, steps, s)
    ensures Invariant(s) && Agreement(s)
  {
    hide Invariant, Agreement, After;
    RunKeepsInvariant(names, pref, steps, |steps|);
    EndToEnd(names, pref, steps);
  }

  lemma TableAtRest(names: seq<Domain>, pref: Quad, steps: seq<Step>, s: Sys)
    requires Leads(names, pref, steps, s) && Quiescent(s)
    ensures Counted(s.store) && Elements(s.runner.list) == Live(s.store.domains)
  {
    hide Leads, Live, Counted, InStep, Rib, B.Log, PeersFollow;
    LeadsIsSound(names, pref, steps, s);
  }

  function Always(o: B.Outcome): PeerId -> B.Outcome {
    p => o
  }

  function PublishOne(d: Domain, record: map<Addr, Time>): R.Op {
    R.OpPublish([PublishItem(d, 0, record)], Frozen(0))
  }

  ghost predicate Lasting(record: map<Addr, Time>) {
    record != map[] && forall a :: a in record ==> record[a] > 0
  }

  /** Publishing one record to a store that holds nothing. */
  lemma PublishedLive(st: State, d: Domain, record: map<Addr, Time>)
    requires Live(st.domains) == {} && Lasting(record)
    ensures Live(R.After(st, PublishOne(d, record)).domains) == record.Keys
  {
    var batch := [PublishItem(d, 0, record)];
    var after := R.After(st, PublishOne(d, record)).domains;
    assert batch[0] in batch;
    F.PublishIsMerge(st, batch, Frozen(0), 0);
    forall e: Domain
      ensures Ext(after, e).Keys == if e == d then record.Keys else {}
    {
      NothingHeld(st.domains, e);
      assert e != d ==> !F.Names(batch, e);
    }
    hide Publish, R.After, F.Names;
    LiveOfOne(after, d, record.Keys);
  }

  lemma NothingHeld(domains: map<Domain, Entry>, d: Domain)
    requires Live(domains) == {}
    ensures Ext(domains, d) == map[]
  {
    forall a: Addr
      ensures a !in Ext(domains, d)
    {
      assert a !in Live(domains);
    }
  }

  lemma LiveOfOne(domains: map<Domain, Entry>, d: Domain, held: set<Addr>)
    requires forall e: Domain :: Ext(domains, e).Keys == if e == d then held else {}
    ensures Live(domains) == held
  {
    forall a: Addr
      ensures a in Live(domains) <==> a in held
    {
      assert a in Ext(domains, d).Keys <==> a in held;
      forall e | e in domains && a in domains[e].ext
        ensures e == d
      {
        assert a in Ext(domains, e).Keys;
      }
    }
  }

  lemma {:induction false} AsLongAsLarge<T>(s: seq<T>)
    requires NoDuplicates(s)
    ensures |Elements(s)| == |s|
  {
    if s == [] {
    } else {
      var init := s[..|s| - 1];
      AsLongAsLarge(init);
      assert s == init + [s[|s| - 1]];
      assert Elements(s) == Elements(init) + {s[|s| - 1]} && s[|s| - 1] !in init;
    }
  }

  lemma MessageSize(msg: Message, held: set<Addr>)
    requires WellShaped({}, held, msg) && Patched({}, msg) == held
    ensures |msg.toUpdate| + |msg.toRemove| == |held|
  {
    AsLongAsLarge(msg.toRemove);
    AsLongAsLarge(msg.toUpdate);
    assert Elements(msg.toRemove) == {};
    assert Elements(msg.toUpdate) == held;
  }

  /** What is sent then. */
  lemma PublishedMessage(st: State, d: Domain, record: map<Addr, Time>) returns (msg: Message)
    requires Counted(st) && Live(st.domains) == {} && Lasting(record)
    ensures R.SentBy(st, PublishOne(d, record)) == [msg]
    ensures Patched({}, msg) == record.Keys && !B.Empty(msg)
    ensures Live(R.After(st, PublishOne(d, record)).domains) == record.Keys
  {
    var op := PublishOne(d, record);
    PublishedLive(st, d, record);
    R.SentIsExact(st, op);
    R.OpKeepsCounts(st, op);
    AnnouncedIsLive(st);
    AnnouncedIsLive(R.After(st, op));
    OneMessage(st, op);
    hide Counted, Live, R.After, R.SentBy;
    var sent := R.SentBy(st, op);
    assert record.Keys != {} by { var a :| a in record; }
    assert sent != [];
    msg := sent[0];
    assert sent[1..] == [];
    assert Folded({}, sent) == Patched({}, msg);
  }

  lemma PublishedSize(st: State, d: Domain, record: map<Addr, Time>, msg: Message)
    requires Counted(st) && Live(st.domains) == {} && Live(R.After(st, PublishOne(d, record)).domains) == record.Keys
    requires R.SentBy(st, PublishOne(d, record)) == [msg] && Patched({}, msg) == record.Keys
    ensures |msg.toUpdate| + |msg.toRemove| == |record|
  {
    var op := PublishOne(d, record);
    R.OpKeepsCounts(st, op);
    AnnouncedIsLive(st);
    AnnouncedIsLive(R.After(st, op));
    SentIsShaped(st, op);
    hide Counted, Live, R.After, R.SentBy, WellShaped;
    assert msg in R.SentBy(st, op);
    MessageSize(msg, record.Keys);
    assert |record.Keys| == |record|;
  }

  lemma SentIsShaped(st: State, op: R.Op)
    requires Counted(st) && op.OpPublish? && DiffSafe(op.batch)
    ensures forall msg :: msg in R.SentBy(st, op) ==> WellShaped(st.list.Keys, R.After(st, op).list.Keys, msg)
  {
    hide Counted, WellShaped, DiffSafe, PublishTo, Emitted;
    MessageShape(st, op.batch, op.clock);
  }

  /** The steps that publish one record and take its message through a round. */
  function Publishing(d: Domain, record: map<Addr, Time>, next: seq<Addr>, order: seq<PeerId>, o: B.Outcome): seq<Step> {
    [StoreCall(PublishOne(d, record)), Enqueue, RunMessage(next, order, Always(o))]
  }

  function Registering(p: PeerId, c: B.Session, o: B.Outcome): seq<Step> {
    [CallAddPeer(p, c), RunAction(o)]
  }

  lemma PublishAndQueue(names: seq<Domain>, pref: Quad, steps: seq<Step>, s: Sys, d: Domain, record: map<Addr, Time>)
    returns (t: Sys)
    requires Leads(names, pref, steps, s) && Idle(s) && Live(s.store.domains) == {} && Lasting(record)
    ensures Leads(names, pref, steps + [StoreCall(PublishOne(d, record))] + [Enqueue], t)
    ensures t.runner == s.runner && t.action == [] && t.used == s.used && Elements(t.runner.list) == {}
    ensures t.blocked == None && |t.output| == 1 && !B.Empty(t.output[0])
    ensures Patched({}, t.output[0]) == record.Keys && Live(t.store.domains) == record.Keys
    ensures |t.output[0].toUpdate| + |t.output[0].toRemove| == |record|
  {
    var op := PublishOne(d, record);
    assert R.SafeOp(op);
    TableAtRest(names, pref, steps, s);
    hide *;
    var msg := PublishedMessage(s.store, d, record);
    PublishedSize(s.store, d, record, msg);
    t := Queued(names, pref, steps, s, op, msg);
  }

  lemma Queued(names: seq<Domain>, pref: Quad, steps: seq<Step>, s: Sys, op: R.Op, msg: Message) returns (t: Sys)
    requires Leads(names, pref, steps, s) && Idle(s) && R.SafeOp(op) && R.SentBy(s.store, op) == [msg]
    ensures Leads(names, pref, steps + [StoreCall(op)] + [Enqueue], t)
    ensures t == s.(store := R.After(s.store, op), output := [msg])
  {
    hide Leads, R.After, R.SentBy, R.SafeOp;
    Onward(names, pref, steps, s, StoreCall(op));
    var u := Next(s, StoreCall(op), pref);
    Onward(names, pref, steps + [StoreCall(op)], u, Enqueue);
    t := Next(u, Enqueue, pref);
  }

  /** The round of the one queued message. */
  lemma LastRound(names: seq<Domain>, pref: Quad, steps: seq<Step>, s: Sys, next: seq<Addr>, order: seq<PeerId>,
                  o: B.Outcome) returns (t: Sys)
    requires Leads(names, pref, steps, s) && s.blocked == None && |s.output| == 1 && s.action == []
    requires !B.Empty(s.output[0]) && B.NextList(s.runner.list, s.output[0], next) && B.Covers(order, s.runner.peer)
    ensures Leads(names, pref, steps + [RunMessage(next, order, Always(o))], t) && Idle(t)
    ensures Enabled(s, RunMessage(next, order, Always(o))) && t == Next(s, RunMessage(next, order, Always(o)), pref)
    ensures t.store == s.store && t.runner.list == next && t.runner.peer == s.runner.peer && t.used == s.used
  {
    hide Leads, Patched, MessageBody, Told, StaleAfter, B.RoundTo, B.NextList;
    Onward(names, pref, steps, s, RunMessage(next, order, Always(o)));
    t := Next(s, RunMessage(next, order, Always(o)), pref);
  }

  lemma LastRoundAgrees(s: Sys, next: seq<Addr>, order: seq<PeerId>, o: B.Outcome, pref: Quad, i: nat)
    requires PeersFollow(s) && Enabled(s, RunMessage(next, order, Always(o)))
    requires Patched(Elements(s.runner.list), s.output[0]) != Elements(s.runner.list)
    requires i < |order| && Agrees(s, order[i]) && B.Reached(order, i, Always(o))
    ensures Agrees(Next(s, RunMessage(next, order, Always(o)), pref), order[i]) <==>
            o != B.UpdateFailed && |s.output[0].toUpdate| + |s.output[0].toRemove| <= 810
  {
    hide PeersFollow, Enabled, Next, Agrees, B.Reached, Patched;
    RoundAgreesIff(s, RunMessage(next, order, Always(o)), pref, i);
  }

  /** From a state in which nothing was held, announced or left to do. */
  lemma Published(names: seq<Domain>, pref: Quad, steps: seq<Step>, s: Sys, d: Domain, record: map<Addr, Time>,
                  next: seq<Addr>, order: seq<PeerId>, o: B.Outcome) returns (t: Sys)
    requires Leads(names, pref, steps, s) && Idle(s) && Live(s.store.domains) == {} && s.runner.list == []
    requires Lasting(record) && NoDuplicates(next) && Elements(next) == record.Keys && B.Covers(order, s.runner.peer)
    ensures Leads(names, pref, steps + Publishing(d, record, next, order, o), t) && Idle(t)
    ensures Live(t.store.domains) == record.Keys && t.runner.list == next
    ensures t.runner.peer == s.runner.peer && t.used == s.used
    ensures forall i :: 0 <= i < |order| && Agrees(s, order[i]) && B.Reached(order, i, Always(o)) ==>
              (Agrees(t, order[i]) <==> o != B.UpdateFailed && |record| <= 810)
  {
    hide *;
    var u := PublishAndQueue(names, pref, steps, s, d, record);
    var queued := steps + [StoreCall(PublishOne(d, record))] + [Enqueue];
    ReadyForRound(names, pref, queued, u, record, next);
    t := LastRound(names, pref, queued, u, next, order, o);
    InOneList(steps, d, record, next, order, o);
    forall i | 0 <= i < |order| && Agrees(s, order[i]) && B.Reached(order, i, Always(o))
      ensures Agrees(t, order[i]) <==> o != B.UpdateFailed && |record| <= 810
    {
      SameRunnerAgrees(s, u, order[i]);
      LastRoundAgrees(u, next, order, o, pref, i);
    }
  }

  lemma ReadyForRound(names: seq<Domain>, pref: Quad, steps: seq<Step>, s: Sys, record: map<Addr, Time>, next: seq<Addr>)
    requires Leads(names, pref, steps, s) && Elements(s.runner.list) == {} && |s.output| == 1 && !B.Empty(s.output[0])
    requires Patched({}, s.output[0]) == record.Keys == Elements(next) && NoDuplicates(next) && Lasting(record)
    ensures PeersFollow(s) && B.NextList(s.runner.list, s.output[0], next)
    ensures Patched(Elements(s.runner.list), s.output[0]) != Elements(s.runner.list)
  {
    hide Leads, PeersFollow, Counted, TableFollows, Agreement;
    LeadsIsSound(names, pref, steps, s);
    assert record.Keys != {} by { var a :| a in record; }
  }

  lemma InOneList(steps: seq<Step>, d: Domain, record: map<Addr, Time>, next: seq<Addr>, order: seq<PeerId>, o: B.Outcome)
    ensures steps + [StoreCall(PublishOne(d, record))] + [Enqueue] + [RunMessage(next, order, Always(o))] ==
            steps + Publishing(d, record, next, order, o)
  {
  }

  lemma SameRunnerAgrees(s: Sys, t: Sys, p: PeerId)
    requires s.runner == t.runner
    ensures Agrees(s, p) <==> Agrees(t, p)
  {
  }

  /** An action about one peer leaves the agreement of the others as it was. */
  lemma ActionLeavesOthers(s: Sys, outcome: B.Outcome, pref: Quad, q: PeerId)
    requires PeersFollow(s) && s.action != [] && s.action[0].peer != q
    ensures Agrees(Next(s, RunAction(outcome), pref), q) <==> Agrees(s, q)
  {
    assert Waiting(s, 0);
    var a := s.action[0];
    if a.AddPeer? && q in s.runner.peer {
      OtherSession(s, a.peer, outcome, pref, a.session, s.runner.peer[q]);
    }
    hide Rib, B.Log, Hosts, StaleAtStart, MessageBody, PeersFollow, Waiting;
  }

  lemma Registered(names: seq<Domain>, pref: Quad, steps: seq<Step>, s: Sys, p: PeerId, c: B.Session, o: B.Outcome)
    returns (t: Sys)
    requires Leads(names, pref, steps, s) && Idle(s) && c !in s.used
    ensures Leads(names, pref, steps + Registering(p, c, o), t) && Idle(t) && t.used == s.used + {c}
    ensures t.store == s.store && t.runner.list == s.runner.list && t.runner.peer == s.runner.peer[p := c]
    ensures Agrees(t, p) <==>
              (p !in s.runner.peer && o != B.UpdateFailed && |s.runner.list| <= 810) || s.runner.list == []
    ensures forall q :: q != p ==> (Agrees(t, q) <==> Agrees(s, q))
  {
    hide Leads, Agrees, Agreement, Counted, TableFollows, StaleAtStart, MessageBody, Rib, B.Log;
    Onward(names, pref, steps, s, CallAddPeer(p, c));
    var u := Next(s, CallAddPeer(p, c), pref);
    Onward(names, pref, steps + [CallAddPeer(p, c)], u, RunAction(o));
    t := Next(u, RunAction(o), pref);
    LeadsIsSound(names, pref, steps + [CallAddPeer(p, c)], u);
    RegistrationAgreesIff(u, o, pref);
    forall q | q != p
      ensures Agrees(t, q) <==> Agrees(s, q)
    {
      SameRunnerAgrees(s, u, q);
      ActionLeavesOthers(u, o, pref, q);
    }
    assert steps + [CallAddPeer(p, c)] + [RunAction(o)] == steps + Registering(p, c, o);
  }

  /** These steps are a run from the start, after which nothing is left to do,
      the domains hold exactly these addresses, and the registered peer has
      exactly their host routes if and only if it is informed. */
  ghost predicate Ends(names: seq<Domain>, pref: Quad, steps: seq<Step>, p: PeerId, held: set<Addr>, informed: bool) {
    var r := After(names, pref, steps, |steps|);
    && r.Some? && Idle(r.value) && Live(r.value.store.domains) == held && p in r.value.runner.peer
    && (Rib(B.Log(r.value.runner.wire, r.value.runner.peer[p])) == Hosts(held) <==> informed)
  }

  lemma AtTheEnd(names: seq<Domain>, pref: Quad, steps: seq<Step>, s: Sys, p: PeerId, held: set<Addr>)
    requires Leads(names, pref, steps, s) && Idle(s) && Live(s.store.domains) == held && p in s.runner.peer
    ensures Ends(names, pref, steps, p, held, Agrees(s, p))
  {
    hide Invariant, Live, Rib, B.Log, Hosts, InStep, After;
    LeadsIsSound(names, pref, steps, s);
  }

  lemma NothingHeldAtFirst(names: seq<Domain>)
    ensures var s := Initially(names); Idle(s) && Live(s.store.domains) == {} && s.runner.list == [] && s.used == {}
    ensures Initially(names).runner.peer == map[]
  {
  }

  /** A peer is added and then one record is published, whatever the names, the
      peer, the record and the order of the table: with one write in the round,
      its failure alone, or the number of addresses alone, misinforms the peer,
      and nothing else does. */
  lemma RoundRunInformsIff(names: seq<Domain>, pref: Quad, p: PeerId, d: Domain, record: map<Addr, Time>,
                           next: seq<Addr>, o: B.Outcome)
    requires Lasting(record) && NoDuplicates(next) && Elements(next) == record.Keys
    ensures Ends(names, pref, Registering(p, 0, B.Sent) + Publishing(d, record, next, [p], o), p, record.Keys,
                 o != B.UpdateFailed && |record| <= 810)
  {
    NothingHeldAtFirst(names);
    Begin(names, pref);
    assert B.Covers([p], map[p := 0]);
    assert forall steps: seq<Step> :: [] + steps == steps;
    hide Leads, Initially, Live, Agrees, Lasting, Ends, NoDuplicates, Elements, B.Covers, Registering, Publishing;
    var s := Registered(names, pref, [], Initially(names), p, 0, B.Sent);
    var steps := Registering(p, 0, B.Sent);
    var t := Published(names, pref, steps, s, d, record, next, [p], o);
    AtTheEnd(names, pref, steps + Publishing(d, record, next, [p], o), t, p, record.Keys);
    assert B.Reached([p], 0, Always(o)) && [p][0] == p;
  }

  /** A record is published and then a peer is added once. */
  lemma TableRunInformsIff(names: seq<Domain>, pref: Quad, p: PeerId, d: Domain, record: map<Addr, Time>,
                           next: seq<Addr>, o: B.Outcome)
    requires Lasting(record) && NoDuplicates(next) && Elements(next) == record.Keys
    ensures Ends(names, pref, Publishing(d, record, next, [], B.Sent) + Registering(p, 0, o), p, record.Keys,
                 o != B.UpdateFailed && |record| <= 810)
  {
    var s, t := PublishedThenRegistered(names, pref, p, d, record, next, o);
    AtTheEnd(names, pref, Publishing(d, record, next, [], B.Sent) + Registering(p, 0, o), t, p, record.Keys);
  }

  lemma PublishedThenRegistered(names: seq<Domain>, pref: Quad, p: PeerId, d: Domain, record: map<Addr, Time>,
                                next: seq<Addr>, o: B.Outcome) returns (s: Sys, t: Sys)
    requires Lasting(record) && NoDuplicates(next) && Elements(next) == record.Keys
    ensures Leads(names, pref, Publishing(d, record, next, [], B.Sent) + Registering(p, 0, o), t)
    ensures Idle(t) && Live(t.store.domains) == record.Keys && t.used == {0} && p in t.runner.peer
    ensures t.runner.list == next && next != [] && (Agrees(t, p) <==> o != B.UpdateFailed && |record| <= 810)
  {
    NothingHeldAtFirst(names);
    Begin(names, pref);
    NobodyToVisit();
    AsLongAsLarge(next);
    assert record.Keys != {} by { var a :| a in record; }
    hide Leads, Initially, Live, Agrees, Lasting, NoDuplicates, B.Covers, Registering, Publishing;
    var published := Publishing(d, record, next, [], B.Sent);
    assert [] + published == published;
    s := Published(names, pref, [], Initially(names), d, record, next, [], B.Sent);
    t := Registered(names, pref, published, s, p, 0, o);
  }

  lemma NobodyToVisit()
    ensures B.Covers([], map[])
  {
  }

  /** The same run, and then the peer is added again: whatever becomes of the two
      writes and however short the table, it is misinformed. */
  lemma AddedAgainMisinforms(names: seq<Domain>, pref: Quad, p: PeerId, d: Domain, record: map<Addr, Time>,
                             next: seq<Addr>, o: B.Outcome, again: B.Outcome)
    requires Lasting(record) && NoDuplicates(next) && Elements(next) == record.Keys
    ensures Ends(names, pref,
                 Publishing(d, record, next, [], B.Sent) + Registering(p, 0, o) + Registering(p, 1, again),
                 p, record.Keys, false)
  {
    var s, t := PublishedThenRegistered(names, pref, p, d, record, next, o);
    var steps := Publishing(d, record, next, [], B.Sent) + Registering(p, 0, o);
    hide Leads, Live, Agrees, Lasting, NoDuplicates, Elements, Registering, Publishing, Ends;
    var u := Registered(names, pref, steps, t, p, 1, again);
    AtTheEnd(names, pref, steps + Registering(p, 1, again), u, p, record.Keys);
  }

  function Unregistering(p: PeerId): seq<Step> {
    [CallDelPeer(p), RunAction(B.Sent)]
  }

  lemma Unregistered(names: seq<Domain>, pref: Quad, steps: seq<Step>, s: Sys, p: PeerId) returns (t: Sys)
    requires Leads(names, pref, steps, s) && Idle(s)
    ensures Leads(names, pref, steps + Unregistering(p), t) && Idle(t) && t.used == s.used
    ensures t.store == s.store && t.runner.list == s.runner.list && t.runner.peer == s.runner.peer - {p}
    ensures forall q :: q != p ==> (Agrees(t, q) <==> Agrees(s, q))
  {
    hide Leads, Agrees, Agreement, Counted, TableFollows, StaleAtStart, MessageBody, Rib, B.Log;
    Onward(names, pref, steps, s, CallDelPeer(p));
    var u := Next(s, CallDelPeer(p), pref);
    Onward(names, pref, steps + [CallDelPeer(p)], u, RunAction(B.Sent));
    t := Next(u, RunAction(B.Sent), pref);
    LeadsIsSound(names, pref, steps + [CallDelPeer(p)], u);
    forall q | q != p
      ensures Agrees(t, q) <==> Agrees(s, q)
    {
      SameRunnerAgrees(s, u, q);
      ActionLeavesOthers(u, B.Sent, pref, q);
    }
    assert steps + [CallDelPeer(p)] + [RunAction(B.Sent)] == steps + Unregistering(p);
  }

  /** Two peers are added, one record is published, and the round reaches both. */
  lemma TwoPeersServed(names: seq<Domain>, pref: Quad, p: PeerId, q: PeerId, d: Domain, record: map<Addr, Time>,
                       next: seq<Addr>, order: seq<PeerId>) returns (s: Sys)
    requires Lasting(record) && NoDuplicates(next) && Elements(next) == record.Keys
    requires p != q && NoDuplicates(order) && Elements(order) == {p, q}
    ensures
      var steps := Registering(p, 0, B.Sent) + Registering(q, 1, B.Sent) + Publishing(d, record, next, order, B.Sent);
      Leads(names, pref, steps, s) && Idle(s)
    ensures Live(s.store.domains) == record.Keys && s.runner.list == next && s.used == {0, 1}
    ensures s.runner.peer == map[p := 0, q := 1] && (Agrees(s, q) <==> |record| <= 810)
  {
    NothingHeldAtFirst(names);
    Begin(names, pref);
    var first := Registering(p, 0, B.Sent);
    var steps := first + Registering(q, 1, B.Sent);
    assert [] + first == first && {0} + {1} == {0, 1};
    hide Leads, Initially, Live, Agrees, Lasting, Registering, Publishing, NoDuplicates;
    var t := Registered(names, pref, [], Initially(names), p, 0, B.Sent);
    var u := Registered(names, pref, first, t, q, 1, B.Sent);
    assert u.runner.peer.Keys == {p, q};
    s := Published(names, pref, steps, u, d, record, next, order, B.Sent);
    assert q in Elements(order);
    var i: nat :| i < |order| && order[i] == q;
    assert B.Reached(order, i, Always(B.Sent));
  }

  /** A peer whose session closes is removed and comes back with a new session,
      while another peer stays: in every order of the round and of the table, the
      peer that comes back is informed if and only if the table is written to it
      and has at most 810 addresses, and the other one keeps what it had. */
  lemma ReconnectInformsIff(names: seq<Domain>, pref: Quad, p: PeerId, q: PeerId, d: Domain, record: map<Addr, Time>,
                            next: seq<Addr>, order: seq<PeerId>, o: B.Outcome)
    requires Lasting(record) && NoDuplicates(next) && Elements(next) == record.Keys
    requires p != q && NoDuplicates(order) && Elements(order) == {p, q}
    ensures
      var served := Registering(p, 0, B.Sent) + Registering(q, 1, B.Sent) + Publishing(d, record, next, order, B.Sent);
      var steps := served + Unregistering(p) + Registering(p, 2, o);
      && Ends(names, pref, steps, p, record.Keys, o != B.UpdateFailed && |record| <= 810)
      && Ends(names, pref, steps, q, record.Keys, |record| <= 810)
  {
    AsLongAsLarge(next);
    assert record.Keys != {} && |record.Keys| == |record| by { var a :| a in record; }
    var s := TwoPeersServed(names, pref, p, q, d, record, next, order);
    var served := Registering(p, 0, B.Sent) + Registering(q, 1, B.Sent) + Publishing(d, record, next, order, B.Sent);
    hide Leads, Live, Agrees, Lasting, NoDuplicates, Registering, Unregistering, Publishing, Ends;
    var t := Unregistered(names, pref, served, s, p);
    var u := Registered(names, pref, served + Unregistering(p), t, p, 2, o);
    var steps := served + Unregistering(p) + Registering(p, 2, o);
    AtTheEnd(names, pref, steps, u, p, record.Keys);
    AtTheEnd(names, pref, steps, u, q, record.Keys);
  }

  /** The first octets of a session that is established when nothing is held: an
      update without routes, its marker, and the marker of the handler. */
  lemma FirstOctets(names: seq<Domain>, pref: Quad, p: PeerId, c: B.Session)
    ensures
      var steps := Registering(p, c, B.Sent) + [MarkEndOfRib(c)];
      var r := After(names, pref, steps, |steps|);
      && r.Some?
      && B.Log(r.value.runner.wire, c) ==
         [[0, 0] + ([0, 21, 0x40, 1, 1, 1, 0x40, 2, 0, 0x40, 3, 4, 127, 0, 0, 1, 0x40, 5, 4] + BigEndian32(pref)),
          [0, 0, 0, 0], [0, 0, 0, 0]]
      && forall other: B.Session :: other != c ==> B.Log(r.value.runner.wire, other) == []
  {
    var s := Initially(names);
    var steps := Registering(p, c, B.Sent);
    Begin(names, pref);
    Onward(names, pref, [], s, CallAddPeer(p, c));
    var t := Next(s, CallAddPeer(p, c), pref);
    Onward(names, pref, [] + [CallAddPeer(p, c)], t, RunAction(B.Sent));
    var u := Next(t, RunAction(B.Sent), pref);
    assert [] + [CallAddPeer(p, c)] + [RunAction(B.Sent)] == steps;
    Onward(names, pref, steps, u, MarkEndOfRib(c));
    EmptyBody(pref);
    hide MessageBody, StaleAtStart, BigEndian32, After;
  }

  lemma EmptyBody(pref: Quad)
    ensures MessageBody(Message(CauseRemoval, [], []), pref) == [0, 0] + (ATTRIBUTES + BigEndian32(pref))
  {
    assert BigEndian16(0) == [0, 0] && Prefixes(HostNets([])) == [];
    hide *;
    MessageParts(Message(CauseRemoval, [], []), pref);
    var rest := ATTRIBUTES + BigEndian32(pref);
    assert [0, 0] + [] + rest + [] == [0, 0] + rest;
  }
}
