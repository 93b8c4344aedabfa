/** The broadcaster: two queues, the table it keeps, and the writers of its
    peers. What its runner does is given as functions on values, and the class
    below is proved against them. */
module Broadcast {
  import opened Types
  import opened Packet
  import opened Plugin

  /** A writer is known by the BGP session it writes to. */
  type Session = nat

  /** Both channels are made with room for ten entries. */
  const CAPACITY := 10

  datatype Action = AddPeer(peer: PeerId, session: Session) | RemovePeer(peer: PeerId)

  /** What became of one call of a writer: it sends the update and then an
      end-of-RIB marker, and reports the first failure. */
  datatype Outcome = Sent | UpdateFailed | EndOfRibFailed

  type Logs = map<Session, seq<seq<Octet>>>

  datatype Runner = Runner(list: seq<Addr>, peer: map<PeerId, Session>, wire: Logs)

  function Log(wire: Logs, s: Session): seq<seq<Octet>> {
    if s in wire then wire[s] else []
  }

  function Called(wire: Logs, s: Session, bs: seq<Octet>, o: Outcome): Logs {
    match o
    case Sent => wire[s := Log(wire, s) + [bs] + [END_OF_RIB]]
    case EndOfRibFailed => wire[s := Log(wire, s) + [bs]]
    case UpdateFailed => wire
  }

  /** A round of writers in the order of the map iteration. The first failure
      ends the round. */
  datatype Round = Round(wire: Logs, aborted: bool)

  ghost predicate Covers(order: seq<PeerId>, peer: map<PeerId, Session>) {
    NoDuplicates(order) && Elements(order) == peer.Keys
  }

  ghost function RoundTo(wire: Logs, peer: map<PeerId, Session>, order: seq<PeerId>, k: nat,
                         outcome: PeerId -> Outcome, bs: seq<Octet>): Round
    requires k <= |order| && forall p :: p in order ==> p in peer
  {
    if k == 0 then Round(wire, false) else
      var r := RoundTo(wire, peer, order, k - 1, outcome, bs);
      if r.aborted then r
      else Round(Called(r.wire, peer[order[k - 1]], bs, outcome(order[k - 1])), outcome(order[k - 1]) != Sent)
  }

  ghost function AfterAction(r: Runner, a: Action, outcome: Outcome, pref: Quad): Runner {
    match a
    case AddPeer(p, s) =>
      if p in r.peer then r.(peer := r.peer[p := s])
      else Runner(r.list, r.peer[p := s],
                  Called(r.wire, s, MessageBody(Message(CauseRemoval, r.list, []), pref), outcome))
    case RemovePeer(p) => r.(peer := r.peer - {p})
  }

  predicate Empty(msg: Message) {
    |msg.toUpdate| == 0 && |msg.toRemove| == 0
  }

  /** The list is rebuilt from a map, in an arbitrary order. */
  ghost predicate NextList(list: seq<Addr>, msg: Message, next: seq<Addr>) {
    if Empty(msg) then next == list
    else NoDuplicates(next) && Elements(next) == Patched(Elements(list), msg)
  }

  ghost function AfterMessage(r: Runner, msg: Message, next: seq<Addr>, order: seq<PeerId>,
                              outcome: PeerId -> Outcome, pref: Quad): Runner
    requires Covers(order, r.peer)
  {
    if Empty(msg) then r
    else
      assert forall p :: p in order ==> p in Elements(order);
      Runner(next, r.peer, RoundTo(r.wire, r.peer, order, |order|, outcome, MessageBody(msg, pref)).wire)
  }

  // ---------- what an action does ----------

  /** Removing a peer ends its registration and nothing else. */
  lemma RemovalEffect(r: Runner, p: PeerId, outcome: Outcome, pref: Quad, q: PeerId)
    ensures
      var t := AfterAction(r, RemovePeer(p), outcome, pref);
      && p !in t.peer && t.list == r.list && t.wire == r.wire
      && (q != p ==> (q in t.peer <==> q in r.peer) && (q in t.peer ==> t.peer[q] == r.peer[q]))
  {
  }

  /** Adding a peer registers its session, leaves the other peers and the table,
      and writes to that session alone: the table and the marker as far as the
      writes go, for a peer that was not registered, and nothing otherwise. */
  lemma AdditionEffect(r: Runner, p: PeerId, s: Session, outcome: Outcome, pref: Quad, q: PeerId, c: Session)
    ensures
      var t := AfterAction(r, AddPeer(p, s), outcome, pref);
      var table := MessageBody(Message(CauseRemoval, r.list, []), pref);
      && p in t.peer && t.peer[p] == s && t.list == r.list
      && (q != p ==> (q in t.peer <==> q in r.peer) && (q in t.peer ==> t.peer[q] == r.peer[q]))
      && Log(t.wire, c) == Log(r.wire, c) +
         if c != s || p in r.peer || outcome == UpdateFailed then []
         else if outcome == EndOfRibFailed then [table]
         else [table, [0, 0, 0, 0]]
  {
    hide MessageBody;
    CalledLog(r.wire, s, MessageBody(Message(CauseRemoval, r.list, []), pref), outcome, c);
  }

  // ---------- the order of a round that was cut short ----------

  ghost function AsSeq<T>(s: set<T>): (r: seq<T>)
    ensures NoDuplicates(r) && Elements(r) == s
  {
    if s == {} then [] else
      var x :| x in s;
      AppendDistinct(AsSeq(s - {x}), [x]);
      AsSeq(s - {x}) + [x]
  }

  lemma {:induction false} RoundPrefix(wire: Logs, peer: map<PeerId, Session>, order: seq<PeerId>, more: seq<PeerId>,
                                       k: nat, outcome: PeerId -> Outcome, bs: seq<Octet>)
    requires k <= |order| && forall p :: p in order + more ==> p in peer
    ensures RoundTo(wire, peer, order + more, k, outcome, bs) == RoundTo(wire, peer, order, k, outcome, bs)
  {
    if k == 0 {
    } else {
      RoundPrefix(wire, peer, order, more, k - 1, outcome, bs);
    }
  }

  lemma {:induction false} AbortedStays(wire: Logs, peer: map<PeerId, Session>, order: seq<PeerId>, k: nat, n: nat,
                                        outcome: PeerId -> Outcome, bs: seq<Octet>)
    requires k <= n <= |order| && forall p :: p in order ==> p in peer
    requires RoundTo(wire, peer, order, k, outcome, bs).aborted
    ensures RoundTo(wire, peer, order, n, outcome, bs) == RoundTo(wire, peer, order, k, outcome, bs)
  {
    if k == n {
    } else {
      AbortedStays(wire, peer, order, k, n - 1, outcome, bs);
    }
  }

  // ---------- what a round does ----------

  /** Nobody visited earlier failed. */
  ghost predicate Reached(order: seq<PeerId>, i: nat, outcome: PeerId -> Outcome)
    requires i <= |order|
  {
    forall j :: 0 <= j < i ==> outcome(order[j]) == Sent
  }

  ghost function Written(bs: seq<Octet>, o: Outcome): seq<seq<Octet>> {
    match o
    case Sent => [bs, END_OF_RIB]
    case EndOfRibFailed => [bs]
    case UpdateFailed => []
  }

  lemma WrittenLiterally(bs: seq<Octet>)
    ensures Written(bs, Sent) == [bs, [0, 0, 0, 0]] && Written(bs, EndOfRibFailed) == [bs] && Written(bs, UpdateFailed) == []
  {
  }

  lemma CalledLog(wire: Logs, c: Session, bs: seq<Octet>, o: Outcome, s: Session)
    ensures Log(Called(wire, c, bs, o), s) == Log(wire, s) + if s == c then Written(bs, o) else []
  {
    assert Log(wire, c) + [bs] + [END_OF_RIB] == Log(wire, c) + [bs, END_OF_RIB];
  }

  lemma {:induction false} RoundAdds(wire: Logs, peer: map<PeerId, Session>, order: seq<PeerId>, k: nat,
                                       outcome: PeerId -> Outcome, bs: seq<Octet>, s: Session)
    requires k <= |order| && NoDuplicates(order) && forall p :: p in order ==> p in peer
    requires forall p, q :: p in peer && q in peer && peer[p] == peer[q] ==> p == q
    ensures RoundTo(wire, peer, order, k, outcome, bs).aborted <==> !Reached(order, k, outcome)
    ensures
      var after := Log(RoundTo(wire, peer, order, k, outcome, bs).wire, s);
      && (forall i :: 0 <= i < k && peer[order[i]] == s ==>
            after == Log(wire, s) + if Reached(order, i, outcome) then Written(bs, outcome(order[i])) else [])
      && ((forall i :: 0 <= i < k ==> peer[order[i]] != s) ==> after == Log(wire, s))
  {
    hide Called, Log, Written;
    if k == 0 {
    } else {
      RoundAdds(wire, peer, order, k - 1, outcome, bs, s);
      CalledLog(RoundTo(wire, peer, order, k - 1, outcome, bs).wire, peer[order[k - 1]], bs, outcome(order[k - 1]), s);
      if peer[order[k - 1]] == s {
        assert forall i :: 0 <= i < k - 1 ==> order[i] != order[k - 1] && peer[order[i]] != s;
      }
      assert Reached(order, k, outcome) <==> Reached(order, k - 1, outcome) && outcome(order[k - 1]) == Sent;
      assert Log(wire, s) + [] == Log(wire, s);
    }
  }

  /** A peer is written to exactly when every peer visited before it was written
      to without failure; the first failure leaves the rest of the round with
      nothing. Sessions of no peer get nothing. */
  lemma {:induction false} RoundWrites(wire: Logs, peer: map<PeerId, Session>, order: seq<PeerId>, k: nat,
                    outcome: PeerId -> Outcome, bs: seq<Octet>, s: Session)
    requires k <= |order| && NoDuplicates(order) && forall p :: p in order ==> p in peer
    requires forall p, q :: p in peer && q in peer && peer[p] == peer[q] ==> p == q
    ensures RoundTo(wire, peer, order, k, outcome, bs).aborted <==> !Reached(order, k, outcome)
    ensures
      var after := Log(RoundTo(wire, peer, order, k, outcome, bs).wire, s);
      && (forall i :: 0 <= i < k && peer[order[i]] == s ==>
            after == Log(wire, s) +
                     if !Reached(order, i, outcome) || outcome(order[i]) == UpdateFailed then []
                     else if outcome(order[i]) == EndOfRibFailed then [bs]
                     else [bs, [0, 0, 0, 0]])
      && ((forall i :: 0 <= i < k ==> peer[order[i]] != s) ==> after == Log(wire, s))
  {
    hide Log, NoDuplicates, Reached, RoundTo;
    RoundAdds(wire, peer, order, k, outcome, bs, s);
    WrittenLiterally(bs);
  }

  // ---------- the server ----------

  class Server {
    const pref: Quad
    var closed: bool
    var action: seq<Action>
    var output: seq<Message>
    var list: seq<Addr>
    var peer: map<PeerId, Session>
    var wire: Logs

    ghost function View(): Runner
      reads this
    {
      Runner(list, peer, wire)
    }

    constructor (pref: Quad)
      ensures this.pref == pref && !closed && action == [] && output == []
      ensures View() == Runner([], map[], map[])
    {
      this.pref := pref;
      closed, action, output := false, [], [];
      list, peer, wire := [], map[], map[];
    }

    method Broadcast(msg: Message)
      modifies this`output
      ensures output == if closed then old(output) else old(output) + [msg]
    {
      if closed {
        return;
      }
      output := output + [msg];
    }

    method DelPeer(p: PeerId)
      modifies this`action
      ensures action == if closed then old(action) else old(action) + [RemovePeer(p)]
    {
      if closed {
        return;
      }
      action := action + [RemovePeer(p)];
    }

    method AddPeer(p: PeerId, writer: Session)
      modifies this`action
      ensures action == if closed then old(action) else old(action) + [Action.AddPeer(p, writer)]
    {
      if closed {
        return;
      }
      action := action + [Action.AddPeer(p, writer)];
    }

    /** The list of a table is patched through a map: withdrawals first, then
        additions. */
    method UpdateList(list: seq<Addr>, msg: Message) returns (updated: seq<Addr>)
      ensures NextList(list, msg, updated)
    {
      if |msg.toUpdate| == 0 && |msg.toRemove| == 0 {
        return list;
      }
      var listMap: map<Addr, bool> := map[];
      for i := 0 to |list|
        invariant listMap.Keys == Elements(list[..i])
      {
        assert list[..i + 1] == list[..i] + [list[i]];
        listMap := listMap[list[i] := true];
      }
      assert list[..|list|] == list;
      for i := 0 to |msg.toRemove|
        invariant listMap.Keys == Elements(list) - Elements(msg.toRemove[..i])
      {
        assert msg.toRemove[..i + 1] == msg.toRemove[..i] + [msg.toRemove[i]];
        listMap := listMap - {msg.toRemove[i]};
      }
      assert msg.toRemove[..|msg.toRemove|] == msg.toRemove;
      for i := 0 to |msg.toUpdate|
        invariant listMap.Keys == Elements(list) - Elements(msg.toRemove) + Elements(msg.toUpdate[..i])
      {
        assert msg.toUpdate[..i + 1] == msg.toUpdate[..i] + [msg.toUpdate[i]];
        listMap := listMap[msg.toUpdate[i] := true];
      }
      assert msg.toUpdate[..|msg.toUpdate|] == msg.toUpdate;
      updated := [];
      var rest := listMap.Keys;
      while rest != {}
        invariant NoDuplicates(updated) && Elements(updated) !! rest
        invariant Elements(updated) + rest == listMap.Keys
      {
        var item :| item in rest;
        rest := rest - {item};
        assert item !in Elements(updated);
        updated := updated + [item];
      }
    }

    /** The writer made by newWriter, with the fate of its two writes given. */
    method CallWriter(s: Session, msg: Message, outcome: Outcome) returns (ok: bool)
      modifies this`wire
      ensures wire == Called(old(wire), s, MessageBody(msg, pref), outcome)
      ensures ok <==> outcome == Sent
    {
      var buf := EncodeMessage(msg, pref);
      if outcome == UpdateFailed {
        return false;
      }
      wire := wire[s := Log(wire, s) + [buf.value]];
      if outcome == EndOfRibFailed {
        return false;
      }
      wire := wire[s := Log(wire, s) + [END_OF_RIB]];
      return true;
    }

    /** The runner receives from the action channel. */
    method TakeAction(outcome: Outcome)
      requires action != []
      modifies this`action, this`peer, this`wire
      ensures action == old(action)[1..]
      ensures View() == AfterAction(old(View()), old(action)[0], outcome, pref)
      ensures old(action)[0].RemovePeer? ==> peer == old(peer) - {old(action)[0].peer} && wire == old(wire)
    {
      var msg := action[0];
      action := action[1..];
      match msg
      case AddPeer(p, writer) =>
        if p in peer {
          peer := peer[p := writer];
          return;
        }
        peer := peer[p := writer];
        var _ := CallWriter(writer, Message(CauseRemoval, list, []), outcome);
      case RemovePeer(p) =>
        peer := peer - {p};
    }

    /** The loop over the writers of all peers; the ghost result is the order of
        the map iteration. */
    method SendToPeers(msg: Message, outcome: PeerId -> Outcome) returns (ghost order: seq<PeerId>)
      modifies this`wire
      ensures Covers(order, peer) && forall p :: p in order ==> p in peer
      ensures wire == RoundTo(old(wire), peer, order, |order|, outcome, MessageBody(msg, pref)).wire
    {
      hide MessageBody, Called, NoDuplicates, Elements;
      ghost var bs := MessageBody(msg, pref);
      order := [];
      NoneYet();
      var rest := peer.Keys;
      while rest != {}
        invariant NoDuplicates(order) && Elements(order) !! rest && Elements(order) + rest == peer.Keys
        invariant forall p :: p in order ==> p in peer
        invariant RoundTo(old(wire), peer, order, |order|, outcome, bs) == Round(wire, false)
      {
        var name :| name in rest;
        rest := rest - {name};
        OneMore(order, name, rest);
        OneMoreCall(old(wire), peer, order, name, AsSeq(rest), outcome, bs);
        order := order + [name];
        var ok := CallWriter(peer[name], msg, outcome(name));
        if !ok {
          order := order + AsSeq(rest);
          return;
        }
      }
    }

    /** The runner receives from the output channel. */
    method TakeMessage(outcome: PeerId -> Outcome) returns (ghost order: seq<PeerId>)
      requires output != []
      modifies this`output, this`list, this`wire
      ensures output == old(output)[1..]
      ensures Covers(order, peer) && NextList(old(list), old(output)[0], list)
      ensures View() == AfterMessage(old(View()), old(output)[0], list, order, outcome, pref)
    {
      hide NextList;
      var msg := output[0];
      output := output[1..];
      order := AsSeq(peer.Keys);
      if Empty(msg) {
        SameList(list, msg);
        return;
      }
      list := UpdateList(list, msg);
      order := SendToPeers(msg, outcome);
    }
  }

  lemma NoneYet()
    ensures NoDuplicates<PeerId>([]) && Elements<PeerId>([]) == {}
  {
  }

  lemma SameList(list: seq<Addr>, msg: Message)
    requires Empty(msg)
    ensures NextList(list, msg, list)
  {
  }

  /** Visiting one more peer, and the order when the round stops there. */
  lemma OneMore(order: seq<PeerId>, name: PeerId, rest: set<PeerId>)
    requires NoDuplicates(order) && name !in Elements(order) && name !in rest && Elements(order) !! rest
    ensures NoDuplicates(order + [name]) && Elements(order + [name]) == Elements(order) + {name}
    ensures NoDuplicates(order + [name] + AsSeq(rest))
    ensures Elements(order + [name] + AsSeq(rest)) == Elements(order) + {name} + rest
    ensures forall p :: p in order + [name] + AsSeq(rest) ==> p in Elements(order) + {name} + rest
  {
    hide NoDuplicates, AsSeq;
    assert NoDuplicates([name]) by { SingleDistinct(name); }
    AppendDistinct(order, [name]);
    AppendDistinct(order + [name], AsSeq(rest));
    forall p | p in order + [name] + AsSeq(rest)
      ensures p in Elements(order) + {name} + rest
    {
      assert p in Elements(order + [name] + AsSeq(rest));
    }
  }

  lemma SingleDistinct<T>(x: T)
    ensures NoDuplicates([x])
  {
  }

  lemma OneMoreCall(wire: Logs, peer: map<PeerId, Session>, order: seq<PeerId>, name: PeerId, tail: seq<PeerId>,
                    outcome: PeerId -> Outcome, bs: seq<Octet>)
    requires forall p :: p in order + [name] + tail ==> p in peer
    requires forall p :: p in order ==> p in peer
    requires !RoundTo(wire, peer, order, |order|, outcome, bs).aborted
    ensures name in order + [name] + tail
    ensures forall p :: p in order + [name] ==> p in order + [name] + tail
    ensures
      var one := order + [name];
      var all := one + tail;
      var r := RoundTo(wire, peer, order, |order|, outcome, bs);
      var s := RoundTo(wire, peer, one, |one|, outcome, bs);
      && s == Round(Called(r.wire, peer[name], bs, outcome(name)), outcome(name) != Sent)
      && (outcome(name) != Sent ==> RoundTo(wire, peer, all, |all|, outcome, bs) == s)
  {
    var one := order + [name];
    var all := one + tail;
    assert forall p :: p in one ==> p in all;
    assert name in all;
    RoundPrefix(wire, peer, order, [name], |order|, outcome, bs);
    RoundPrefix(wire, peer, one, tail, |one|, outcome, bs);
    if outcome(name) != Sent {
      AbortedStays(wire, peer, all, |one|, |all|, outcome, bs);
    }
  }
}
