/** What a domain holds, told from the history of what was published for it. */
module History {
  import opened Types
  import opened StoreSpec
  import opened Refinement
  import opened Runs

  /** One record published for a domain, and when. */
  datatype Event = Event(at: Time, record: map<Addr, Time>)

  ghost predicate Carries(e: Event, a: Addr) {
    a in e.record && e.record[a] > e.at
  }

  /** The last event that carried the address unexpired. */
  ghost predicate MostRecent(events: seq<Event>, i: nat, a: Addr) {
    && i < |events| && Carries(events[i], a)
    && forall j :: i < j < |events| ==> !Carries(events[j], a)
  }

  /** The address is held if and only if the last event that carried it gave it
      an expiry later than the last event of all; that is its expiry. */
  ghost predicate RecalledAt(ext: map<Addr, Time>, events: seq<Event>, a: Addr) {
    && (a in ext <==> exists i: nat :: MostRecent(events, i, a) && events[i].record[a] > events[|events| - 1].at)
    && (forall i: nat :: a in ext && MostRecent(events, i, a) ==> ext[a] == events[i].record[a])
  }

  ghost predicate Before(events: seq<Event>, now: Time) {
    events != [] ==> events[|events| - 1].at <= now
  }

  lemma NothingRecalled(a: Addr)
    ensures RecalledAt(map[], [], a)
  {
  }

  lemma OneMoreEvent(ext: map<Addr, Time>, events: seq<Event>, e: Event, a: Addr, next: map<Addr, Time>)
    requires RecalledAt(ext, events, a) && Before(events, e.at)
    requires next == Unexpired(ext, e.at) + Unexpired(e.record, e.at)
    ensures RecalledAt(next, events + [e], a)
  {
    var more := events + [e];
    if Carries(e, a) {
      assert MostRecent(more, |events|, a);
      assert forall i: nat :: MostRecent(more, i, a) ==> i == |events|;
    } else {
      forall i: nat
        ensures MostRecent(more, i, a) <==> MostRecent(events, i, a)
        ensures MostRecent(events, i, a) ==> more[i] == events[i]
      {
        assert i < |events| ==> forall j :: i < j < |events| ==> more[j] == events[j];
      }
      if a in next {
        var i: nat :| MostRecent(events, i, a) && events[i].record[a] > events[|events| - 1].at;
        assert MostRecent(more, i, a) && more[i].record[a] > e.at;
      }
    }
  }

  // ---------- the events of a run ----------

  ghost function BatchEvents(batch: seq<PublishItem>, n: nat, d: Domain, now: Time): seq<Event>
    requires n <= |batch|
  {
    if n == 0 then []
    else BatchEvents(batch, n - 1, d, now) + if batch[n - 1].domain == d then [Event(now, batch[n - 1].record)] else []
  }

  /** The operation made the domain, made it anew under this name, or ended it. */
  ghost predicate Restarts(st: State, op: Op, d: Domain) {
    && ResultOf(st, op).Done?
    && match op
       case OpCreate(x) => x == d
       case OpDelete(x) => x == d
       case OpUpdate(o, n) => o == d || n == d
       case OpPublish(_, _) => false
  }

  /** Everything published for a domain since it last started. */
  ghost function Events(names: seq<Domain>, ops: seq<Op>, times: seq<Time>, n: nat, d: Domain): seq<Event>
    requires n <= |ops| == |times|
  {
    if n == 0 then []
    else
      var past := Events(names, ops, times, n - 1, d);
      var op := ops[n - 1];
      if Restarts(RunTo(names, ops, n - 1), op, d) then []
      else if op.OpPublish? then past + BatchEvents(op.batch, |op.batch|, d, times[n - 1])
      else past
  }

  /** One clock reading per batch, and a clock that does not go back. */
  ghost predicate Timed(ops: seq<Op>, times: seq<Time>) {
    && |ops| == |times|
    && (forall i :: 0 <= i < |ops| && ops[i].OpPublish? ==> OneReading(ops[i].clock, times[i]))
    && (forall i, j :: 0 <= i < j < |times| ==> times[i] <= times[j])
  }

  lemma {:induction false} BatchRecalled(st: State, batch: seq<PublishItem>, n: nat, clock: Clock, now: Time,
                                         d: Domain, a: Addr, past: seq<Event>)
    requires n <= |batch| && OneReading(clock, now) && Before(past, now)
    requires RecalledAt(Ext(st.domains, d), past, a)
    ensures Before(past + BatchEvents(batch, n, d, now), now)
    ensures RecalledAt(Ext(PublishTo(st, batch, n, clock).st.domains, d), past + BatchEvents(batch, n, d, now), a)
  {
    hide PublishRecord, RecalledAt, Unexpired;
    if n == 0 {
      assert past + [] == past;
    } else {
      BatchRecalled(st, batch, n - 1, clock, now, d, a, past);
      var p := PublishTo(st, batch, n - 1, clock);
      var rec := batch[n - 1];
      var done := past + BatchEvents(batch, n - 1, d, now);
      RecordDomains(p, rec, n - 1, clock, now);
      if rec.domain == d {
        var e := Event(now, rec.record);
        OneMoreEvent(Ext(p.st.domains, d), done, e, a,
                     Unexpired(Ext(p.st.domains, d), now) + Unexpired(rec.record, now));
        assert past + BatchEvents(batch, n, d, now) == done + [e];
      } else {
        assert past + BatchEvents(batch, n, d, now) == done;
      }
    }
  }

  lemma RecordDomains(p: Progress, rec: PublishItem, n: nat, clock: Clock, now: Time)
    requires OneReading(clock, now)
    ensures PublishRecord(p, rec, n, clock).st.domains ==
            p.st.domains[rec.domain :=
              Entry(Unexpired(Ext(p.st.domains, rec.domain), now) + Unexpired(rec.record, now), rec.expire)]
  {
    StoredIsMerge(p.st, rec, n, clock, now);
    hide Unexpired, Stored;
  }

  /** Other operations either restart the domain with nothing or leave it alone. */
  lemma OtherOps(st: State, op: Op, d: Domain)
    requires !op.OpPublish?
    ensures Restarts(st, op, d) ==> Ext(After(st, op).domains, d) == map[]
    ensures !Restarts(st, op, d) ==> Ext(After(st, op).domains, d) == Ext(st.domains, d)
  {
  }

  /** In every run with one clock reading per batch and a clock that does not go
      back, after any number of operations: a domain holds an address exactly
      when the latest publish that carried it unexpired gave it an expiry beyond
      the latest publish to that domain, and with that expiry. */
  lemma {:induction false} RunRecalls(names: seq<Domain>, ops: seq<Op>, times: seq<Time>, n: nat, d: Domain, a: Addr)
    requires Timed(ops, times) && n <= |ops|
    ensures n < |ops| ==> Before(Events(names, ops, times, n, d), times[n])
    ensures n > 0 ==> Before(Events(names, ops, times, n, d), times[n - 1])
    ensures RecalledAt(Ext(RunTo(names, ops, n).domains, d), Events(names, ops, times, n, d), a)
  {
    hide RecalledAt, Restarts;
    if n == 0 {
      assert Ext(Initial(names).domains, d) == map[];
      NothingRecalled(a);
    } else {
      RunRecalls(names, ops, times, n - 1, d, a);
      hide After;
      var st := RunTo(names, ops, n - 1);
      var op := ops[n - 1];
      var past := Events(names, ops, times, n - 1, d);
      if op.OpPublish? {
        PublishRecalls(st, op, times[n - 1], d, a, past);
      } else {
        OtherOps(st, op, d);
        NothingRecalled(a);
      }
    }
  }

  lemma PublishRecalls(st: State, op: Op, now: Time, d: Domain, a: Addr, past: seq<Event>)
    requires op.OpPublish? && OneReading(op.clock, now) && Before(past, now)
    requires RecalledAt(Ext(st.domains, d), past, a)
    ensures !Restarts(st, op, d)
    ensures Before(past + BatchEvents(op.batch, |op.batch|, d, now), now)
    ensures RecalledAt(Ext(After(st, op).domains, d), past + BatchEvents(op.batch, |op.batch|, d, now), a)
  {
    hide RecalledAt, PublishTo;
    BatchRecalled(st, op.batch, |op.batch|, op.clock, now, d, a, past);
  }
}
