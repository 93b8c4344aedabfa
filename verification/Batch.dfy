/** The message of a published batch: when it describes the change of the
    announced set, and what it looks like. */
module Batch {
  import opened Types
  import opened StoreSpec
  import opened Counts

  /** Applying what Publish broadcasts to the announced set gives the new
      announced set. */
  ghost predicate DiffExact(st: State, batch: seq<PublishItem>, clock: Clock) {
    var r := Publish(st, batch, clock);
    r.st.list.Keys == Folded(st.list.Keys, r.sent)
  }

  ghost predicate DistinctDomains(batch: seq<PublishItem>) {
    forall i, j :: 0 <= i < j < |batch| ==> batch[i].domain != batch[j].domain
  }

  /** Only the last record of a domain carries addresses. Batches of distinct
      domains are of this kind. */
  ghost predicate DiffSafe(batch: seq<PublishItem>) {
    forall i, j :: 0 <= i < j < |batch| && batch[i].domain == batch[j].domain ==> batch[i].record == map[]
  }

  // ---------- calm batches: one address through the whole batch ----------

  /** The last record of its domain in the batch. */
  ghost predicate Final(batch: seq<PublishItem>, i: nat) {
    i < |batch| && forall k :: i < k < |batch| ==> batch[k].domain != batch[i].domain
  }

  /** An earlier final record gave the address to its domain for good. */
  ghost predicate Covered(batch: seq<PublishItem>, i: nat, clock: Clock, a: Addr)
    requires i <= |batch|
  {
    exists k :: 0 <= k < i && Final(batch, k) && Fresh(batch[k], k, clock, a)
  }

  /** A record that is not final brings the address only when it is covered. */
  ghost predicate Calm(batch: seq<PublishItem>, clock: Clock, a: Addr) {
    forall i :: 0 <= i < |batch| && !Final(batch, i) && Fresh(batch[i], i, clock, a) ==> Covered(batch, i, clock, a)
  }

  lemma SafeIsCalm(batch: seq<PublishItem>, clock: Clock, a: Addr)
    requires DiffSafe(batch)
    ensures Calm(batch, clock, a)
  {
  }

  /** A processed final record left the address with its domain, and later
      records do not come back to that domain. */
  ghost predicate Settled(batch: seq<PublishItem>, n: nat, domains: map<Domain, Entry>, a: Addr)
    requires n <= |batch|
  {
    exists j :: 0 <= j < n && Final(batch, j) && a in Ext(domains, batch[j].domain)
  }

  ghost predicate Tracked(st: State, batch: seq<PublishItem>, clock: Clock, n: nat, p: Progress, a: Addr)
    requires n <= |batch|
  {
    && CountedAt(p.st, a)
    && p.toUpdate[a] <= 1 && p.toRemove[a] <= 1
    && (a in p.toUpdate || Covered(batch, n, clock, a) ==> Settled(batch, n, p.st.domains, a))
    && (a in p.toRemove ==> a in st.list)
    && (a in p.toUpdate && a in st.list ==> a in p.toRemove)
    && (a in p.st.list <==> a in p.toUpdate || (a in st.list && a !in p.toRemove))
  }

  lemma SettledStays(st: State, batch: seq<PublishItem>, n: nat, e: Entry, a: Addr)
    requires n < |batch| && Settled(batch, n, st.domains, a)
    ensures Settled(batch, n + 1, st.domains[batch[n].domain := e], a)
    ensures exists d :: d != batch[n].domain && d in Holders(st.domains, a)
  {
    var j :| 0 <= j < n && Final(batch, j) && a in Ext(st.domains, batch[j].domain);
    assert batch[j].domain in Holders(st.domains, a);
    assert a in Ext(st.domains[batch[n].domain := e], batch[j].domain);
  }

  lemma FreshSettles(st: State, batch: seq<PublishItem>, n: nat, clock: Clock, a: Addr)
    requires n < |batch| && Final(batch, n) && Fresh(batch[n], n, clock, a)
    ensures Settled(batch, n + 1, st.domains[batch[n].domain := Stored(st, batch[n], n, clock)], a)
  {
    assert a in Ext(st.domains[batch[n].domain := Stored(st, batch[n], n, clock)], batch[n].domain);
  }

  lemma GainedIsFresh(st: State, rec: PublishItem, n: nat, clock: Clock, a: Addr)
    requires a in Gained(st, rec.domain, Stored(st, rec, n, clock))
    ensures Fresh(rec, n, clock, a)
  {
  }

  lemma RecordEffect(p: Progress, rec: PublishItem, n: nat, clock: Clock, a: Addr)
    ensures
      var e := Stored(p.st, rec, n, clock);
      var q := PublishRecord(p, rec, n, clock);
      && q.st == Write(p.st, rec.domain, e)
      && q.toUpdate[a] == p.toUpdate[a] + One(a in Gained(p.st, rec.domain, e))
      && q.toRemove[a] == p.toRemove[a] + One(a in Lost(p.st, rec.domain, e))
  {
    hide Stored, Gained, Lost, Write;
  }

  /** After one more record the address is settled if it was, or if a final
      record brings it. */
  lemma SettlingStep(st: State, batch: seq<PublishItem>, n: nat, clock: Clock, a: Addr)
    requires n < |batch| && Calm(batch, clock, a) && CountedAt(st, a)
    requires Covered(batch, n, clock, a) ==> Settled(batch, n, st.domains, a)
    ensures
      var e := Stored(st, batch[n], n, clock);
      var after := st.domains[batch[n].domain := e];
      && (a in Gained(st, batch[n].domain, e) || Covered(batch, n + 1, clock, a) ==> Settled(batch, n + 1, after, a))
      && (Settled(batch, n, st.domains, a) ==>
            Settled(batch, n + 1, after, a) && Holders(st.domains, a) != {batch[n].domain} && a in st.list)
  {
    hide Stored, Fresh, Final;
    var e := Stored(st, batch[n], n, clock);
    if Settled(batch, n, st.domains, a) {
      SettledStays(st, batch, n, e, a);
    } else if Fresh(batch[n], n, clock, a) && Final(batch, n) {
      FreshSettles(st, batch, n, clock, a);
    } else if a in Gained(st, batch[n].domain, e) {
      GainedIsFresh(st, batch[n], n, clock, a);
    }
  }

  lemma RecordKeepsTracked(st: State, batch: seq<PublishItem>, n: nat, clock: Clock, p: Progress, a: Addr)
    requires n < |batch| && Calm(batch, clock, a) && Tracked(st, batch, clock, n, p, a)
    ensures Tracked(st, batch, clock, n + 1, PublishRecord(p, batch[n], n, clock), a)
  {
    hide Settled, Stored, PublishRecord, Lost, Calm, Covered;
    var d := batch[n].domain;
    var e := Stored(p.st, batch[n], n, clock);
    WriteKeepsCountAt(p.st, d, e, a);
    RecordEffect(p, batch[n], n, clock, a);
    SettlingStep(p.st, batch, n, clock, a);
  }

  lemma {:induction false} BatchTracked(st: State, batch: seq<PublishItem>, n: nat, clock: Clock, a: Addr)
    requires n <= |batch| && Calm(batch, clock, a) && CountedAt(st, a)
    ensures Tracked(st, batch, clock, n, PublishTo(st, batch, n, clock), a)
  {
    hide PublishRecord, Tracked, Calm;
    if n == 0 {
      NothingTracked(st, batch, clock, a);
    } else {
      BatchTracked(st, batch, n - 1, clock, a);
      RecordKeepsTracked(st, batch, n - 1, clock, PublishTo(st, batch, n - 1, clock), a);
    }
  }

  lemma NothingTracked(st: State, batch: seq<PublishItem>, clock: Clock, a: Addr)
    requires CountedAt(st, a)
    ensures Tracked(st, batch, clock, 0, Progress(st, multiset{}, multiset{}), a)
  {
  }

  // ---------- the message ----------

  lemma ListingElements(m: multiset<Addr>, a: Addr)
    ensures a in Listing(m) <==> a in m
  {
    assert a in Listing(m) <==> a in multiset(Listing(m));
  }

  lemma EmittedEffect(table: set<Addr>, cause: Cause, toUpdate: multiset<Addr>, toRemove: multiset<Addr>, a: Addr)
    ensures a in Folded(table, Emitted(cause, toUpdate, toRemove)) <==> a in toUpdate || (a in table && a !in toRemove)
  {
    hide Listing;
    ListingElements(toUpdate, a);
    ListingElements(toRemove, a);
    var sent := Emitted(cause, toUpdate, toRemove);
    if sent != [] {
      assert sent[1..] == [];
      assert Folded(table, sent) == Patched(table, sent[0]);
    }
  }

  /** Whatever the store, a batch and a series of readings that are calm for
      every address give a message that says what became of the announced set. */
  lemma CalmBatchIsExact(st: State, batch: seq<PublishItem>, clock: Clock)
    requires Counted(st) && forall a: Addr :: Calm(batch, clock, a)
    ensures DiffExact(st, batch, clock)
  {
    hide PublishRecord, PublishTo, Calm;
    var p := PublishTo(st, batch, |batch|, clock);
    forall a: Addr
      ensures a in p.st.list <==> a in Folded(st.list.Keys, Emitted(CauseDNSPublish, p.toUpdate, p.toRemove))
    {
      assert CountedAt(st, a);
      BatchTracked(st, batch, |batch|, clock, a);
      EmittedEffect(st.list.Keys, CauseDNSPublish, p.toUpdate, p.toRemove, a);
    }
  }

  lemma SafeBatchIsExact(st: State, batch: seq<PublishItem>, clock: Clock)
    requires Counted(st) && DiffSafe(batch)
    ensures DiffExact(st, batch, clock)
  {
    hide DiffExact, Calm, Counted, DiffSafe;
    forall a: Addr
      ensures Calm(batch, clock, a)
    {
      SafeIsCalm(batch, clock, a);
    }
    CalmBatchIsExact(st, batch, clock);
  }

  /** Shape of the message of a safe batch: both lists are strictly increasing,
      only announced addresses are withdrawn, only addresses that end up
      announced are added, and an address that was announced before appears among
      the additions only if the batch also withdraws it. */
  ghost predicate WellShaped(before: set<Addr>, after: set<Addr>, msg: Message) {
    && msg.cause == CauseDNSPublish && Touched(msg) != {}
    && StrictlyIncreasing(msg.toUpdate) && NoDuplicates(msg.toUpdate)
    && StrictlyIncreasing(msg.toRemove) && NoDuplicates(msg.toRemove)
    && (forall a :: a in msg.toRemove ==> a in before)
    && (forall a :: a in msg.toUpdate ==> a in after && (a in before ==> a in msg.toRemove))
  }

  lemma MessageShape(st: State, batch: seq<PublishItem>, clock: Clock)
    requires Counted(st) && DiffSafe(batch)
    ensures
      var r := Publish(st, batch, clock);
      |r.sent| <= 1 && forall msg :: msg in r.sent ==> WellShaped(st.list.Keys, r.st.list.Keys, msg)
  {
    hide PublishRecord, PublishTo;
    var p := PublishTo(st, batch, |batch|, clock);
    forall a: Addr
      ensures Tracked(st, batch, clock, |batch|, p, a)
    {
      assert CountedAt(st, a);
      SafeIsCalm(batch, clock, a);
      BatchTracked(st, batch, |batch|, clock, a);
    }
    if Publish(st, batch, clock).sent != [] {
      ProgressShape(st, batch, clock, p, Message(CauseDNSPublish, Listing(p.toUpdate), Listing(p.toRemove)));
    }
  }

  lemma ProgressShape(st: State, batch: seq<PublishItem>, clock: Clock, p: Progress, msg: Message)
    requires forall a: Addr :: Tracked(st, batch, clock, |batch|, p, a)
    requires p.toUpdate != multiset{} || p.toRemove != multiset{}
    requires msg.cause == CauseDNSPublish && Sorted(msg.toUpdate) && Sorted(msg.toRemove)
    requires multiset(msg.toUpdate) == p.toUpdate && multiset(msg.toRemove) == p.toRemove
    ensures WellShaped(st.list.Keys, p.st.list.Keys, msg)
  {
    hide Settled, CountedAt, Sorted, StrictlyIncreasing, NoDuplicates;
    forall a: Addr
      ensures p.toUpdate[a] <= 1 && p.toRemove[a] <= 1
      ensures a in msg.toRemove ==> a in st.list
      ensures a in msg.toUpdate ==> a in p.st.list && (a in st.list ==> a in msg.toRemove)
    {
      assert Tracked(st, batch, clock, |batch|, p, a);
      assert a in msg.toUpdate <==> a in p.toUpdate;
      assert a in msg.toRemove <==> a in p.toRemove;
    }
    SortedDistinctIsStrict(msg.toUpdate);
    SortedDistinctIsStrict(msg.toRemove);
    assert Touched(msg) != {} by {
      var x :| x in p.toUpdate || x in p.toRemove;
      assert x in Touched(msg);
    }
  }
}
