/** Publish as a merge of maps, and its independence of order, when one batch is
    processed under one clock reading. */
module Refinement {
  import opened Types
  import opened StoreSpec
  import opened Counts
  import opened Batch
  import opened BatchLimits

  /** One clock reading for the whole batch. */
  ghost predicate OneReading(clock: Clock, now: Time) {
    forall c: Check :: clock(c) == now
  }

  function Unexpired(m: map<Addr, Time>, now: Time): map<Addr, Time> {
    map a | a in m && m[a] > now :: m[a]
  }

  lemma StoredIsMerge(st: State, rec: PublishItem, n: nat, clock: Clock, now: Time)
    requires OneReading(clock, now)
    ensures Stored(st, rec, n, clock) ==
            Entry(Unexpired(Ext(st.domains, rec.domain), now) + Unexpired(rec.record, now), rec.expire)
  {
    var prior := Ext(st.domains, rec.domain);
    var merged := Unexpired(prior, now) + Unexpired(rec.record, now);
    assert NewExt(prior, rec, n, clock) == merged;
  }

  /** The entry of a domain after the first n records of a batch. */
  ghost predicate MergedAt(st: State, batch: seq<PublishItem>, n: nat, now: Time, after: map<Domain, Entry>, d: Domain)
    requires n <= |batch|
  {
    && (forall i :: 0 <= i < n && batch[i].domain == d ==>
          && d in after
          && after[d] == Entry(Unexpired(Ext(st.domains, d), now) + Unexpired(batch[i].record, now), batch[i].expire))
    && ((forall i :: 0 <= i < n ==> batch[i].domain != d) ==>
          && (d in after <==> d in st.domains)
          && (d in after ==> after[d] == st.domains[d]))
  }

  lemma RecordMerges(st: State, batch: seq<PublishItem>, n: nat, clock: Clock, now: Time, p: Progress, d: Domain)
    requires n < |batch| && DistinctDomains(batch) && OneReading(clock, now)
    requires MergedAt(st, batch, n, now, p.st.domains, d)
    ensures MergedAt(st, batch, n + 1, now, PublishRecord(p, batch[n], n, clock).st.domains, d)
  {
    StoredIsMerge(p.st, batch[n], n, clock, now);
    hide Stored, Unexpired;
    if batch[n].domain == d {
      assert forall i :: 0 <= i < n ==> batch[i].domain != d;
      assert Ext(p.st.domains, d) == Ext(st.domains, d);
    }
  }

  lemma {:induction false} BatchMerges(st: State, batch: seq<PublishItem>, n: nat, clock: Clock, now: Time, d: Domain)
    requires n <= |batch| && DistinctDomains(batch) && OneReading(clock, now)
    ensures MergedAt(st, batch, n, now, PublishTo(st, batch, n, clock).st.domains, d)
  {
    hide PublishRecord;
    if n == 0 {
    } else {
      BatchMerges(st, batch, n - 1, clock, now, d);
      RecordMerges(st, batch, n - 1, clock, now, PublishTo(st, batch, n - 1, clock), d);
    }
  }

  ghost predicate Names(batch: seq<PublishItem>, d: Domain) {
    exists i :: 0 <= i < |batch| && batch[i].domain == d
  }

  /** The unexpired part of what a domain held, overridden by the unexpired part
      of what was published for it; other domains are untouched. */
  lemma PublishIsMerge(st: State, batch: seq<PublishItem>, clock: Clock, now: Time)
    requires DistinctDomains(batch) && OneReading(clock, now)
    ensures
      var after := Publish(st, batch, clock).st.domains;
      && (forall rec :: rec in batch ==>
            && rec.domain in after
            && after[rec.domain] ==
               Entry(Unexpired(Ext(st.domains, rec.domain), now) + Unexpired(rec.record, now), rec.expire))
      && (forall d: Domain :: !Names(batch, d) ==>
            (d in after <==> d in st.domains) && (d in after ==> after[d] == st.domains[d]))
  {
    hide PublishTo, Unexpired;
    var after := Publish(st, batch, clock).st.domains;
    forall rec | rec in batch
      ensures rec.domain in after
      ensures after[rec.domain] ==
              Entry(Unexpired(Ext(st.domains, rec.domain), now) + Unexpired(rec.record, now), rec.expire)
    {
      BatchMerges(st, batch, |batch|, clock, now, rec.domain);
      var i :| 0 <= i < |batch| && batch[i] == rec;
    }
    forall d: Domain | !Names(batch, d)
      ensures (d in after <==> d in st.domains) && (d in after ==> after[d] == st.domains[d])
    {
      BatchMerges(st, batch, |batch|, clock, now, d);
    }
  }

  lemma SameDomains(st: State, b: seq<PublishItem>, c: seq<PublishItem>, clock: Clock, now: Time)
    requires DistinctDomains(b) && DistinctDomains(c) && multiset(b) == multiset(c) && OneReading(clock, now)
    ensures Publish(st, b, clock).st.domains == Publish(st, c, clock).st.domains
  {
    hide PublishTo, Unexpired;
    var x, y := Publish(st, b, clock).st.domains, Publish(st, c, clock).st.domains;
    forall d: Domain
      ensures (d in x <==> d in y) && (d in x ==> x[d] == y[d])
    {
      BatchMerges(st, b, |b|, clock, now, d);
      BatchMerges(st, c, |c|, clock, now, d);
      SameRecord(b, c, d);
      SameRecord(c, b, d);
    }
  }

  lemma SameRecord(b: seq<PublishItem>, c: seq<PublishItem>, d: Domain)
    requires multiset(b) == multiset(c)
    ensures forall i :: 0 <= i < |b| && b[i].domain == d ==> exists j :: 0 <= j < |c| && c[j] == b[i]
  {
    forall i | 0 <= i < |b| && b[i].domain == d
      ensures exists j :: 0 <= j < |c| && c[j] == b[i]
    {
      assert b[i] in multiset(c);
    }
  }

  /** The order in which the records of distinct domains are processed does not
      matter: same domains, same counters, and messages of the same effect. */
  lemma OrderDoesNotMatter(st: State, b: seq<PublishItem>, c: seq<PublishItem>, clock: Clock, now: Time)
    requires Counted(st) && OneReading(clock, now)
    requires DistinctDomains(b) && DistinctDomains(c) && multiset(b) == multiset(c)
    ensures Publish(st, b, clock).st == Publish(st, c, clock).st
    ensures Folded(st.list.Keys, Publish(st, b, clock).sent) == Folded(st.list.Keys, Publish(st, c, clock).sent)
  {
    SameDomains(st, b, c, clock, now);
    BatchKeepsCounts(st, b, |b|, clock);
    BatchKeepsCounts(st, c, |c|, clock);
    hide PublishTo, Counted, Emitted;
    CountsDetermined(Publish(st, b, clock).st, Publish(st, c, clock).st);
    DistinctIsSafe(b);
    DistinctIsSafe(c);
    SafeBatchIsExact(st, b, clock);
    SafeBatchIsExact(st, c, clock);
  }
}
