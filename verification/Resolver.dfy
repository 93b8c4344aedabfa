/** The collector of DNS results: one map entry per domain, merged result by
    result, and the batch that is published from it. */
module Resolver {
  import opened Types
  import opened StoreSpec
  import opened Batch
  import opened BatchLimits

  datatype DnsResult = DnsResult(domain: Domain, record: seq<Addr>, ttl: nat)

  /** A result taken from the channel and the clock at that moment. */
  datatype Receipt = Receipt(res: DnsResult, at: Time)

  function ExpiryOf(r: Receipt): Time {
    r.at + HOUR
  }

  /** Every address of the result gets the later of its two expiries. */
  function Extended(record: map<Addr, Time>, addresses: seq<Addr>, expires: Time): map<Addr, Time> {
    map a | a in record.Keys + (set x | x in addresses)
      :: if a in record && (a !in addresses || record[a] >= expires) then record[a] else expires
  }

  function Merged(lst: map<Domain, PublishItem>, r: Receipt, now: Time): map<Domain, PublishItem> {
    var d := r.res.domain;
    var item := if d in lst then lst[d] else PublishItem(d, now + SECOND * r.res.ttl, map[]);
    lst[d := item.(record := Extended(item.record, r.res.record, ExpiryOf(r)))]
  }

  function Collected(received: seq<Receipt>, now: Time): map<Domain, PublishItem> {
    if received == [] then map[]
    else Merged(Collected(received[..|received| - 1], now), received[|received| - 1], now)
  }

  class Collector {
    const now: Time
    var lst: map<Domain, PublishItem>
    ghost var received: seq<Receipt>

    ghost predicate Valid()
      reads this
    {
      lst == Collected(received, now)
    }

    constructor (now: Time)
      ensures this.now == now && received == [] && Valid()
    {
      this.now := now;
      lst := map[];
      received := [];
    }

    /** The loop over the addresses of a result. */
    method Extend(d: Domain, addresses: seq<Addr>, newExpires: Time)
      requires d in lst
      modifies this`lst
      ensures lst == old(lst)[d := old(lst)[d].(record := Extended(old(lst)[d].record, addresses, newExpires))]
    {
      hide Extended;
      ghost var item := lst[d];
      NothingExtended(item.record, newExpires);
      for i := 0 to |addresses|
        invariant lst == old(lst)[d := item.(record := Extended(item.record, addresses[..i], newExpires))]
      {
        var address := addresses[i];
        ExtendOne(item.record, addresses[..i], address, newExpires);
        assert addresses[..i + 1] == addresses[..i] + [address];
        if address !in lst[d].record {
          lst := lst[d := lst[d].(record := lst[d].record[address := newExpires])];
        } else if lst[d].record[address] < newExpires {
          lst := lst[d := lst[d].(record := lst[d].record[address := newExpires])];
        }
      }
      assert addresses[..|addresses|] == addresses;
    }

    /** One result from the channel. */
    method Receive(r: Receipt)
      requires Valid()
      modifies this
      ensures Valid() && received == old(received) + [r]
    {
      hide Extended, Collected;
      var d := r.res.domain;
      var newExpires := r.at + HOUR;
      if d !in lst {
        lst := lst[d := PublishItem(d, now + SECOND * r.res.ttl, map[])];
      }
      Extend(d, r.res.record, newExpires);
      CollectedOneMore(received, r, now);
      received := received + [r];
    }

    /** slices.Collect(maps.Values(lst)): the batch handed to Publish. */
    method Items() returns (batch: seq<PublishItem>)
      requires Valid()
      ensures DistinctDomains(batch) && DiffSafe(batch)
      ensures forall item :: item in batch <==> exists d :: d in lst && lst[d] == item
      ensures |batch| == |lst|
    {
      CollectedDomainsAgree(received, now);
      batch := [];
      var rest := lst.Keys;
      while rest != {}
        invariant rest <= lst.Keys && |batch| + |rest| == |lst|
        invariant forall item :: item in batch <==> exists d :: d in lst && d !in rest && lst[d] == item
        invariant DistinctDomains(batch) && forall i :: 0 <= i < |batch| ==> batch[i].domain !in rest
      {
        var d :| d in rest;
        rest := rest - {d};
        batch := batch + [lst[d]];
      }
      DistinctIsSafe(batch);
    }
  }

  /** The entry of a domain is about that domain. */
  ghost predicate DomainsAgree(lst: map<Domain, PublishItem>) {
    forall d :: d in lst ==> lst[d].domain == d
  }

  lemma CollectedOneMore(received: seq<Receipt>, r: Receipt, now: Time)
    ensures Collected(received + [r], now) == Merged(Collected(received, now), r, now)
  {
    hide Merged;
    assert (received + [r])[..|received|] == received;
  }

  lemma NothingExtended(record: map<Addr, Time>, expires: Time)
    ensures Extended(record, [], expires) == record
  {
  }

  lemma ExtendOne(record: map<Addr, Time>, done: seq<Addr>, a: Addr, expires: Time)
    ensures
      var m := Extended(record, done, expires);
      Extended(record, done + [a], expires) == if a !in m || m[a] < expires then m[a := expires] else m
  {
  }

  // ---------- what the batch says ----------

  ghost predicate About(r: Receipt, d: Domain, a: Addr) {
    r.res.domain == d && a in r.res.record
  }

  ghost predicate Seen(received: seq<Receipt>, d: Domain) {
    exists r :: r in received && r.res.domain == d
  }

  ghost predicate SeenWith(received: seq<Receipt>, d: Domain, a: Addr) {
    exists r :: r in received && About(r, d, a)
  }

  /** The expiry of an address is that of the latest result carrying it. */
  ghost predicate Latest(received: seq<Receipt>, d: Domain, a: Addr, t: Time) {
    && (exists r :: r in received && About(r, d, a) && t == ExpiryOf(r))
    && (forall r :: r in received && About(r, d, a) ==> ExpiryOf(r) <= t)
  }

  ghost predicate MergedFor(received: seq<Receipt>, lst: map<Domain, PublishItem>, d: Domain, a: Addr) {
    && (d in lst <==> Seen(received, d))
    && (d in lst ==>
          && lst[d].domain == d
          && (a in lst[d].record <==> SeenWith(received, d, a))
          && (a in lst[d].record ==> Latest(received, d, a, lst[d].record[a])))
  }

  lemma SeenOneMore(past: seq<Receipt>, r: Receipt, d: Domain, a: Addr)
    ensures Seen(past + [r], d) <==> Seen(past, d) || r.res.domain == d
    ensures SeenWith(past + [r], d, a) <==> SeenWith(past, d, a) || About(r, d, a)
  {
    assert forall x :: x in past + [r] <==> x in past || x == r;
    if x :| x in past && About(x, d, a) {
      assert x in past + [r];
    }
  }

  lemma LatestOneMore(past: seq<Receipt>, r: Receipt, d: Domain, a: Addr, t: Time)
    requires Latest(past, d, a, t)
    ensures Latest(past + [r], d, a, if About(r, d, a) && ExpiryOf(r) > t then ExpiryOf(r) else t)
  {
    assert forall x :: x in past + [r] <==> x in past || x == r;
    var x :| x in past && About(x, d, a) && t == ExpiryOf(x);
    assert x in past + [r] && r in past + [r];
  }

  lemma LatestFirst(past: seq<Receipt>, r: Receipt, d: Domain, a: Addr)
    requires !SeenWith(past, d, a) && About(r, d, a)
    ensures Latest(past + [r], d, a, ExpiryOf(r))
  {
    assert forall x :: x in past + [r] <==> x in past || x == r;
    assert r in past + [r];
  }

  lemma MergeOne(past: seq<Receipt>, r: Receipt, now: Time, lst: map<Domain, PublishItem>, d: Domain, a: Addr)
    requires MergedFor(past, lst, d, a) && (d !in lst ==> !SeenWith(past, d, a))
    ensures MergedFor(past + [r], Merged(lst, r, now), d, a)
  {
    hide Latest, Seen, SeenWith;
    SeenOneMore(past, r, d, a);
    if SeenWith(past, d, a) {
      LatestOneMore(past, r, d, a, lst[d].record[a]);
    } else if About(r, d, a) {
      LatestFirst(past, r, d, a);
    }
  }

  /** Whatever the results and their order: one entry per domain seen, with the
      union of its addresses and the latest expiry of each. */
  lemma {:induction false} CollectorMerges(received: seq<Receipt>, now: Time, d: Domain, a: Addr)
    ensures MergedFor(received, Collected(received, now), d, a)
    ensures SeenWith(received, d, a) ==> Seen(received, d)
  {
    if received == [] {
    } else {
      var past := received[..|received| - 1];
      CollectorMerges(past, now, d, a);
      assert received == past + [received[|received| - 1]];
      hide Merged, Latest;
      MergeOne(past, received[|received| - 1], now, Collected(past, now), d, a);
    }
  }

  ghost predicate FirstOf(received: seq<Receipt>, d: Domain, i: nat) {
    && i < |received| && received[i].res.domain == d
    && forall j :: 0 <= j < i ==> received[j].res.domain != d
  }

  /** The item expires with the time to live of the first result for its domain,
      counted from the start of the round. */
  lemma {:induction false} FirstResultDecidesExpiry(received: seq<Receipt>, now: Time, d: Domain, i: nat)
    requires FirstOf(received, d, i)
    ensures d in Collected(received, now)
    ensures Collected(received, now)[d].expire == now + 1_000_000_000 * received[i].res.ttl
  {
    var past := received[..|received| - 1];
    if i == |past| {
      NotSeenYet(past, now, d);
    } else {
      assert FirstOf(past, d, i);
      FirstResultDecidesExpiry(past, now, d, i);
    }
  }

  lemma {:induction false} NotSeenYet(received: seq<Receipt>, now: Time, d: Domain)
    requires forall j :: 0 <= j < |received| ==> received[j].res.domain != d
    ensures d !in Collected(received, now)
  {
    if received == [] {
    } else {
      NotSeenYet(received[..|received| - 1], now, d);
    }
  }

  lemma CollectedDomainsAgree(received: seq<Receipt>, now: Time)
    ensures DomainsAgree(Collected(received, now))
  {
    forall d | d in Collected(received, now)
      ensures Collected(received, now)[d].domain == d
    {
      CollectorMerges(received, now, d, 0);
    }
  }

  // ---------- the order of arrival ----------

  /** What was received, without the instants. */
  function Results(received: seq<Receipt>): seq<DnsResult> {
    seq(|received|, i requires 0 <= i < |received| => received[i].res)
  }

  ghost predicate Names(results: seq<DnsResult>, d: Domain) {
    exists x :: x in results && x.domain == d
  }

  ghost predicate NamesWith(results: seq<DnsResult>, d: Domain, a: Addr) {
    exists x :: x in results && x.domain == d && a in x.record
  }

  /** Which domains and addresses are collected is told from the results alone. */
  lemma CollectedNames(received: seq<Receipt>, now: Time, d: Domain, a: Addr)
    ensures d in Collected(received, now) <==> Names(Results(received), d)
    ensures d in Collected(received, now) ==>
              (a in Collected(received, now)[d].record <==> NamesWith(Results(received), d, a))
    ensures NamesWith(Results(received), d, a) ==> Names(Results(received), d)
  {
    CollectorMerges(received, now, d, a);
    hide Collected, Latest;
    forall x | x in Results(received)
      ensures exists r :: r in received && r.res == x
    {
      var i :| 0 <= i < |received| && Results(received)[i] == x;
      assert received[i] in received;
    }
    forall r | r in received
      ensures r.res in Results(received)
    {
      var i :| 0 <= i < |received| && received[i] == r;
      assert Results(received)[i] == r.res;
    }
  }

  /** The same results in another order, at any other instants, give the same
      domains with the same addresses. */
  lemma ArrivalOrder(r: seq<Receipt>, s: seq<Receipt>, now: Time)
    requires multiset(Results(r)) == multiset(Results(s))
    ensures Collected(r, now).Keys == Collected(s, now).Keys
    ensures forall d :: d in Collected(r, now) ==> Collected(r, now)[d].record.Keys == Collected(s, now)[d].record.Keys
  {
    var x, y := Collected(r, now), Collected(s, now);
    hide Collected;
    forall d: Domain
      ensures d in x <==> d in y
      ensures d in x ==> x[d].record.Keys == y[d].record.Keys
    {
      SameNames(r, s, d, 0, now);
      if d in x {
        forall a: Addr
          ensures a in x[d].record <==> a in y[d].record
        {
          SameNames(r, s, d, a, now);
        }
      }
    }
  }

  lemma SameNames(r: seq<Receipt>, s: seq<Receipt>, d: Domain, a: Addr, now: Time)
    requires multiset(Results(r)) == multiset(Results(s))
    ensures d in Collected(r, now) <==> d in Collected(s, now)
    ensures d in Collected(r, now) ==> (a in Collected(r, now)[d].record <==> a in Collected(s, now)[d].record)
  {
    CollectedNames(r, now, d, a);
    CollectedNames(s, now, d, a);
    hide Collected, Results;
    forall q: DnsResult
      ensures q in Results(r) <==> q in Results(s)
    {
      assert q in Results(r) <==> q in multiset(Results(r));
      assert q in Results(s) <==> q in multiset(Results(s));
    }
  }

  /** The instants at which results are received do not go back. */
  ghost predicate InOrder(received: seq<Receipt>) {
    forall i, j :: 0 <= i < j < |received| ==> received[i].at <= received[j].at
  }

  /** Receipt i is the last one that carries the address for the domain. */
  ghost predicate LastWith(received: seq<Receipt>, d: Domain, a: Addr, i: nat) {
    && i < |received| && About(received[i], d, a)
    && forall j :: i < j < |received| ==> !About(received[j], d, a)
  }

  /** Under a clock that does not go back an address expires an hour after the
      last result that carried it, whatever came before. */
  lemma LastCarrierDecidesExpiry(received: seq<Receipt>, now: Time, d: Domain, a: Addr, i: nat)
    requires InOrder(received) && LastWith(received, d, a, i)
    ensures d in Collected(received, now) && a in Collected(received, now)[d].record
    ensures Collected(received, now)[d].record[a] == received[i].at + 3_600_000_000_000
  {
    CollectorMerges(received, now, d, a);
    hide Collected;
    assert received[i] in received;
  }

  /** The same receipts in another order, which only a clock that repeats or goes
      back allows, give the same expiries as well. */
  lemma SameReceipts(r: seq<Receipt>, s: seq<Receipt>, now: Time)
    requires multiset(r) == multiset(s)
    ensures Collected(r, now).Keys == Collected(s, now).Keys
    ensures forall d :: d in Collected(r, now) ==> Collected(r, now)[d].record == Collected(s, now)[d].record
  {
    var x, y := Collected(r, now), Collected(s, now);
    hide Collected;
    forall d: Domain
      ensures d in x <==> d in y
      ensures d in x ==> x[d].record == y[d].record
    {
      SameReceiptsAt(r, s, d, 0, now);
      if d in x {
        forall a: Addr
          ensures a in x[d].record <==> a in y[d].record
          ensures a in x[d].record ==> x[d].record[a] == y[d].record[a]
        {
          SameReceiptsAt(r, s, d, a, now);
        }
      }
    }
  }

  lemma SameReceiptsAt(r: seq<Receipt>, s: seq<Receipt>, d: Domain, a: Addr, now: Time)
    requires multiset(r) == multiset(s)
    ensures d in Collected(r, now) <==> d in Collected(s, now)
    ensures d in Collected(r, now) ==> (a in Collected(r, now)[d].record <==> a in Collected(s, now)[d].record)
    ensures d in Collected(r, now) && a in Collected(r, now)[d].record ==>
              Collected(r, now)[d].record[a] == Collected(s, now)[d].record[a]
  {
    CollectorMerges(r, now, d, a);
    CollectorMerges(s, now, d, a);
    hide Collected;
    forall q: Receipt
      ensures q in r <==> q in s
    {
      assert q in r <==> q in multiset(r);
      assert q in s <==> q in multiset(s);
    }
  }
}
