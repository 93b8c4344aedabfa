/** The exact conditions under which the message of a batch can be trusted: for
    clock readings of any kind, and for readings that do not go back. */
module BatchLimits {
  import opened Types
  import opened StoreSpec
  import opened Counts
  import opened Batch

  // ---------- how a batch misleads ----------

  /** The address is fresh in record i alone, and every later look finds what
      record i stored expired. */
  ghost predicate Lonely(batch: seq<PublishItem>, i: nat, a: Addr, clock: Clock) {
    && i < |batch| && a in batch[i].record
    && (forall k :: 0 <= k < |batch| ==> (Fresh(batch[k], k, clock, a) <==> k == i))
    && (forall k :: i < k < |batch| ==> clock(Check(k, Expiring, a)) >= batch[i].record[a])
  }

  /** Nobody holds the address, except perhaps d, until the given expiry. */
  ghost predicate HeldOnly(domains: map<Domain, Entry>, a: Addr, d: Domain, t: Time) {
    forall e: Domain :: a in Ext(domains, e) ==> e == d && Ext(domains, e)[a] == t
  }

  ghost predicate Unheld(domains: map<Domain, Entry>, a: Addr) {
    forall e: Domain :: a !in Ext(domains, e)
  }

  /** Before record i nobody holds the address. Record i adds it to the message.
      From record j on, of the same domain, nobody holds it again. */
  ghost predicate Misled(batch: seq<PublishItem>, i: nat, j: nat, a: Addr, n: nat, p: Progress)
    requires i < j < |batch| && a in batch[i].record
  {
    && (n <= i || n > j ==> Unheld(p.st.domains, a))
    && (n > i ==> a in p.toUpdate && HeldOnly(p.st.domains, a, batch[i].domain, batch[i].record[a]))
  }

  lemma UnheldIsNotCounted(st: State, a: Addr)
    requires Unheld(st.domains, a) && CountedAt(st, a)
    ensures a !in st.list
  {
    forall d: Domain
      ensures d !in Holders(st.domains, a)
    {
      assert a !in Ext(st.domains, d);
    }
  }

  lemma NextExt(batch: seq<PublishItem>, i: nat, a: Addr, clock: Clock, n: nat, st: State)
    requires Lonely(batch, i, a, clock) && n < |batch|
    requires n <= i ==> Unheld(st.domains, a)
    requires n > i ==> HeldOnly(st.domains, a, batch[i].domain, batch[i].record[a])
    ensures
      var e := Stored(st, batch[n], n, clock);
      (a in e.ext <==> n == i) && (n == i ==> e.ext[a] == batch[i].record[a])
  {
    var prior := Ext(st.domains, batch[n].domain);
    assert Fresh(batch[n], n, clock, a) <==> n == i;
    assert !Kept(prior, n, clock, a);
  }

  lemma RecordKeepsMisled(batch: seq<PublishItem>, i: nat, j: nat, a: Addr, clock: Clock, n: nat, p: Progress)
    requires i < j < |batch| && n < |batch| && batch[i].domain == batch[j].domain
    requires Lonely(batch, i, a, clock) && CountedAt(p.st, a) && Misled(batch, i, j, a, n, p)
    ensures Misled(batch, i, j, a, n + 1, PublishRecord(p, batch[n], n, clock))
  {
    var e := Stored(p.st, batch[n], n, clock);
    NextExt(batch, i, a, clock, n, p.st);
    RecordEffect(p, batch[n], n, clock, a);
    hide Lonely, Stored, Lost;
    if n == i {
      UnheldIsNotCounted(p.st, a);
    }
    forall f: Domain
      ensures Ext(Write(p.st, batch[n].domain, e).domains, f) ==
              if f == batch[n].domain then e.ext else Ext(p.st.domains, f)
    {
    }
  }

  lemma NothingMisled(batch: seq<PublishItem>, i: nat, j: nat, a: Addr)
    requires i < j < |batch| && a in batch[i].record
    ensures Misled(batch, i, j, a, 0, Progress(Initial([]), multiset{}, multiset{}))
  {
  }

  lemma CountedThroughout(batch: seq<PublishItem>, n: nat, clock: Clock, a: Addr)
    requires n <= |batch|
    ensures CountedAt(PublishTo(Initial([]), batch, n, clock).st, a)
  {
    InitialIsCounted([]);
    BatchKeepsCounts(Initial([]), batch, n, clock);
    hide PublishTo, CountedAt;
  }

  lemma {:induction false} BatchMisled(batch: seq<PublishItem>, i: nat, j: nat, a: Addr, clock: Clock, n: nat)
    requires i < j < |batch| && n <= |batch| && batch[i].domain == batch[j].domain
    requires a in batch[i].record && Lonely(batch, i, a, clock)
    ensures Misled(batch, i, j, a, n, PublishTo(Initial([]), batch, n, clock))
  {
    hide PublishRecord, Misled, Lonely, Initial, CountedAt;
    if n == 0 {
      NothingMisled(batch, i, j, a);
    } else {
      BatchMisled(batch, i, j, a, clock, n - 1);
      CountedThroughout(batch, n - 1, clock, a);
      RecordKeepsMisled(batch, i, j, a, clock, n - 1, PublishTo(Initial([]), batch, n - 1, clock));
    }
  }

  /** On the empty store the message then announces an address that nobody
      holds when the batch is done. */
  lemma LonelyFails(batch: seq<PublishItem>, i: nat, j: nat, a: Addr, clock: Clock)
    requires i < j < |batch| && batch[i].domain == batch[j].domain && Lonely(batch, i, a, clock)
    ensures !DiffExact(Initial([]), batch, clock)
  {
    BatchMisled(batch, i, j, a, clock, |batch|);
    CountedThroughout(batch, |batch|, clock, a);
    hide PublishTo, PublishRecord, Lonely, Emitted;
    var p := PublishTo(Initial([]), batch, |batch|, clock);
    UnheldIsNotCounted(p.st, a);
    EmittedEffect(Initial([]).list.Keys, CauseDNSPublish, p.toUpdate, p.toRemove, a);
  }

  /** A time after which no record's expiry for the address is in the future. */
  function Horizon(batch: seq<PublishItem>, a: Addr): (t: Time)
    ensures forall k :: 0 <= k < |batch| && a in batch[k].record ==> batch[k].record[a] <= t
  {
    if batch == [] then 0
    else
      var rest := batch[..|batch| - 1];
      var last := batch[|batch| - 1].record;
      assert forall k :: 0 <= k < |rest| ==> rest[k] == batch[k];
      if a in last && last[a] > Horizon(rest, a) then last[a] else Horizon(rest, a)
  }

  // ---------- readings of any kind ----------

  /** One early reading among late ones. */
  function Spike(batch: seq<PublishItem>, i: nat, a: Addr, t: Time): Clock {
    (c: Check) => if c == Check(i, Merging, a) then t - 1 else Horizon(batch, a)
  }

  /** An earlier record of a repeated domain that carries an address is enough
      for Publish to announce an address nobody holds, if the clock may go back. */
  lemma UnsafeBatchFails(batch: seq<PublishItem>)
    requires !DiffSafe(batch)
    ensures Counted(Initial([]))
    ensures exists clock: Clock :: !DiffExact(Initial([]), batch, clock)
  {
    InitialIsCounted([]);
    var i, j :| 0 <= i < j < |batch| && batch[i].domain == batch[j].domain && batch[i].record != map[];
    var a :| a in batch[i].record;
    hide Initial, DiffExact;
    LonelyFails(batch, i, j, a, Spike(batch, i, a, batch[i].record[a]));
  }

  /** The exact condition for readings of any kind: the broadcast diff is right
      for every store with exact counts if and only if no domain has an earlier
      record that carries addresses. */
  lemma ExactIffSafe(batch: seq<PublishItem>)
    ensures DiffSafe(batch) <==> forall st: State, clock: Clock :: Counted(st) ==> DiffExact(st, batch, clock)
  {
    hide Counted, DiffExact;
    if DiffSafe(batch) {
      forall st: State, clock: Clock | Counted(st)
        ensures DiffExact(st, batch, clock)
      {
        SafeBatchIsExact(st, batch, clock);
      }
    } else {
      UnsafeBatchFails(batch);
    }
  }

  lemma DistinctIsSafe(batch: seq<PublishItem>)
    requires DistinctDomains(batch)
    ensures DiffSafe(batch)
  {
  }

  // ---------- readings that do not go back ----------

  /** Records are processed in order, each with its two loops in order. The order
      of the addresses within a loop is that of a map iteration. */
  predicate Earlier(c: Check, d: Check) {
    c.record < d.record || (c.record == d.record && c.loop == Merging && d.loop == Expiring)
  }

  ghost predicate Monotone(clock: Clock) {
    forall c: Check, d: Check :: Earlier(c, d) ==> clock(c) <= clock(d)
  }

  /** An earlier record, the last of its domain, carries the address at least as
      long. */
  ghost predicate Outlived(batch: seq<PublishItem>, i: nat, a: Addr)
    requires i < |batch| && a in batch[i].record
  {
    exists k :: 0 <= k < i && Final(batch, k) && a in batch[k].record && batch[k].record[a] >= batch[i].record[a]
  }

  /** Every address of a record that is not the last of its domain is outlived. */
  ghost predicate MonotoneSafe(batch: seq<PublishItem>) {
    forall i, a :: 0 <= i < |batch| && !Final(batch, i) && a in batch[i].record ==> Outlived(batch, i, a)
  }

  lemma MonotoneSafeIsCalm(batch: seq<PublishItem>, clock: Clock, a: Addr)
    requires MonotoneSafe(batch) && Monotone(clock)
    ensures Calm(batch, clock, a)
  {
    forall i | 0 <= i < |batch| && !Final(batch, i) && Fresh(batch[i], i, clock, a)
      ensures Covered(batch, i, clock, a)
    {
      assert Outlived(batch, i, a);
      var k :| 0 <= k < i && Final(batch, k) && a in batch[k].record && batch[k].record[a] >= batch[i].record[a];
      assert Earlier(Check(k, Merging, a), Check(i, Merging, a));
      assert Fresh(batch[k], k, clock, a);
    }
  }

  lemma MonotoneSafeIsExact(st: State, batch: seq<PublishItem>, clock: Clock)
    requires Counted(st) && MonotoneSafe(batch) && Monotone(clock)
    ensures DiffExact(st, batch, clock)
  {
    hide DiffExact, Calm, Counted, MonotoneSafe, Monotone;
    forall a: Addr
      ensures Calm(batch, clock, a)
    {
      MonotoneSafeIsCalm(batch, clock, a);
    }
    CalmBatchIsExact(st, batch, clock);
  }

  /** The clock stands still up to the moment when record i merges, and then
      jumps. */
  function Jump(batch: seq<PublishItem>, i: nat, a: Addr, t: Time): Clock {
    (c: Check) => if c.record < i || (c.record == i && c.loop == Merging) then t - 1 else Horizon(batch, a)
  }

  ghost predicate Offends(batch: seq<PublishItem>, i: nat, a: Addr) {
    i < |batch| && !Final(batch, i) && a in batch[i].record && !Outlived(batch, i, a)
  }

  /** Before the first offending record nothing carries the address as long. */
  lemma {:induction false} FirstOffender(batch: seq<PublishItem>, i: nat, a: Addr) returns (f: nat)
    requires Offends(batch, i, a)
    ensures Offends(batch, f, a)
    ensures forall k :: 0 <= k < f && a in batch[k].record ==> batch[k].record[a] < batch[f].record[a]
    decreases i
  {
    if k :| 0 <= k < i && a in batch[k].record && batch[k].record[a] >= batch[i].record[a] {
      assert !Final(batch, k);
      if Outlived(batch, k, a) {
        assert Outlived(batch, i, a);
      }
      f := FirstOffender(batch, k, a);
    } else {
      f := i;
    }
  }

  lemma JumpIsLonely(batch: seq<PublishItem>, i: nat, a: Addr)
    requires Offends(batch, i, a)
    requires forall k :: 0 <= k < i && a in batch[k].record ==> batch[k].record[a] < batch[i].record[a]
    ensures
      var clock := Jump(batch, i, a, batch[i].record[a]);
      Monotone(clock) && Lonely(batch, i, a, clock)
  {
  }

  /** Otherwise a clock that does not go back is enough for Publish to announce
      an address nobody holds. */
  lemma MonotoneUnsafeFails(batch: seq<PublishItem>)
    requires !MonotoneSafe(batch)
    ensures Counted(Initial([]))
    ensures exists clock: Clock :: Monotone(clock) && !DiffExact(Initial([]), batch, clock)
  {
    InitialIsCounted([]);
    var i, a :| 0 <= i < |batch| && !Final(batch, i) && a in batch[i].record && !Outlived(batch, i, a);
    var f := FirstOffender(batch, i, a);
    JumpIsLonely(batch, f, a);
    var clock := Jump(batch, f, a, batch[f].record[a]);
    var j :| f < j < |batch| && batch[j].domain == batch[f].domain;
    hide Initial, DiffExact, Monotone, Lonely, Jump;
    LonelyFails(batch, f, j, a, clock);
  }

  /** The exact condition for readings that do not go back, as those of the
      program do not: the broadcast diff is right for every store with exact
      counts if and only if every address of a record that is not the last of its
      domain is carried at least as long by an earlier record that is. */
  lemma MonotoneExactIff(batch: seq<PublishItem>)
    ensures MonotoneSafe(batch) <==>
            forall st: State, clock: Clock :: Counted(st) && Monotone(clock) ==> DiffExact(st, batch, clock)
  {
    hide Counted, DiffExact, Monotone, MonotoneSafe;
    if MonotoneSafe(batch) {
      forall st: State, clock: Clock | Counted(st) && Monotone(clock)
        ensures DiffExact(st, batch, clock)
      {
        MonotoneSafeIsExact(st, batch, clock);
      }
    } else {
      MonotoneUnsafeFails(batch);
    }
  }

  /** The two conditions differ: an earlier record of a repeated domain may carry
      an address that another domain keeps for longer. */
  lemma ConditionsDiffer(x: Domain, d: Domain, a: Addr)
    requires x != d
    ensures
      var batch := [PublishItem(x, 0, map[a := 100]), PublishItem(d, 0, map[a := 50]), PublishItem(d, 0, map[])];
      MonotoneSafe(batch) && !DiffSafe(batch)
  {
    var batch := [PublishItem(x, 0, map[a := 100]), PublishItem(d, 0, map[a := 50]), PublishItem(d, 0, map[])];
    assert batch[1].domain == batch[2].domain && a in batch[1].record;
    assert Final(batch, 0) && Outlived(batch, 1, a);
  }
}
