/** Runs of the store: any series of operations after New. */
module Runs {
  import opened Types
  import opened StoreSpec
  import opened Counts
  import opened Batch
  import opened Refinement

  datatype Op =
    | OpCreate(d: Domain)
    | OpDelete(d: Domain)
    | OpUpdate(oldDomain: Domain, newDomain: Domain)
    | OpPublish(batch: seq<PublishItem>, clock: Clock)

  ghost function ResultOf(st: State, op: Op): Result {
    match op
    case OpCreate(d) => Create(st, d)
    case OpDelete(d) => Delete(st, d)
    case OpUpdate(o, n) => Update(st, o, n)
    case OpPublish(batch, clock) => Publish(st, batch, clock)
  }

  /** A failed operation changes nothing and sends nothing. */
  ghost function After(st: State, op: Op): State {
    match ResultOf(st, op)
    case Done(next, _) => next
    case Failed(_) => st
  }

  ghost function SentBy(st: State, op: Op): seq<Message> {
    match ResultOf(st, op)
    case Done(_, sent) => sent
    case Failed(_) => []
  }

  ghost function RunTo(names: seq<Domain>, ops: seq<Op>, n: nat): State
    requires n <= |ops|
  {
    if n == 0 then Initial(names) else After(RunTo(names, ops, n - 1), ops[n - 1])
  }

  lemma OpKeepsCounts(st: State, op: Op)
    requires Counted(st)
    ensures Counted(After(st, op))
  {
    hide Counted, Without, PublishTo;
    match op
    case OpCreate(d) =>
      if d !in st.domains {
        NewDomainKeepsCounts(st, d, ZERO_TIME);
      }
    case OpDelete(d) =>
      if d in st.domains {
        WithoutKeepsCounts(st, d);
      }
    case OpUpdate(o, n) =>
      if n !in st.domains && o in st.domains {
        WithoutKeepsCounts(st, o);
        WithoutDomains(st, o);
        NewDomainKeepsCounts(Without(st, o), n, ZERO_TIME);
      }
    case OpPublish(batch, clock) =>
      BatchKeepsCounts(st, batch, |batch|, clock);
  }

  lemma WithoutDomains(st: State, d: Domain)
    ensures Without(st, d).domains == st.domains - {d}
  {
  }

  /** Exact reference counts in every reachable state, whatever the operations,
      the batches and the clock readings; so validate never complains. */
  lemma {:induction false} RunKeepsCounts(names: seq<Domain>, ops: seq<Op>, n: nat)
    requires n <= |ops|
    ensures Counted(RunTo(names, ops, n)) && Consistent(RunTo(names, ops, n))
  {
    hide Counted, After, Consistent;
    if n == 0 {
      InitialIsCounted(names);
    } else {
      RunKeepsCounts(names, ops, n - 1);
      OpKeepsCounts(RunTo(names, ops, n - 1), ops[n - 1]);
    }
    CountedIsConsistent(RunTo(names, ops, n));
  }

  // ---------- messages ----------

  /** Only Publish can misreport, and only for an unsafe batch. */
  ghost predicate SafeOp(op: Op) {
    op.OpPublish? ==> DiffSafe(op.batch)
  }

  /** What an operation sends turns the addresses announced before it into those
      announced after it. */
  lemma SentIsExact(st: State, op: Op)
    requires Counted(st) && SafeOp(op)
    ensures After(st, op).list.Keys == Folded(st.list.Keys, SentBy(st, op))
  {
    hide Counted, Without, PublishTo, DiffSafe;
    match op
    case OpCreate(d) =>
    case OpDelete(d) =>
      if d in st.domains {
        ReleaseIsExact(st, d, CauseAPIDelete);
      }
    case OpUpdate(o, n) =>
      if n !in st.domains && o in st.domains {
        ReleaseIsExact(st, o, CauseAPIUpdate);
      }
    case OpPublish(batch, clock) =>
      SafeBatchIsExact(st, batch, clock);
  }

  lemma ReleaseIsExact(st: State, d: Domain, cause: Cause)
    requires Counted(st) && d in st.domains
    ensures Without(st, d).list.Keys ==
            Folded(st.list.Keys, Emitted(cause, multiset{}, multiset(LastHeld(st.list, Ext(st.domains, d).Keys))))
  {
    WithoutKeepsCounts(st, d);
    hide Counted, Without, Emitted, Listing, Live;
    var gone := LastHeld(st.list, Ext(st.domains, d).Keys);
    var left := Folded(st.list.Keys, Emitted(cause, multiset{}, multiset(gone)));
    forall a: Addr
      ensures a in left <==> a in st.list.Keys - gone
    {
      EmittedEffect(st.list.Keys, cause, multiset{}, multiset(gone), a);
    }
  }

  /** Delete withdraws, in increasing order, exactly the addresses that no other
      domain holds; what stays announced is what the other domains hold. */
  lemma DeleteWithdrawsSoleHoldings(st: State, d: Domain)
    requires Counted(st) && d in st.domains
    ensures
      var sole := st.domains[d].ext.Keys - Live(st.domains - {d});
      var r := Delete(st, d);
      && r.Done? && r.st.list.Keys == Live(st.domains - {d})
      && (sole == {} ==> r.sent == [])
      && (sole != {} ==> |r.sent| == 1 && r.sent[0].cause == CauseAPIDelete && r.sent[0].toUpdate == []
                         && Elements(r.sent[0].toRemove) == sole && StrictlyIncreasing(r.sent[0].toRemove))
  {
    WithoutKeepsCounts(st, d);
    AnnouncedIsLive(Without(st, d));
    WithoutDomains(st, d);
    hide Counted, Live, LastHeld, Without;
    OneSided(CauseAPIDelete, st.domains[d].ext.Keys - Live(st.domains - {d}));
  }

  // ---------- what each operation of a run does ----------

  /** Nothing is sent if nothing goes; otherwise one message withdraws exactly
      what goes, in increasing order. */
  ghost predicate Withdraws(sent: seq<Message>, cause: Cause, gone: set<Addr>) {
    && (gone == {} ==> sent == [])
    && (gone != {} ==> |sent| == 1 && sent[0].cause == cause && sent[0].toUpdate == []
                       && Elements(sent[0].toRemove) == gone && StrictlyIncreasing(sent[0].toRemove))
  }

  /** Which operations fail, and with which error. */
  lemma ErrorsExactly(st: State, op: Op)
    ensures op.OpCreate? ==> (ResultOf(st, op) == Failed(Exist) <==> op.d in st.domains)
    ensures op.OpDelete? ==> (ResultOf(st, op) == Failed(NotFound) <==> op.d !in st.domains)
    ensures op.OpUpdate? ==> (ResultOf(st, op) == Failed(Exist) <==> op.newDomain in st.domains)
    ensures op.OpUpdate? ==>
              (ResultOf(st, op) == Failed(NotFound) <==> op.newDomain !in st.domains && op.oldDomain !in st.domains)
    ensures ResultOf(st, op).Failed? <==>
            || (op.OpCreate? && op.d in st.domains)
            || (op.OpDelete? && op.d !in st.domains)
            || (op.OpUpdate? && (op.newDomain in st.domains || op.oldDomain !in st.domains))
    ensures ResultOf(st, op).Failed? ==> After(st, op) == st && SentBy(st, op) == []
  {
  }

  lemma CreateInRuns(st: State, d: Domain)
    ensures SentBy(st, OpCreate(d)) == [] && After(st, OpCreate(d)).list == st.list
    ensures After(st, OpCreate(d)).domains == if d in st.domains then st.domains else st.domains[d := Entry(map[], 0)]
  {
  }

  lemma DeleteInRuns(st: State, d: Domain)
    requires Counted(st) && d in st.domains
    ensures After(st, OpDelete(d)).domains == st.domains - {d}
    ensures After(st, OpDelete(d)).list.Keys == Live(st.domains - {d})
    ensures Withdraws(SentBy(st, OpDelete(d)), CauseAPIDelete, st.domains[d].ext.Keys - Live(st.domains - {d}))
  {
    WithoutDomains(st, d);
    hide Counted, Live, Without, LastHeld, Emitted;
    DeleteWithdrawsSoleHoldings(st, d);
  }

  /** Renaming the first to the second: the old name is gone, the new one is empty
      and due, the other domains keep what they hold, and what is sent withdraws
      exactly what the old name alone held. */
  lemma UpdateInRuns(st: State, o: Domain, n: Domain)
    requires Counted(st) && o in st.domains && n !in st.domains
    ensures After(st, OpUpdate(o, n)).domains == (st.domains - {o})[n := Entry(map[], 0)]
    ensures After(st, OpUpdate(o, n)).list.Keys == Live(st.domains - {o})
    ensures Withdraws(SentBy(st, OpUpdate(o, n)), CauseAPIUpdate, st.domains[o].ext.Keys - Live(st.domains - {o}))
  {
    WithoutKeepsCounts(st, o);
    AnnouncedIsLive(Without(st, o));
    WithoutDomains(st, o);
    hide Counted, Live, LastHeld, Without, Emitted;
    OneSided(CauseAPIUpdate, st.domains[o].ext.Keys - Live(st.domains - {o}));
  }

  /** Publishing a batch of distinct domains merges each record into its domain,
      with the expiry of the record, and leaves the other domains. */
  lemma PublishInRuns(st: State, batch: seq<PublishItem>, clock: Clock, now: Time)
    requires Counted(st) && DistinctDomains(batch) && OneReading(clock, now)
    ensures
      var after := After(st, OpPublish(batch, clock));
      && (forall rec :: rec in batch ==>
            && rec.domain in after.domains
            && after.domains[rec.domain] ==
               Entry(Unexpired(Ext(st.domains, rec.domain), now) + Unexpired(rec.record, now), rec.expire))
      && (forall d: Domain :: !Names(batch, d) ==>
            && (d in after.domains <==> d in st.domains)
            && (d in after.domains ==> after.domains[d] == st.domains[d]))
      && after.list.Keys == Live(after.domains)
  {
    PublishIsMerge(st, batch, clock, now);
    OpKeepsCounts(st, OpPublish(batch, clock));
    AnnouncedIsLive(After(st, OpPublish(batch, clock)));
    hide Counted, Live, Unexpired, PublishTo, Names, DistinctDomains;
  }

  lemma SortedOfSet(s: seq<Addr>, gone: set<Addr>)
    requires Sorted(s) && multiset(s) == multiset(gone)
    ensures Elements(s) == gone && StrictlyIncreasing(s)
  {
    forall a: Addr
      ensures a in s <==> a in gone
    {
      assert a in s <==> a in multiset(s);
    }
    SortedDistinctIsStrict(s);
  }

  lemma EmptyListing(s: seq<Addr>)
    requires multiset(s) == multiset{}
    ensures s == []
  {
    assert |s| == |multiset(s)|;
  }

  /** A message that only withdraws. */
  lemma OneSided(cause: Cause, gone: set<Addr>)
    ensures
      var sent := Emitted(cause, multiset{}, multiset(gone));
      && (gone == {} ==> sent == [])
      && (gone != {} ==> |sent| == 1 && sent[0].cause == cause && sent[0].toUpdate == []
                         && Elements(sent[0].toRemove) == gone && StrictlyIncreasing(sent[0].toRemove))
  {
    hide Listing, Elements, StrictlyIncreasing, Sorted;
    SortedOfSet(Listing(multiset(gone)), gone);
    EmptyListing(Listing(multiset{}));
    if gone != {} {
      var x :| x in gone;
      assert x in multiset(gone);
    } else {
      assert multiset(gone) == multiset{};
    }
  }

  /** Renaming is deleting and creating: it succeeds exactly when both succeed,
      with the same store and the same withdrawals; only the cause differs. */
  lemma UpdateIsDeleteThenCreate(st: State, o: Domain, n: Domain)
    ensures
      var u := Update(st, o, n);
      var d := Delete(st, o);
      && (u.Done? <==> o in st.domains && n !in st.domains)
      && (u.Done? ==> d.Done? && Create(d.st, n) == Done(u.st, [])
                      && |u.sent| == |d.sent| <= 1
                      && (u.sent != [] ==> u.sent[0] == d.sent[0].(cause := CauseAPIUpdate)))
      && (u.Done? ==> n in u.st.domains && Ext(u.st.domains, n) == map[] && o !in u.st.domains)
      && (u == Failed(Exist) <==> n in st.domains)
  {
  }

  /** A new domain holds nothing and is due for resolving at once; nothing else
      changes. */
  lemma CreateAddsEmptyDomain(st: State, d: Domain, now: Time)
    requires now >= ZERO_TIME
    ensures
      var r := Create(st, d);
      && (r.Done? <==> d !in st.domains)
      && (r.Done? ==> r.sent == [] && r.st.list == st.list && r.st.domains - {d} == st.domains
                      && d in r.st.domains && r.st.domains[d].ext == map[] && r.st.domains[d].expire <= now)
  {
    if d !in st.domains {
      assert st.domains[d := Entry(map[], ZERO_TIME)] - {d} == st.domains;
    }
  }
}
