/** The store itself: maps updated in place, loops over maps in any order, and
    messages handed to the broadcaster. Every method is proved against the
    functions of StoreSpec, whatever the iteration order. */
module Storage {
  import opened Types
  import opened StoreSpec
  import opened Broadcast
  import opened Counts

  datatype Item = Item(ext: map<Addr, Time>, domain: Domain, record: seq<Addr>, expire: Time)

  ghost function Entries(domains: map<Domain, Item>): map<Domain, Entry> {
    map d | d in domains :: Entry(domains[d].ext, domains[d].expire)
  }

  /** An item knows its own name and lists every held address once. */
  ghost predicate WellFormed(domains: map<Domain, Item>) {
    forall d :: d in domains ==>
      && domains[d].domain == d
      && NoDuplicates(domains[d].record) && Elements(domains[d].record) == domains[d].ext.Keys
  }

  lemma EntriesWrite(domains: map<Domain, Item>, d: Domain, item: Item)
    ensures Entries(domains[d := item]) == Entries(domains)[d := Entry(item.ext, item.expire)]
  {
  }

  lemma EntriesRemove(domains: map<Domain, Item>, d: Domain)
    ensures Entries(domains - {d}) == Entries(domains) - {d}
  {
  }

  lemma InitialOneMore(names: seq<Domain>, d: Domain)
    ensures Initial(names + [d]).domains == Initial(names).domains[d := Entry(map[], ZERO_TIME)]
  {
  }

  // ---------- partial loops ----------

  /** The addresses of `seen` that a record brings anew to its domain. */
  ghost function Joins(prior: map<Addr, Time>, rec: PublishItem, n: nat, clock: Clock, seen: set<Addr>): set<Addr> {
    set a | a in seen && a !in prior && Fresh(rec, n, clock, a)
  }

  /** The addresses of `seen` that a domain loses. */
  ghost function Leaves(prior: map<Addr, Time>, rec: PublishItem, n: nat, clock: Clock, seen: set<Addr>): set<Addr> {
    set a | a in seen && a in prior && !Fresh(rec, n, clock, a) && !Kept(prior, n, clock, a)
  }

  ghost function Unlisted(list: map<Addr, int>, s: set<Addr>): set<Addr> {
    set a | a in s && a !in list
  }

  lemma JoinOne(list: map<Addr, int>, more: set<Addr>, a: Addr, l: map<Addr, int>)
    requires a !in more && l == Adjusted(list, more, {})
    ensures Adjusted(list, more + {a}, {}) == l[a := Count(l, a) + 1]
    ensures a in l ==> multiset(Unlisted(list, more + {a})) == multiset(Unlisted(list, more))
    ensures a !in l ==> multiset(Unlisted(list, more + {a})) == multiset(Unlisted(list, more)) + multiset{a}
  {
    var u := Unlisted(list, more);
    assert Unlisted(list, more + {a}) == if a in l then u else u + {a};
  }

  lemma LeaveOne(list: map<Addr, int>, gone: set<Addr>, a: Addr, l: map<Addr, int>)
    requires a !in gone && l == Adjusted(list, {}, gone)
    ensures Count(l, a) > 1 ==>
              && Adjusted(list, {}, gone + {a}) == l[a := Count(l, a) - 1]
              && multiset(Dropped(list, gone + {a})) == multiset(Dropped(list, gone))
    ensures Count(l, a) <= 1 ==>
              && Adjusted(list, {}, gone + {a}) == l - {a}
              && multiset(Dropped(list, gone + {a})) == multiset(Dropped(list, gone)) + multiset{a}
  {
    var u := Dropped(list, gone);
    assert Count(l, a) == Count(list, a);
    assert Dropped(list, gone + {a}) == if Count(l, a) > 1 then u else u + {a};
  }

  lemma ReleaseOne(list: map<Addr, int>, gone: set<Addr>, a: Addr, l: map<Addr, int>)
    requires a !in gone && l == Released(list, gone)
    ensures a in l && l[a] <= 1 ==>
              && Released(list, gone + {a}) == l - {a}
              && multiset(LastHeld(list, gone + {a})) == multiset(LastHeld(list, gone)) + multiset{a}
    ensures !(a in l && l[a] <= 1) ==>
              && Released(list, gone + {a}) == l[a := Count(l, a) - 1]
              && multiset(LastHeld(list, gone + {a})) == multiset(LastHeld(list, gone))
  {
    var u := LastHeld(list, gone);
    assert LastHeld(list, gone + {a}) == if a in l && l[a] <= 1 then u + {a} else u;
  }

  ghost function FreshPart(rec: PublishItem, n: nat, clock: Clock, seen: set<Addr>): map<Addr, Time> {
    map a | a in seen && Fresh(rec, n, clock, a) :: rec.record[a]
  }

  ghost function HasPart(prior: map<Addr, Time>, rec: PublishItem, n: nat, clock: Clock, seen: set<Addr>): set<Addr> {
    set a | a in seen && a in prior && Fresh(rec, n, clock, a)
  }

  ghost function ExtPart(prior: map<Addr, Time>, rec: PublishItem, n: nat, clock: Clock, seen: set<Addr>)
    : map<Addr, Time>
  {
    map a | a in rec.record.Keys + seen && (Fresh(rec, n, clock, a) || (a in seen && Kept(prior, n, clock, a)))
      :: if Fresh(rec, n, clock, a) then rec.record[a] else prior[a]
  }

  /** What holds in the middle of the first loop of a record. */
  ghost predicate MergeState(prior: map<Addr, Time>, rec: PublishItem, n: nat, clock: Clock, seen: set<Addr>,
                             before: map<Addr, int>, added: multiset<Addr>,
                             lst: map<Addr, Time>, has: set<Addr>, list: map<Addr, int>, update: multiset<Addr>) {
    && lst == FreshPart(rec, n, clock, seen)
    && has == HasPart(prior, rec, n, clock, seen)
    && list == Adjusted(before, Joins(prior, rec, n, clock, seen), {})
    && update == added + multiset(Unlisted(before, Joins(prior, rec, n, clock, seen)))
  }

  lemma MergeStarts(prior: map<Addr, Time>, rec: PublishItem, n: nat, clock: Clock,
                    before: map<Addr, int>, added: multiset<Addr>)
    ensures MergeState(prior, rec, n, clock, {}, before, added, map[], {}, before, added)
  {
    assert Joins(prior, rec, n, clock, {}) == {} && Unlisted(before, {}) == {};
  }

  lemma MergeStep(prior: map<Addr, Time>, rec: PublishItem, n: nat, clock: Clock, seen: set<Addr>, a: Addr,
                  before: map<Addr, int>, added: multiset<Addr>,
                  lst: map<Addr, Time>, has: set<Addr>, list: map<Addr, int>, update: multiset<Addr>)
    requires a in rec.record && a !in seen
    requires MergeState(prior, rec, n, clock, seen, before, added, lst, has, list, update)
    ensures
      var t := rec.record[a];
      if t <= clock(Check(n, Merging, a)) then
        MergeState(prior, rec, n, clock, seen + {a}, before, added, lst, has, list, update)
      else if a in prior then
        MergeState(prior, rec, n, clock, seen + {a}, before, added, lst[a := t], has + {a}, list, update)
      else
        MergeState(prior, rec, n, clock, seen + {a}, before, added, lst[a := t], has, list[a := Count(list, a) + 1],
                   if a in list then update else update + multiset{a})
  {
    hide Adjusted, Unlisted;
    var more := Joins(prior, rec, n, clock, seen);
    if Fresh(rec, n, clock, a) && a !in prior {
      assert Joins(prior, rec, n, clock, seen + {a}) == more + {a};
      JoinOne(before, more, a, list);
    } else {
      assert Joins(prior, rec, n, clock, seen + {a}) == more;
    }
  }

  /** What holds in the middle of the second loop. */
  ghost predicate ExpireState(prior: map<Addr, Time>, rec: PublishItem, n: nat, clock: Clock, seen: set<Addr>,
                              before: map<Addr, int>, removed: multiset<Addr>,
                              lst: map<Addr, Time>, list: map<Addr, int>, remove: multiset<Addr>) {
    && lst == ExtPart(prior, rec, n, clock, seen)
    && list == Adjusted(before, {}, Leaves(prior, rec, n, clock, seen))
    && remove == removed + multiset(Dropped(before, Leaves(prior, rec, n, clock, seen)))
  }

  lemma ExpireStarts(prior: map<Addr, Time>, rec: PublishItem, n: nat, clock: Clock,
                     before: map<Addr, int>, removed: multiset<Addr>)
    ensures ExpireState(prior, rec, n, clock, {}, before, removed,
                        FreshPart(rec, n, clock, rec.record.Keys), before, removed)
  {
    assert Leaves(prior, rec, n, clock, {}) == {} && Dropped(before, {}) == {};
  }

  lemma ExpireStep(prior: map<Addr, Time>, rec: PublishItem, n: nat, clock: Clock, seen: set<Addr>, a: Addr,
                   before: map<Addr, int>, removed: multiset<Addr>,
                   lst: map<Addr, Time>, list: map<Addr, int>, remove: multiset<Addr>)
    requires a in prior && a !in seen
    requires ExpireState(prior, rec, n, clock, seen, before, removed, lst, list, remove)
    ensures
      if a in HasPart(prior, rec, n, clock, rec.record.Keys) then
        ExpireState(prior, rec, n, clock, seen + {a}, before, removed, lst, list, remove)
      else if prior[a] > clock(Check(n, Expiring, a)) then
        ExpireState(prior, rec, n, clock, seen + {a}, before, removed, lst[a := prior[a]], list, remove)
      else if Count(list, a) > 1 then
        ExpireState(prior, rec, n, clock, seen + {a}, before, removed, lst, list[a := Count(list, a) - 1], remove)
      else
        ExpireState(prior, rec, n, clock, seen + {a}, before, removed, lst, list - {a}, remove + multiset{a})
  {
    hide Adjusted, Dropped;
    var gone := Leaves(prior, rec, n, clock, seen);
    if Fresh(rec, n, clock, a) || Kept(prior, n, clock, a) {
      assert Leaves(prior, rec, n, clock, seen + {a}) == gone;
    } else {
      assert Leaves(prior, rec, n, clock, seen + {a}) == gone + {a};
      LeaveOne(before, gone, a, list);
    }
  }

  lemma MergeEnds(prior: map<Addr, Time>, rec: PublishItem, n: nat, clock: Clock,
                  before: map<Addr, int>, added: multiset<Addr>,
                  lst: map<Addr, Time>, has: set<Addr>, list: map<Addr, int>, update: multiset<Addr>)
    requires MergeState(prior, rec, n, clock, rec.record.Keys, before, added, lst, has, list, update)
    ensures lst == FreshPart(rec, n, clock, rec.record.Keys) && has == HasPart(prior, rec, n, clock, rec.record.Keys)
    ensures list == Adjusted(before, Joins(prior, rec, n, clock, rec.record.Keys), {})
    ensures update == added + multiset(Unlisted(before, Joins(prior, rec, n, clock, rec.record.Keys)))
  {
  }

  lemma ExpireEnds(prior: map<Addr, Time>, rec: PublishItem, n: nat, clock: Clock,
                   before: map<Addr, int>, removed: multiset<Addr>,
                   lst: map<Addr, Time>, list: map<Addr, int>, remove: multiset<Addr>)
    requires ExpireState(prior, rec, n, clock, prior.Keys, before, removed, lst, list, remove)
    ensures lst == NewExt(prior, rec, n, clock)
    ensures list == Adjusted(before, {}, Leaves(prior, rec, n, clock, prior.Keys))
    ensures remove == removed + multiset(Dropped(before, Leaves(prior, rec, n, clock, prior.Keys)))
  {
  }

  lemma NothingReleased(list: map<Addr, int>)
    ensures Released(list, {}) == list && LastHeld(list, {}) == {}
  {
  }

  /** The two loops of a published record together make the write of its entry. */
  lemma LoopsMakeRecord(st: State, rec: PublishItem, n: nat, clock: Clock)
    ensures
      var prior := Ext(st.domains, rec.domain);
      var e := Stored(st, rec, n, clock);
      var more := Joins(prior, rec, n, clock, rec.record.Keys);
      var gone := Leaves(prior, rec, n, clock, prior.Keys);
      var joined := Adjusted(st.list, more, {});
      && Adjusted(joined, {}, gone) == Write(st, rec.domain, e).list
      && Unlisted(st.list, more) == Gained(st, rec.domain, e)
      && Dropped(joined, gone) == Lost(st, rec.domain, e)
  {
    var prior := Ext(st.domains, rec.domain);
    var e := Stored(st, rec, n, clock);
    var more := Joins(prior, rec, n, clock, rec.record.Keys);
    var gone := Leaves(prior, rec, n, clock, prior.Keys);
    assert e.ext.Keys - prior.Keys == more && prior.Keys - e.ext.Keys == gone;
    assert Unlisted(st.list, more) == Gained(st, rec.domain, e);
    hide NewExt, Joins, Leaves, Fresh, Kept;
    AdjustTwice(st.list, more, gone);
  }

  lemma AdjustTwice(list: map<Addr, int>, more: set<Addr>, gone: set<Addr>)
    requires more !! gone
    ensures Adjusted(Adjusted(list, more, {}), {}, gone) == Adjusted(list, more, gone)
    ensures Dropped(Adjusted(list, more, {}), gone) == Dropped(list, gone)
  {
  }

  lemma SortIsListing(s: seq<Addr>, m: multiset<Addr>)
    requires multiset(s) == m
    ensures Sort(s) == Listing(m)
  {
    SortedUnique(Sort(s), Listing(m));
  }

  // ---------- the store ----------

  class Store {
    const manager: Server
    var list: map<Addr, int>
    var domains: map<Domain, Item>

    ghost predicate Valid()
      reads this
    {
      WellFormed(domains)
    }

    ghost function View(): State
      reads this
    {
      State(Entries(domains), list)
    }

    constructor (manager: Server, names: seq<Domain>)
      ensures Valid() && this.manager == manager
      ensures View() == Initial(names)
      ensures domains.Keys == Elements(names) && list == map[] && forall d :: d in domains ==> domains[d].ext == map[]
    {
      this.manager := manager;
      list := map[];
      domains := map[];
      new;
      for i := 0 to |names|
        invariant WellFormed(domains) && list == map[]
        invariant Entries(domains) == Initial(names[..i]).domains
      {
        EntriesWrite(domains, names[i], Item(map[], names[i], [], ZERO_TIME));
        assert names[..i + 1] == names[..i] + [names[i]];
        InitialOneMore(names[..i], names[i]);
        domains := domains[names[i] := Item(map[], names[i], [], ZERO_TIME)];
      }
      assert names[..|names|] == names;
      InitialIsEmpty(names);
      forall d | d in domains
        ensures d in names && domains[d].ext == map[]
      {
        assert Entries(domains)[d] == Initial(names).domains[d];
      }
      assert domains.Keys == Entries(domains).Keys;
    }

    // ---------- Publish ----------

    /** The first loop of a record: addresses that come with the record. */
    method MergeFresh(rec: PublishItem, prior: map<Addr, Time>, n: nat, clock: Clock, toUpdate: seq<Addr>)
      returns (lst: map<Addr, Time>, has: set<Addr>, update: seq<Addr>)
      modifies this`list
      ensures lst == FreshPart(rec, n, clock, rec.record.Keys)
      ensures has == HasPart(prior, rec, n, clock, rec.record.Keys)
      ensures
        var more := Joins(prior, rec, n, clock, rec.record.Keys);
        && list == Adjusted(old(list), more, {})
        && multiset(update) == multiset(toUpdate) + multiset(Unlisted(old(list), more))
    {
      hide MergeState;
      lst, has, update := map[], {}, toUpdate;
      var rest := rec.record.Keys;
      ghost var seen: set<Addr> := {};
      MergeStarts(prior, rec, n, clock, list, multiset(toUpdate));
      while rest != {}
        invariant seen + rest == rec.record.Keys && seen !! rest
        invariant MergeState(prior, rec, n, clock, seen, old(list), multiset(toUpdate), lst, has, list,
                             multiset(update))
      {
        var address :| address in rest;
        MergeStep(prior, rec, n, clock, seen, address, old(list), multiset(toUpdate), lst, has, list, multiset(update));
        rest := rest - {address};
        seen := seen + {address};
        var expires := rec.record[address];
        if expires - clock(Check(n, Merging, address)) <= 0 {
          continue;
        }
        if address in prior {
          lst := lst[address := expires];
          has := has + {address};
          continue;
        }
        if address !in list {
          update := update + [address];
        }
        lst := lst[address := expires];
        list := list[address := Count(list, address) + 1];
      }
      assert seen == rec.record.Keys;
      MergeEnds(prior, rec, n, clock, old(list), multiset(toUpdate), lst, has, list, multiset(update));
    }

    /** The second loop: addresses the domain held before. */
    method ExpirePrior(rec: PublishItem, prior: map<Addr, Time>, n: nat, clock: Clock,
                       merged: map<Addr, Time>, has: set<Addr>, toRemove: seq<Addr>)
      returns (lst: map<Addr, Time>, remove: seq<Addr>)
      requires merged == FreshPart(rec, n, clock, rec.record.Keys)
      requires has == HasPart(prior, rec, n, clock, rec.record.Keys)
      modifies this`list
      ensures lst == NewExt(prior, rec, n, clock)
      ensures
        var gone := Leaves(prior, rec, n, clock, prior.Keys);
        && list == Adjusted(old(list), {}, gone)
        && multiset(remove) == multiset(toRemove) + multiset(Dropped(old(list), gone))
    {
      hide ExpireState, FreshPart, HasPart, NewExt;
      lst, remove := merged, toRemove;
      var rest := prior.Keys;
      ghost var seen: set<Addr> := {};
      ExpireStarts(prior, rec, n, clock, list, multiset(toRemove));
      while rest != {}
        invariant seen + rest == prior.Keys && seen !! rest
        invariant ExpireState(prior, rec, n, clock, seen, old(list), multiset(toRemove), lst, list, multiset(remove))
      {
        var address :| address in rest;
        ExpireStep(prior, rec, n, clock, seen, address, old(list), multiset(toRemove), lst, list, multiset(remove));
        rest := rest - {address};
        seen := seen + {address};
        if address in has {
          continue;
        }
        var expires := prior[address];
        if expires - clock(Check(n, Expiring, address)) > 0 {
          lst := lst[address := expires];
          continue;
        }
        if address in list && list[address] > 1 {
          list := list[address := list[address] - 1];
          continue;
        }
        list := list - {address};
        remove := remove + [address];
      }
      assert seen == prior.Keys;
      ExpireEnds(prior, rec, n, clock, old(list), multiset(toRemove), lst, list, multiset(remove));
    }

    /** slices.Collect(maps.Keys(lst)): every key once, in any order. */
    method Collect(lst: map<Addr, Time>) returns (keys: seq<Addr>)
      ensures NoDuplicates(keys) && Elements(keys) == lst.Keys
    {
      keys := [];
      var rest := lst.Keys;
      while rest != {}
        invariant NoDuplicates(keys) && Elements(keys) !! rest && Elements(keys) + rest == lst.Keys
      {
        var address :| address in rest;
        rest := rest - {address};
        assert address !in Elements(keys);
        keys := keys + [address];
      }
    }

    /** The callback that recomputes the item of one published record. */
    method Refresh(rec: PublishItem, n: nat, clock: Clock, toUpdate: seq<Addr>, toRemove: seq<Addr>)
      returns (update: seq<Addr>, remove: seq<Addr>)
      requires Valid()
      modifies this`list, this`domains
      ensures Valid()
      ensures
        var before := Progress(old(View()), multiset(toUpdate), multiset(toRemove));
        Progress(View(), multiset(update), multiset(remove)) == PublishRecord(before, rec, n, clock)
    {
      hide Adjusted, NewExt, Joins, Leaves, Unlisted, Dropped, Gained, Lost;
      var prior: map<Addr, Time> := if rec.domain in domains then domains[rec.domain].ext else map[];
      assert prior == Ext(View().domains, rec.domain);
      LoopsMakeRecord(View(), rec, n, clock);
      var lst, has;
      lst, has, update := MergeFresh(rec, prior, n, clock, toUpdate);
      lst, remove := ExpirePrior(rec, prior, n, clock, lst, has, toRemove);
      var keys := Collect(lst);
      EntriesWrite(domains, rec.domain, Item(lst, rec.domain, keys, rec.expire));
      domains := domains[rec.domain := Item(lst, rec.domain, keys, rec.expire)];
    }

    method Publish(batch: seq<PublishItem>, clock: Clock)
      requires Valid()
      modifies this`list, this`domains, manager`output
      ensures Valid()
      ensures View() == StoreSpec.Publish(old(View()), batch, clock).st
      ensures manager.output == old(manager.output) +
              if manager.closed then [] else StoreSpec.Publish(old(View()), batch, clock).sent
    {
      hide PublishRecord, WellFormed, Entries;
      var toUpdate: seq<Addr>, toRemove: seq<Addr> := [], [];
      for i := 0 to |batch|
        invariant Valid() && manager.output == old(manager.output)
        invariant Progress(View(), multiset(toUpdate), multiset(toRemove)) == PublishTo(old(View()), batch, i, clock)
      {
        toUpdate, toRemove := Refresh(batch[i], i, clock, toUpdate, toRemove);
      }
      Send(CauseDNSPublish, toUpdate, toRemove);
      var _ := Validate();
    }

    /** Broadcasting what there is to say, sorted. */
    method Send(cause: Cause, toUpdate: seq<Addr>, toRemove: seq<Addr>)
      modifies manager`output
      ensures manager.output == old(manager.output) +
              if manager.closed then [] else Emitted(cause, multiset(toUpdate), multiset(toRemove))
    {
      hide Listing, Sort;
      assert |toUpdate| == |multiset(toUpdate)| && |toRemove| == |multiset(toRemove)|;
      if |toUpdate| > 0 || |toRemove| > 0 {
        SortIsListing(toUpdate, multiset(toUpdate));
        SortIsListing(toRemove, multiset(toRemove));
        manager.Broadcast(Message(cause, Sort(toUpdate), Sort(toRemove)));
      }
    }

    // ---------- Create, Delete, Update ----------

    method Create(d: Domain) returns (r: Option<Error>)
      requires Valid()
      modifies this`domains
      ensures Valid()
      ensures match StoreSpec.Create(old(View()), d)
              case Failed(e) => r == Some(e) && View() == old(View())
              case Done(st, _) => r == None && View() == st
      ensures r == if d in old(domains) then Some(Exist) else None
    {
      if d in domains {
        return Some(Exist);
      }
      EntriesWrite(domains, d, Item(map[], d, [], ZERO_TIME));
      domains := domains[d := Item(map[], d, [], ZERO_TIME)];
      var _ := Validate();
      return None;
    }

    /** The loop over the addresses of an item that goes away. */
    method Release(ext: map<Addr, Time>) returns (remove: seq<Addr>)
      modifies this`list
      ensures list == Released(old(list), ext.Keys)
      ensures multiset(remove) == multiset(LastHeld(old(list), ext.Keys))
    {
      hide Released, LastHeld;
      remove := [];
      var rest := ext.Keys;
      ghost var seen: set<Addr> := {};
      NothingReleased(list);
      while rest != {}
        invariant seen + rest == ext.Keys && seen !! rest
        invariant list == Released(old(list), seen)
        invariant multiset(remove) == multiset(LastHeld(old(list), seen))
      {
        var address :| address in rest;
        rest := rest - {address};
        ReleaseOne(old(list), seen, address, list);
        seen := seen + {address};
        if address in list && list[address] <= 1 {
          remove := remove + [address];
          list := list - {address};
          continue;
        }
        list := list[address := Count(list, address) - 1];
      }
      assert seen == ext.Keys;
    }

    /** The callback that lets go of an item. */
    method Remove(d: Domain) returns (remove: seq<Addr>)
      requires Valid() && d in domains
      modifies this`list, this`domains
      ensures Valid() && domains.Keys == old(domains).Keys - {d}
      ensures View() == Without(old(View()), d)
      ensures multiset(remove) == multiset(LastHeld(old(list), Ext(old(View()).domains, d).Keys))
    {
      hide Released, LastHeld;
      remove := Release(domains[d].ext);
      EntriesRemove(domains, d);
      domains := domains - {d};
    }

    method Delete(d: Domain) returns (r: Option<Error>)
      requires Valid()
      modifies this`list, this`domains, manager`output
      ensures Valid()
      ensures match StoreSpec.Delete(old(View()), d)
              case Failed(e) => r == Some(e) && View() == old(View()) && manager.output == old(manager.output)
              case Done(st, sent) =>
                && r == None && View() == st
                && manager.output == old(manager.output) + if manager.closed then [] else sent
      ensures r == if d in old(domains) then None else Some(NotFound)
    {
      assert Entries(domains).Keys == domains.Keys;
      hide Without, LastHeld, Emitted, Entries, WellFormed, Ext;
      if d !in domains {
        return Some(NotFound);
      }
      var remove := Remove(d);
      Send(CauseAPIDelete, [], remove);
      var _ := Validate();
      return None;
    }

    method Update(oldDomain: Domain, newDomain: Domain) returns (r: Option<Error>)
      requires Valid()
      modifies this`list, this`domains, manager`output
      ensures Valid()
      ensures match StoreSpec.Update(old(View()), oldDomain, newDomain)
              case Failed(e) => r == Some(e) && View() == old(View()) && manager.output == old(manager.output)
              case Done(st, sent) =>
                && r == None && View() == st
                && manager.output == old(manager.output) + if manager.closed then [] else sent
      ensures r == if newDomain in old(domains) then Some(Exist)
                   else if oldDomain in old(domains) then None else Some(NotFound)
    {
      assert Entries(domains).Keys == domains.Keys;
      if newDomain in domains {
        return Some(Exist);
      }
      if oldDomain !in domains {
        return Some(NotFound);
      }
      hide Without, LastHeld, Emitted, Entries, Ext;
      var remove := Remove(oldDomain);
      // The second look finds nobody: the first one did not, and the lock is held.
      if newDomain in domains {
        assert false;
      }
      EntriesWrite(domains, newDomain, Item(map[], newDomain, [], ZERO_TIME));
      domains := domains[newDomain := Item(map[], newDomain, [], ZERO_TIME)];
      Send(CauseAPIUpdate, [], remove);
      var _ := Validate();
      return None;
    }

    // ---------- reading ----------

    /** getIPList: the addresses with a positive counter, each once. */
    method GetIPList() returns (result: seq<Addr>)
      ensures NoDuplicates(result)
      ensures Elements(result) == Positive(list)
    {
      result := [];
      var rest := list.Keys;
      ghost var seen: set<Addr> := {};
      while rest != {}
        invariant seen + rest == list.Keys && seen !! rest && NoDuplicates(result)
        invariant Elements(result) == set a | a in seen && list[a] > 0
      {
        var address :| address in rest;
        rest := rest - {address};
        assert address !in Elements(result);
        seen := seen + {address};
        if list[address] <= 0 {
          continue;
        }
        AppendDistinct(result, [address]);
        result := result + [address];
      }
      assert seen == list.Keys;
    }

    /** getDomains: all names, or those whose expiry is not in the future. */
    method GetDomains(expired: bool, now: Domain -> Time) returns (out: seq<Domain>)
      requires Valid()
      ensures NoDuplicates(out)
      ensures Elements(out) == set d | d in domains && (expired ==> domains[d].expire <= now(d))
    {
      out := [];
      var rest := domains.Keys;
      ghost var seen: set<Domain> := {};
      while rest != {}
        invariant seen + rest == domains.Keys && seen !! rest && NoDuplicates(out)
        invariant Elements(out) == set d | d in seen && (expired ==> domains[d].expire <= now(d))
      {
        var d :| d in rest;
        rest := rest - {d};
        assert d !in Elements(out);
        seen := seen + {d};
        var item := domains[d];
        if expired && item.expire - now(d) > 0 {
          continue;
        }
        AppendDistinct(out, [d]);
        out := out + [item.domain];
      }
      assert seen == domains.Keys;
    }

    /** validate: no error exactly when the addresses with positive counters are
        the addresses of all items. */
    method Validate() returns (ok: bool)
      ensures ok <==> Consistent(View())
    {
      var ips := GetIPList();
      var listed: set<Addr>, lost: set<Addr>, find: set<Addr> := {}, {}, {};
      for i := 0 to |ips|
        invariant listed == lost == Elements(ips[..i])
      {
        assert ips[..i + 1] == ips[..i] + [ips[i]];
        listed, lost := listed + {ips[i]}, lost + {ips[i]};
      }
      assert ips[..|ips|] == ips;
      var rest := domains.Keys;
      ghost var met: set<Addr> := {};
      while rest != {}
        invariant rest <= domains.Keys
        invariant forall a :: a in met <==> exists d :: d in domains && d !in rest && a in domains[d].ext
        invariant lost == listed - met && find == met - listed
      {
        var d :| d in rest;
        rest := rest - {d};
        var item := domains[d];
        var addresses := item.ext.Keys;
        ghost var before := met;
        while addresses != {}
          invariant addresses <= item.ext.Keys && met == before + (item.ext.Keys - addresses)
          invariant lost == listed - met && find == met - listed
        {
          var address :| address in addresses;
          addresses := addresses - {address};
          met := met + {address};
          if address in listed {
            lost := lost - {address};
          } else {
            find := find + {address};
          }
        }
      }
      HeldByItems(domains, met);
      return lost == {} && find == {};
    }
  }

  lemma HeldByItems(domains: map<Domain, Item>, met: set<Addr>)
    requires forall a :: a in met <==> exists d :: d in domains && a in domains[d].ext
    ensures met == Live(Entries(domains))
  {
    forall a: Addr
      ensures a in Live(Entries(domains)) <==> exists d :: d in domains && a in domains[d].ext
    {
      if d :| d in domains && a in domains[d].ext {
        assert d in Entries(domains) && a in Entries(domains)[d].ext;
      }
    }
  }
}
