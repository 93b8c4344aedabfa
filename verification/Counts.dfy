/** Reference counts: the counter of an address is the number of domains that
    hold it, in every reachable state of the store. */
module Counts {
  import opened Types
  import opened StoreSpec

  ghost function Holders(domains: map<Domain, Entry>, a: Addr): set<Domain> {
    set d | d in domains && a in domains[d].ext
  }

  /** The addresses of all domains. */
  ghost function Live(domains: map<Domain, Entry>): set<Addr> {
    set d, a | d in domains && a in domains[d].ext :: a
  }

  /** The counter of one address is exact: it is the number of holders, and
      there is a counter only if there is a holder. */
  ghost predicate CountedAt(st: State, a: Addr) {
    && Count(st.list, a) == |Holders(st.domains, a)|
    && (a in st.list <==> Holders(st.domains, a) != {})
  }

  ghost predicate Counted(st: State) {
    forall a: Addr :: CountedAt(st, a)
  }

  lemma AnnouncedIsLive(st: State)
    requires Counted(st)
    ensures st.list.Keys == Live(st.domains)
  {
    forall a: Addr
      ensures a in st.list <==> a in Live(st.domains)
    {
      assert CountedAt(st, a);
      assert forall d :: d in Holders(st.domains, a) <==> d in st.domains && a in st.domains[d].ext;
    }
  }

  lemma InitialIsCounted(names: seq<Domain>)
    ensures Counted(Initial(names))
  {
    forall a: Addr
      ensures CountedAt(Initial(names), a)
    {
      assert Holders(Initial(names).domains, a) == {};
    }
  }

  ghost function Positive(list: map<Addr, int>): set<Addr> {
    set a | a in list && list[a] > 0
  }

  /** What validate looks for. */
  ghost predicate Consistent(st: State) {
    Positive(st.list) == Live(st.domains)
  }

  lemma CountedIsConsistent(st: State)
    requires Counted(st)
    ensures Consistent(st) && Positive(st.list) == st.list.Keys
  {
    AnnouncedIsLive(st);
    forall a | a in st.list
      ensures st.list[a] > 0
    {
      assert CountedAt(st, a);
      assert |Holders(st.domains, a)| != 0;
    }
  }

  /** Exact counters are determined by what the domains hold. */
  lemma CountsDetermined(s: State, t: State)
    requires Counted(s) && Counted(t) && s.domains == t.domains
    ensures s == t
  {
    forall a: Addr
      ensures (a in s.list <==> a in t.list) && Count(s.list, a) == Count(t.list, a)
    {
      assert CountedAt(s, a) && CountedAt(t, a);
    }
    forall a | a in s.list
      ensures s.list[a] == t.list[a]
    {
      assert Count(s.list, a) == Count(t.list, a);
    }
  }

  // ---------- how a change to one domain moves the holders ----------

  lemma HoldersAfterWrite(domains: map<Domain, Entry>, d: Domain, e: Entry, a: Addr)
    ensures |Holders(domains[d := e], a)| == |Holders(domains, a)| + One(a in e.ext) - One(a in Ext(domains, d))
  {
    var rest := Holders(domains, a) - {d};
    assert Holders(domains, a) == if a in Ext(domains, d) then rest + {d} else rest;
    assert Holders(domains[d := e], a) == if a in e.ext then rest + {d} else rest;
  }

  lemma HoldersAfterRemoval(domains: map<Domain, Entry>, d: Domain, a: Addr)
    ensures |Holders(domains - {d}, a)| == |Holders(domains, a)| - One(a in Ext(domains, d))
  {
    var rest := Holders(domains, a) - {d};
    assert Holders(domains, a) == if a in Ext(domains, d) then rest + {d} else rest;
    assert Holders(domains - {d}, a) == rest;
  }

  // ---------- every operation keeps the counts exact ----------

  lemma WriteKeepsCountAt(st: State, d: Domain, e: Entry, a: Addr)
    requires CountedAt(st, a)
    ensures CountedAt(Write(st, d, e), a)
    ensures a in Write(st, d, e).list <==> a in st.list.Keys - Lost(st, d, e) + Gained(st, d, e)
    ensures a in Lost(st, d, e) ==> Holders(st.domains, a) == {d}
  {
    var q := Write(st, d, e);
    HoldersAfterWrite(st.domains, d, e, a);
    if a in Ext(st.domains, d) {
      assert d in Holders(st.domains, a);
      if a in Lost(st, d, e) {
        OnlyHolder(Holders(st.domains, a), d);
      }
    }
    assert a in e.ext ==> d in Holders(q.domains, a);
    assert |Holders(q.domains, a)| > 0 ==> Holders(q.domains, a) != {};
  }

  lemma OnlyHolder(s: set<Domain>, d: Domain)
    requires d in s && |s| <= 1
    ensures s == {d}
  {
    assert |s - {d}| == 0;
  }

  /** Storing a new ext for one domain keeps the counts exact, and what is added
      to the message is exactly the change of the announced set. */
  lemma WriteKeepsCounts(st: State, d: Domain, e: Entry)
    requires Counted(st)
    ensures Counted(Write(st, d, e))
    ensures Write(st, d, e).list.Keys == st.list.Keys - Lost(st, d, e) + Gained(st, d, e)
    ensures forall a :: a in Lost(st, d, e) ==> a in st.list && Holders(st.domains, a) == {d}
  {
    forall a: Addr
      ensures CountedAt(Write(st, d, e), a)
      ensures a in Write(st, d, e).list <==> a in st.list.Keys - Lost(st, d, e) + Gained(st, d, e)
      ensures a in Lost(st, d, e) ==> a in st.list && Holders(st.domains, a) == {d}
    {
      assert CountedAt(st, a);
      WriteKeepsCountAt(st, d, e, a);
    }
  }

  /** Publish keeps the counts exact after every record, for any batch and any
      clock readings. */
  lemma {:induction false} BatchKeepsCounts(st: State, batch: seq<PublishItem>, n: nat, clock: Clock)
    requires Counted(st) && n <= |batch|
    ensures Counted(PublishTo(st, batch, n, clock).st)
  {
    hide Write, Stored;
    if n == 0 {
    } else {
      BatchKeepsCounts(st, batch, n - 1, clock);
      var p := PublishTo(st, batch, n - 1, clock);
      WriteKeepsCounts(p.st, batch[n - 1].domain, Stored(p.st, batch[n - 1], n - 1, clock));
    }
  }

  /** Letting go of a domain: the counts stay exact, the fall-through that
      decrements a missing counter is not taken, and what is withdrawn is
      exactly what no other domain holds. */
  lemma WithoutKeepsCounts(st: State, d: Domain)
    requires Counted(st) && d in st.domains
    ensures Counted(Without(st, d))
    ensures st.domains[d].ext.Keys <= st.list.Keys
    ensures LastHeld(st.list, st.domains[d].ext.Keys) == st.domains[d].ext.Keys - Live(st.domains - {d})
    ensures Without(st, d).list.Keys == st.list.Keys - LastHeld(st.list, st.domains[d].ext.Keys)
  {
    forall a: Addr
      ensures CountedAt(Without(st, d), a)
      ensures a in st.domains[d].ext ==> a in st.list && (st.list[a] <= 1 <==> a !in Live(st.domains - {d}))
    {
      assert CountedAt(st, a);
      WithoutKeepsCountAt(st, d, a);
    }
  }

  lemma WithoutKeepsCountAt(st: State, d: Domain, a: Addr)
    requires CountedAt(st, a) && d in st.domains
    ensures CountedAt(Without(st, d), a)
    ensures a in st.domains[d].ext ==> a in st.list && (st.list[a] <= 1 <==> a !in Live(st.domains - {d}))
  {
    var q := Without(st, d);
    HoldersAfterRemoval(st.domains, d, a);
    if a in st.domains[d].ext {
      assert d in Holders(st.domains, a);
    }
    var rest := Holders(q.domains, a);
    if rest != {} {
      var e :| e in rest;
      assert |rest - {e}| + 1 == |rest|;
      assert e in q.domains && a in q.domains[e].ext;
    }
  }

  lemma NewDomainKeepsCounts(st: State, d: Domain, t: Time)
    requires Counted(st) && d !in st.domains
    ensures Counted(st.(domains := st.domains[d := Entry(map[], t)]))
  {
    var q := st.(domains := st.domains[d := Entry(map[], t)]);
    forall a: Addr
      ensures CountedAt(q, a)
    {
      assert CountedAt(st, a);
      assert Holders(q.domains, a) == Holders(st.domains, a);
    }
  }
}
