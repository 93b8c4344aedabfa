/** Double counting: the counters add up to the number of addresses held. */
module Conservation {
  import opened Types
  import opened StoreSpec
  import opened Counts
  import opened Runs

  ghost function Total(list: map<Addr, int>): int
    decreases |list|
  {
    if list == map[] then 0 else
      var a :| a in list;
      list[a] + Total(list - {a})
  }

  ghost function HeldTotal(domains: map<Domain, Entry>): nat
    decreases |domains|
  {
    if domains == map[] then 0 else
      var d :| d in domains;
      |domains[d].ext| + HeldTotal(domains - {d})
  }

  /** Who holds what. */
  ghost function Holdings(domains: map<Domain, Entry>): set<(Domain, Addr)> {
    set d, a | d in domains && a in domains[d].ext :: (d, a)
  }

  ghost function Of(h: set<(Domain, Addr)>, a: Addr): set<(Domain, Addr)> {
    set x | x in h && x.1 == a
  }

  ghost function Row(d: Domain, s: set<Addr>): set<(Domain, Addr)> {
    set a | a in s :: (d, a)
  }

  ghost function Column(a: Addr, s: set<Domain>): set<(Domain, Addr)> {
    set d | d in s :: (d, a)
  }

  lemma {:induction false} RowSize(d: Domain, s: set<Addr>)
    ensures |Row(d, s)| == |s|
  {
    if s == {} {
      assert Row(d, s) == {};
    } else {
      var x :| x in s;
      RowSize(d, s - {x});
      assert (d, x) !in Row(d, s - {x});
      assert Row(d, s) == Row(d, s - {x}) + {(d, x)};
    }
  }

  lemma {:induction false} ColumnSize(a: Addr, s: set<Domain>)
    ensures |Column(a, s)| == |s|
  {
    if s == {} {
      assert Column(a, s) == {};
    } else {
      var x :| x in s;
      ColumnSize(a, s - {x});
      assert (x, a) !in Column(a, s - {x});
      assert Column(a, s) == Column(a, s - {x}) + {(x, a)};
    }
  }

  lemma HoldingsSplit(domains: map<Domain, Entry>, d: Domain)
    requires d in domains
    ensures |Holdings(domains)| == |domains[d].ext| + |Holdings(domains - {d})|
  {
    RowSize(d, domains[d].ext.Keys);
    var mine, rest := Row(d, domains[d].ext.Keys), Holdings(domains - {d});
    forall x: (Domain, Addr)
      ensures x in Holdings(domains) <==> x in mine || x in rest
      ensures !(x in mine && x in rest)
    {
    }
    assert Holdings(domains) == mine + rest;
    assert mine !! rest;
  }

  lemma {:induction false} HeldIsHoldings(domains: map<Domain, Entry>)
    ensures HeldTotal(domains) == |Holdings(domains)|
    decreases |domains|
  {
    if domains == map[] {
      assert Holdings(domains) == {};
    } else {
      var d :| d in domains && HeldTotal(domains) == |domains[d].ext| + HeldTotal(domains - {d});
      hide Holdings, HeldTotal;
      HoldingsSplit(domains, d);
      HeldIsHoldings(domains - {d});
    }
  }

  lemma RemoveColumn(list: map<Addr, int>, h: set<(Domain, Addr)>, a: Addr)
    requires forall b: Addr :: Count(list, b) == |Of(h, b)|
    ensures forall b: Addr :: Count(list - {a}, b) == |Of(h - Of(h, a), b)|
    ensures |h| == |h - Of(h, a)| + Count(list, a)
  {
    var rest := h - Of(h, a);
    forall b: Addr
      ensures Count(list - {a}, b) == |Of(rest, b)|
    {
      assert Of(rest, b) == if b == a then {} else Of(h, b);
      assert Count(list, b) == |Of(h, b)|;
    }
    assert h == rest + Of(h, a) && Count(list, a) == |Of(h, a)|;
  }

  lemma NoColumns(h: set<(Domain, Addr)>)
    requires forall b: Addr :: |Of(h, b)| == 0
    ensures h == {}
  {
    forall x | x in h
      ensures Of(h, x.1) != {}
    {
      assert x in Of(h, x.1);
    }
    assert forall b: Addr :: Of(h, b) == {};
  }

  lemma {:induction false} CountersAreHoldings(list: map<Addr, int>, h: set<(Domain, Addr)>)
    requires forall a: Addr :: Count(list, a) == |Of(h, a)|
    ensures Total(list) == |h|
    decreases |list|
  {
    if list == map[] {
      assert forall b: Addr :: Count(list, b) == 0;
      NoColumns(h);
    } else {
      var a :| a in list && Total(list) == list[a] + Total(list - {a});
      hide Total, Of;
      RemoveColumn(list, h, a);
      CountersAreHoldings(list - {a}, h - Of(h, a));
    }
  }

  lemma CountsConserved(st: State)
    requires Counted(st)
    ensures Total(st.list) == HeldTotal(st.domains)
  {
    var h := Holdings(st.domains);
    forall a: Addr
      ensures Count(st.list, a) == |Of(h, a)|
    {
      assert CountedAt(st, a);
      ColumnSize(a, Holders(st.domains, a));
      assert Of(h, a) == Column(a, Holders(st.domains, a));
    }
    CountersAreHoldings(st.list, h);
    HeldIsHoldings(st.domains);
  }

  /** In every reachable state the counters add up to the sizes of the maps. */
  lemma RunConserves(names: seq<Domain>, ops: seq<Op>, n: nat)
    requires n <= |ops|
    ensures Total(RunTo(names, ops, n).list) == HeldTotal(RunTo(names, ops, n).domains)
  {
    RunKeepsCounts(names, ops, n);
    CountsConserved(RunTo(names, ops, n));
  }
}
