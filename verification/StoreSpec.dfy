/** What the storage operations compute, on values: the domain map, the counter
    of every announced address, and the message each operation broadcasts. */
module StoreSpec {
  import opened Types

  /** The part of a stored item that decides anything: ext and Expire. */
  datatype Entry = Entry(ext: map<Addr, Time>, expire: Time)

  datatype State = State(domains: map<Domain, Entry>, list: map<Addr, int>)

  datatype PublishItem = PublishItem(domain: Domain, expire: Time, record: map<Addr, Time>)

  datatype Error = Exist | NotFound

  datatype Result = Done(st: State, sent: seq<Message>) | Failed(error: Error)

  /** One call of time.Until while a batch is published: the record being
      processed, which of its two loops, and the address looked at. Each check
      happens at most once in a batch, so a function from checks to instants
      covers every possible series of readings. */
  datatype Loop = Merging | Expiring
  datatype Check = Check(record: nat, loop: Loop, address: Addr)
  type Clock = Check -> Time

  function Frozen(now: Time): Clock {
    c => now
  }

  // ---------- counters ----------

  /** Reading a missing key of a Go map gives zero. */
  function Count(list: map<Addr, int>, a: Addr): int {
    if a in list then list[a] else 0
  }

  ghost function One(b: bool): nat {
    if b then 1 else 0
  }

  /** The counters after Publish has counted one more holder for every address
      of `more` and one less for every address of `gone`. */
  ghost function Adjusted(list: map<Addr, int>, more: set<Addr>, gone: set<Addr>): map<Addr, int> {
    map a | a in list.Keys + more - Dropped(list, gone)
      :: Count(list, a) + One(a in more) - One(a in gone)
  }

  ghost function Dropped(list: map<Addr, int>, gone: set<Addr>): set<Addr> {
    set a | a in gone && Count(list, a) <= 1
  }

  /** The counters after Delete or Update has let go of `gone`. Unlike Publish,
      these two decrement a counter that is missing. */
  ghost function Released(list: map<Addr, int>, gone: set<Addr>): map<Addr, int> {
    map a | a in list.Keys + gone - LastHeld(list, gone) :: Count(list, a) - One(a in gone)
  }

  ghost function LastHeld(list: map<Addr, int>, gone: set<Addr>): set<Addr> {
    set a | a in gone && a in list && list[a] <= 1
  }

  // ---------- one published record ----------

  function Ext(domains: map<Domain, Entry>, d: Domain): map<Addr, Time> {
    if d in domains then domains[d].ext else map[]
  }

  /** The address comes with an expiry that has not passed when it is merged. */
  ghost predicate Fresh(rec: PublishItem, n: nat, clock: Clock, a: Addr) {
    a in rec.record && rec.record[a] > clock(Check(n, Merging, a))
  }

  /** The address was held already and has not expired when it is looked at. */
  ghost predicate Kept(prior: map<Addr, Time>, n: nat, clock: Clock, a: Addr) {
    a in prior && prior[a] > clock(Check(n, Expiring, a))
  }

  ghost function NewExt(prior: map<Addr, Time>, rec: PublishItem, n: nat, clock: Clock): map<Addr, Time> {
    map a | a in rec.record.Keys + prior.Keys && (Fresh(rec, n, clock, a) || Kept(prior, n, clock, a))
      :: if Fresh(rec, n, clock, a) then rec.record[a] else prior[a]
  }

  /** The store and the message under construction in the middle of a batch. */
  datatype Progress = Progress(st: State, toUpdate: multiset<Addr>, toRemove: multiset<Addr>)

  ghost function Gained(st: State, d: Domain, e: Entry): set<Addr> {
    set a | a in e.ext && a !in Ext(st.domains, d) && a !in st.list
  }

  ghost function Lost(st: State, d: Domain, e: Entry): set<Addr> {
    Dropped(st.list, Ext(st.domains, d).Keys - e.ext.Keys)
  }

  ghost function Write(st: State, d: Domain, e: Entry): State {
    var prior := Ext(st.domains, d).Keys;
    State(st.domains[d := e], Adjusted(st.list, e.ext.Keys - prior, prior - e.ext.Keys))
  }

  ghost function Stored(st: State, rec: PublishItem, n: nat, clock: Clock): Entry {
    Entry(NewExt(Ext(st.domains, rec.domain), rec, n, clock), rec.expire)
  }

  ghost function PublishRecord(p: Progress, rec: PublishItem, n: nat, clock: Clock): Progress {
    var e := Stored(p.st, rec, n, clock);
    Progress(Write(p.st, rec.domain, e),
             p.toUpdate + multiset(Gained(p.st, rec.domain, e)),
             p.toRemove + multiset(Lost(p.st, rec.domain, e)))
  }

  /** The first n records of the batch. */
  ghost function PublishTo(st: State, batch: seq<PublishItem>, n: nat, clock: Clock): Progress
    requires n <= |batch|
  {
    if n == 0 then Progress(st, multiset{}, multiset{})
    else PublishRecord(PublishTo(st, batch, n - 1, clock), batch[n - 1], n - 1, clock)
  }

  // ---------- the operations ----------

  ghost function Initial(domains: seq<Domain>): State {
    State(map d | d in domains :: Entry(map[], ZERO_TIME), map[])
  }

  /** New starts with the names it is given and with nothing else. */
  lemma InitialIsEmpty(names: seq<Domain>)
    ensures Initial(names).domains.Keys == Elements(names) && Initial(names).list == map[]
    ensures forall d :: d in names ==> Initial(names).domains[d] == Entry(map[], 0)
  {
  }

  ghost function Listing(m: multiset<Addr>): (s: seq<Addr>)
    ensures Sorted(s) && multiset(s) == m
    decreases |m|
  {
    if m == multiset{} then [] else
      var x :| x in m;
      InsertSorted(x, Listing(m - multiset{x}));
      Insert(x, Listing(m - multiset{x}))
  }

  /** What is broadcast: nothing when there is nothing to say. */
  ghost function Emitted(cause: Cause, toUpdate: multiset<Addr>, toRemove: multiset<Addr>): seq<Message> {
    if toUpdate == multiset{} && toRemove == multiset{} then []
    else [Message(cause, Listing(toUpdate), Listing(toRemove))]
  }

  ghost function Publish(st: State, batch: seq<PublishItem>, clock: Clock): Result {
    var p := PublishTo(st, batch, |batch|, clock);
    Done(p.st, Emitted(CauseDNSPublish, p.toUpdate, p.toRemove))
  }

  ghost function Create(st: State, d: Domain): Result {
    if d in st.domains then Failed(Exist)
    else Done(st.(domains := st.domains[d := Entry(map[], ZERO_TIME)]), [])
  }

  ghost function Without(st: State, d: Domain): State {
    State(st.domains - {d}, Released(st.list, Ext(st.domains, d).Keys))
  }

  ghost function Delete(st: State, d: Domain): Result {
    if d !in st.domains then Failed(NotFound)
    else Done(Without(st, d),
              Emitted(CauseAPIDelete, multiset{}, multiset(LastHeld(st.list, Ext(st.domains, d).Keys))))
  }

  ghost function Update(st: State, oldDomain: Domain, newDomain: Domain): Result {
    if newDomain in st.domains then Failed(Exist)
    else if oldDomain !in st.domains then Failed(NotFound)
    else
      var rest := Without(st, oldDomain);
      Done(rest.(domains := rest.domains[newDomain := Entry(map[], ZERO_TIME)]),
           Emitted(CauseAPIUpdate, multiset{}, multiset(LastHeld(st.list, Ext(st.domains, oldDomain).Keys))))
  }
}
