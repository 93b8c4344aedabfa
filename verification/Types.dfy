/** Values shared by the whole model: addresses, instants, update messages, and
    the sorting of address lists that every store operation does before it
    broadcasts. */
module Types {

  /** An IPv4 address as its 32-bit value. The order on these numbers stands for
      the order on the dotted text that slices.Sort uses. */
  type Addr = n: int | 0 <= n < 0x1_0000_0000

  type Domain = string
  type PeerId = string

  /** Nanoseconds since the zero value of Go's time.Time. */
  type Time = int

  const ZERO_TIME: Time := 0
  const SECOND: Time := 1_000_000_000
  const HOUR: Time := 3600 * SECOND

  datatype Option<+T> = None | Some(value: T)

  datatype Cause = CauseRemoval | CauseAPIDelete | CauseAPIUpdate | CauseDNSPublish

  datatype Message = Message(cause: Cause, toUpdate: seq<Addr>, toRemove: seq<Addr>)

  ghost function Elements<T>(s: seq<T>): (r: set<T>) {
    set x | x in s
  }

  ghost predicate NoDuplicates<T>(s: seq<T>) {
    forall i, j :: 0 <= i < j < |s| ==> s[i] != s[j]
  }

  lemma AppendDistinct<T>(s: seq<T>, t: seq<T>)
    requires NoDuplicates(s) && NoDuplicates(t) && Elements(s) !! Elements(t)
    ensures NoDuplicates(s + t) && Elements(s + t) == Elements(s) + Elements(t)
  {
    forall i, j | 0 <= i < j < |s + t|
      ensures (s + t)[i] != (s + t)[j]
    {
      assert i < |s| ==> s[i] in Elements(s);
      assert j >= |s| ==> t[j - |s|] in Elements(t);
    }
  }

  /** The remove-then-add reading of a message. */
  ghost function Patched(table: set<Addr>, msg: Message): set<Addr> {
    table - Elements(msg.toRemove) + Elements(msg.toUpdate)
  }

  /** The table after a series of messages. */
  ghost function Folded(table: set<Addr>, msgs: seq<Message>): set<Addr>
    decreases |msgs|
  {
    if msgs == [] then table else Folded(Patched(table, msgs[0]), msgs[1..])
  }

  lemma {:induction false} FoldedAppend(table: set<Addr>, msgs: seq<Message>, more: seq<Message>)
    ensures Folded(table, msgs + more) == Folded(Folded(table, msgs), more)
    decreases |msgs|
  {
    if msgs == [] {
      assert msgs + more == more;
    } else {
      assert (msgs + more)[1..] == msgs[1..] + more;
      FoldedAppend(Patched(table, msgs[0]), msgs[1..], more);
    }
  }

  /** Every address a message speaks of. */
  ghost function Touched(msg: Message): set<Addr> {
    Elements(msg.toUpdate) + Elements(msg.toRemove)
  }

  // ---------- sorting ----------

  ghost predicate Sorted(s: seq<Addr>) {
    forall i, j :: 0 <= i < j < |s| ==> s[i] <= s[j]
  }

  ghost predicate StrictlyIncreasing(s: seq<Addr>) {
    forall i, j :: 0 <= i < j < |s| ==> s[i] < s[j]
  }

  function Insert(x: Addr, s: seq<Addr>): (r: seq<Addr>)
    ensures multiset(r) == multiset(s) + multiset{x}
  {
    if s == [] || x <= s[0] then [x] + s
    else
      assert s == [s[0]] + s[1..];
      [s[0]] + Insert(x, s[1..])
  }

  lemma {:induction false} InsertSorted(x: Addr, s: seq<Addr>)
    requires Sorted(s)
    ensures Sorted(Insert(x, s))
  {
    if s == [] || x <= s[0] {
    } else {
      InsertSorted(x, s[1..]);
      var t := Insert(x, s[1..]);
      forall k | 0 <= k < |t|
        ensures s[0] <= t[k]
      {
        assert t[k] in multiset(t);
        assert t[k] == x || t[k] in s[1..];
      }
    }
  }

  /** Stands for slices.Sort. */
  function Sort(s: seq<Addr>): (r: seq<Addr>)
    ensures Sorted(r) && multiset(r) == multiset(s)
  {
    if s == [] then []
    else
      assert s == [s[0]] + s[1..];
      InsertSorted(s[0], Sort(s[1..]));
      Insert(s[0], Sort(s[1..]))
  }

  /** A sorted list is determined by what it holds, so sorting hides the order
      in which a map was iterated. */
  lemma {:induction false} SortedUnique(s: seq<Addr>, t: seq<Addr>)
    requires Sorted(s) && Sorted(t) && multiset(s) == multiset(t)
    ensures s == t
  {
    assert |s| == |multiset(s)| == |multiset(t)| == |t|;
    if s == [] {
    } else {
      FirstIsLeast(s, t);
      FirstIsLeast(t, s);
      RestOf(s);
      RestOf(t);
      SortedUnique(s[1..], t[1..]);
    }
  }

  lemma RestOf(s: seq<Addr>)
    requires s != []
    ensures s == [s[0]] + s[1..] && multiset(s[1..]) == multiset(s) - multiset{s[0]}
  {
    assert s == [s[0]] + s[1..];
  }

  lemma FirstIsLeast(s: seq<Addr>, t: seq<Addr>)
    requires Sorted(s) && s != [] && t != [] && multiset(s) == multiset(t)
    ensures s[0] <= t[0]
  {
    assert t[0] in multiset(t);
    var i :| 0 <= i < |s| && s[i] == t[0];
  }

  /** A sorted list without repetitions is strictly increasing. */
  lemma SortedDistinctIsStrict(s: seq<Addr>)
    requires Sorted(s) && forall x :: multiset(s)[x] <= 1
    ensures StrictlyIncreasing(s) && NoDuplicates(s)
  {
    forall i, j | 0 <= i < j < |s|
      ensures s[i] != s[j]
    {
      assert s == s[..j] + s[j..];
      assert s[..j][i] in multiset(s[..j]) && s[j..][0] in multiset(s[j..]);
      assert multiset(s)[s[j]] == multiset(s[..j])[s[j]] + multiset(s[j..])[s[j]];
    }
  }
}
