/** A decoder of UPDATE bodies, written from section 4.3 of RFC 4271, and the
    exact condition under which it gives back what was encoded. */
module Wire {
  import opened Types
  import opened Packet

  /** A route prefix on the wire: its length and the least number of octets. */
  datatype Prefix = Prefix(length: nat, octets: seq<Octet>)

  datatype PathAttribute = PathAttribute(flags: Octet, kind: Octet, value: seq<Octet>)

  datatype Segment = Segment(kind: Octet, asns: seq<Word>)

  datatype Update = Update(withdrawn: seq<Prefix>, attrs: seq<PathAttribute>, nlri: seq<Prefix>)

  function Number16(hi: Octet, lo: Octet): Word {
    hi * 0x100 + lo
  }

  function Number32(bs: seq<Octet>): int
    requires |bs| == 4
  {
    0x1_0000 * (Number16(bs[0], bs[1]) as int) + Number16(bs[2], bs[3])
  }

  lemma NumberOf32(n: Quad)
    ensures Number32(BigEndian32(n)) == n
  {
    var hi: int, lo: int := n / 0x1_0000, n % 0x1_0000;
    assert n / 0x100_0000 == hi / 0x100;
    assert n / 0x100 % 0x100 == lo / 0x100;
    assert n % 0x100 == lo % 0x100;
  }

  function DecodePrefixes(bs: seq<Octet>): Option<seq<Prefix>> {
    if bs == [] then Some([]) else
      var n := (bs[0] as int + 7) / 8;
      if bs[0] > 32 || 1 + n > |bs| then None else
        match DecodePrefixes(bs[1 + n..])
        case None => None
        case Some(rest) => Some([Prefix(bs[0], bs[1..1 + n])] + rest)
  }

  /** The fourth high-order bit of the flags says that the length takes two
      octets. */
  function HeaderSize(flags: Octet): nat {
    if flags / 0x10 % 2 == 1 then 4 else 3
  }

  function LengthField(bs: seq<Octet>, h: nat): nat
    requires 3 <= h <= |bs| && h <= 4
  {
    if h == 4 then Number16(bs[2], bs[3]) else bs[2]
  }

  /** The first path attribute. */
  function FirstAttribute(bs: seq<Octet>): (r: Option<PathAttribute>)
    requires bs != []
    ensures r.Some? ==> HeaderSize(bs[0]) + |r.value.value| <= |bs|
  {
    var h := HeaderSize(bs[0]);
    if |bs| < h then None else
      var n := LengthField(bs, h);
      if |bs| < h + n then None else Some(PathAttribute(bs[0], bs[1], bs[h..h + n]))
  }

  /** With the Extended Length bit set, 0x10 of the flags, the length takes two
      octets; without it one. */
  lemma LengthOctets(kind: Octet, value: seq<Octet>)
    ensures |value| < 0x1_0000 ==>
              FirstAttribute([0x50, kind, |value| / 256, |value| % 256] + value) == Some(PathAttribute(0x50, kind, value))
    ensures |value| < 256 ==>
              FirstAttribute([0x40, kind, |value|] + value) == Some(PathAttribute(0x40, kind, value))
  {
    if |value| < 0x1_0000 {
      var bs := [0x50, kind, |value| / 256, |value| % 256] + value;
      assert bs[4..4 + |value|] == value;
      assert HeaderSize(0x50) == 4 && LengthField(bs, 4) == |value|;
    }
    if |value| < 256 {
      var bs := [0x40, kind, |value|] + value;
      assert bs[3..3 + |value|] == value && HeaderSize(0x40) == 3;
    }
  }

  function DecodeAttributes(bs: seq<Octet>): Option<seq<PathAttribute>> {
    if bs == [] then Some([]) else
      match FirstAttribute(bs)
      case None => None
      case Some(w) =>
        match DecodeAttributes(bs[HeaderSize(bs[0]) + |w.value|..])
        case None => None
        case Some(rest) => Some([w] + rest)
  }

  function Decode(bs: seq<Octet>): Option<Update> {
    if |bs| < 2 then None else
      var w := Number16(bs[0], bs[1]);
      if |bs| < 2 + w + 2 then None else
        var a := Number16(bs[2 + w], bs[3 + w]);
        if |bs| < 4 + w + a then None else
          match (DecodePrefixes(bs[2..2 + w]), DecodeAttributes(bs[4 + w..4 + w + a]), DecodePrefixes(bs[4 + w + a..]))
          case (Some(withdrawn), Some(attrs), Some(nlri)) => Some(Update(withdrawn, attrs, nlri))
          case _ => None
  }

  function DecodeWords(bs: seq<Octet>): seq<Word>
    requires |bs| % 2 == 0
  {
    if bs == [] then [] else [Number16(bs[0], bs[1])] + DecodeWords(bs[2..])
  }

  /** The value of an AS_PATH: segments of a kind, a count and that many
      two-octet numbers. */
  function DecodeSegments(bs: seq<Octet>): Option<seq<Segment>> {
    if bs == [] then Some([]) else
      if |bs| < 2 then None else
        var n := 2 * (bs[1] as int);
        if |bs| < 2 + n then None else
          match DecodeSegments(bs[2 + n..])
          case None => None
          case Some(rest) => Some([Segment(bs[0], DecodeWords(bs[2..2 + n]))] + rest)
  }

  // ---------- what was meant ----------

  function OnWire(p: IPNet): Prefix {
    match To4(p.ip)
    case Ok(ip4) => Prefix(p.Ones(), ip4[..(p.Ones() + 7) / 8])
    case NotIPv4 => Prefix(0, [])
  }

  function AllOnWire(ps: seq<IPNet>): seq<Prefix> {
    if ps == [] then [] else [OnWire(ps[0])] + AllOnWire(ps[1..])
  }

  ghost predicate Means(w: PathAttribute, a: Attribute) {
    && w.flags == TRANSITIVE
    && match a
       case Origin(code) => w.kind == ORIGIN && w.value == [code]
       case ASPath(asns) =>
         w.kind == AS_PATH && DecodeSegments(w.value) == Some(if asns == [] then [] else [Segment(AS_SEQUENCE, asns)])
       case NextHop(ip) => w.kind == NEXT_HOP && Ok(w.value) == To4(ip)
       case LocalPref(pref) => w.kind == LOCAL_PREF && w.value == BigEndian32(pref)
  }

  ghost predicate AllMean(ws: seq<PathAttribute>, attrs: seq<Attribute>) {
    |ws| == |attrs| && forall i :: 0 <= i < |ws| ==> Means(ws[i], attrs[i])
  }

  ghost predicate Recovered(bs: seq<Octet>, updates: seq<IPNet>, removes: seq<IPNet>, attrs: seq<Attribute>) {
    match Decode(bs)
    case None => false
    case Some(u) => u.withdrawn == AllOnWire(removes) && AllMean(u.attrs, attrs) && u.nlri == AllOnWire(updates)
  }

  /** Both sections fit their 16-bit lengths and every AS path fits the 8-bit
      length of its attribute. */
  ghost predicate Fits(removes: seq<IPNet>, attrs: seq<Attribute>) {
    && |Prefixes(removes)| < 0x1_0000
    && |Attributes(attrs)| < 0x1_0000
    && forall a :: a in attrs ==> Short(a)
  }

  ghost predicate Short(a: Attribute) {
    a.ASPath? ==> |a.asns| <= 126
  }

  // ---------- prefixes ----------

  lemma {:induction false} PrefixesDecode(ps: seq<IPNet>)
    requires forall p :: p in ps ==> To4(p.ip).Ok?
    ensures DecodePrefixes(Prefixes(ps)) == Some(AllOnWire(ps))
  {
    if ps == [] {
    } else {
      PrefixesDecode(ps[1..]);
      var p := PrefixOctets(ps[0]);
      var bs := Prefixes(ps);
      assert bs == p + Prefixes(ps[1..]);
      assert bs[|p|..] == Prefixes(ps[1..]) && bs[1..|p|] == p[1..];
    }
  }

  /** How many octets a decoded prefix takes. */
  ghost function Span(ps: seq<Prefix>): nat {
    if ps == [] then 0 else 1 + |ps[0].octets| + Span(ps[1..])
  }

  lemma {:induction false} DecodedSpan(bs: seq<Octet>)
    ensures DecodePrefixes(bs).Some? ==> Span(DecodePrefixes(bs).value) == |bs|
  {
    if bs == [] || DecodePrefixes(bs).None? {
    } else {
      var n := (bs[0] as int + 7) / 8;
      DecodedSpan(bs[1 + n..]);
      assert DecodePrefixes(bs).value[1..] == DecodePrefixes(bs[1 + n..]).value;
    }
  }

  lemma {:induction false} EncodedSpan(ps: seq<IPNet>)
    requires forall p :: p in ps ==> To4(p.ip).Ok?
    ensures Span(AllOnWire(ps)) == |Prefixes(ps)|
  {
    if ps == [] {
    } else {
      EncodedSpan(ps[1..]);
      assert AllOnWire(ps)[1..] == AllOnWire(ps[1..]);
    }
  }

  // ---------- attributes ----------

  lemma {:induction false} WordsDecode(asns: seq<Word>)
    ensures |Words(asns)| == 2 * |asns|
    ensures DecodeWords(Words(asns)) == asns
  {
    if asns == [] {
    } else {
      WordsDecode(asns[1..]);
      var bs := Words(asns);
      assert bs == BigEndian16(asns[0]) + Words(asns[1..]);
      assert bs[2..] == Words(asns[1..]);
      assert Number16(bs[0], bs[1]) == asns[0];
    }
  }

  lemma {:induction false} DecodedWords(bs: seq<Octet>)
    requires |bs| % 2 == 0
    ensures 2 * |DecodeWords(bs)| == |bs|
  {
    if bs == [] {
    } else {
      DecodedWords(bs[2..]);
    }
  }

  lemma LastSegment(bs: seq<Octet>, n: nat, rest: seq<Octet>)
    requires |bs| >= 2 && n == 2 * bs[1] as int && |bs| >= 2 + n && rest == bs[2 + n..] && rest == []
    ensures DecodeSegments(bs) == Some([Segment(bs[0], DecodeWords(bs[2..2 + n]))])
  {
    hide DecodeWords;
    assert DecodeSegments(rest) == Some([]);
    var first := Segment(bs[0], DecodeWords(bs[2..2 + n]));
    assert [first] + [] == [first];
  }

  lemma OneSegment(bs: seq<Octet>)
    requires |bs| >= 2 && |bs| == 2 + 2 * bs[1] as int
    ensures DecodeSegments(bs) == Some([Segment(bs[0], DecodeWords(bs[2..]))])
  {
    hide DecodeWords;
    var n := 2 * bs[1] as int;
    assert bs[2 + n..] == [];
    LastSegment(bs, n, bs[2 + n..]);
    assert bs[2..2 + n] == bs[2..];
  }

  lemma PathDecode(asns: seq<Word>)
    requires asns != [] && |asns| <= 126
    ensures DecodeSegments([AS_SEQUENCE, |asns|] + Words(asns)) == Some([Segment(AS_SEQUENCE, asns)])
  {
    hide DecodeSegments, DecodeWords, Words;
    WordsDecode(asns);
    var bs := [AS_SEQUENCE, |asns|] + Words(asns);
    assert |bs| == 2 + 2 * |asns| && bs[0] == AS_SEQUENCE && bs[1] == |asns| && bs[2..] == Words(asns);
    OneSegment(bs);
  }

  /** A single segment takes two octets and two for each number. */
  lemma SegmentSize(bs: seq<Octet>, s: Segment)
    requires DecodeSegments(bs) == Some([s])
    ensures |bs| == 2 + 2 * |s.asns|
  {
    hide DecodeWords;
    var n := 2 * bs[1] as int;
    var rest := DecodeSegments(bs[2 + n..]);
    var first := Segment(bs[0], DecodeWords(bs[2..2 + n]));
    assert [first] + rest.value == [s];
    assert ([first] + rest.value)[0] == s && |[first] + rest.value| == 1;
    NoSegment(bs[2 + n..]);
    DecodedWords(bs[2..2 + n]);
  }

  lemma NoSegment(bs: seq<Octet>)
    requires DecodeSegments(bs) == Some([])
    ensures bs == []
  {
    hide DecodeWords;
  }

  lemma PathParts(asns: seq<Word>)
    requires |asns| <= 126
    ensures
      var o := ASPathOctets(asns);
      |o| >= 3 && o[2] == |o| - 3 && o[0] == TRANSITIVE && Means(PathAttribute(o[0], o[1], o[3..]), ASPath(asns))
  {
    var o := ASPathOctets(asns);
    if asns == [] {
      assert o[3..] == [] && DecodeSegments([]) == Some([]);
    } else {
      WordsDecode(asns);
      PathDecode(asns);
      hide DecodeSegments, Words, DecodeWords;
      PathValue(asns, Words(asns));
    }
  }

  lemma PathValue(asns: seq<Word>, words: seq<Octet>)
    requires 0 < |asns| <= 126 && words == Words(asns) && |words| == 2 * |asns|
    ensures
      var o := ASPathOctets(asns);
      o[..3] == [TRANSITIVE, AS_PATH, |o| - 3] && o[3..] == [AS_SEQUENCE, |asns|] + words
  {
    hide Words;
    var n := 2 + |words|;
    assert ASPathOctets(asns) == [TRANSITIVE, AS_PATH, n, AS_SEQUENCE, |asns|] + words;
  }

  /** A short attribute is its header, the length of its value and a value that
      means it. */
  lemma AttributeParts(a: Attribute)
    requires AttributeOctets(a).Ok? && Short(a)
    ensures
      var o := AttributeOctets(a).value;
      |o| >= 3 && o[2] == |o| - 3 && o[0] == TRANSITIVE && Means(PathAttribute(o[0], o[1], o[3..]), a)
  {
    var o := AttributeOctets(a).value;
    match a
    case ASPath(asns) =>
      PathParts(asns);
    case NextHop(ip) =>
      assert o[3..] == To4(ip).value;
    case LocalPref(pref) =>
      assert o[3..] == BigEndian32(pref);
    case Origin(code) =>
      assert o[3..] == [code];
  }

  lemma {:induction false} AttributesDecode(attrs: seq<Attribute>)
    requires forall a :: a in attrs ==> AttributeOctets(a).Ok? && Short(a)
    ensures DecodeAttributes(Attributes(attrs)).Some? && AllMean(DecodeAttributes(Attributes(attrs)).value, attrs)
  {
    hide Means, Short, AttributeOctets;
    if attrs == [] {
    } else {
      AttributesDecode(attrs[1..]);
      AttributeParts(attrs[0]);
      var o := AttributeOctets(attrs[0]).value;
      var bs := Attributes(attrs);
      assert bs == o + Attributes(attrs[1..]);
      assert bs[|o|..] == Attributes(attrs[1..]) && bs[3..|o|] == o[3..];
    }
  }

  lemma AttributeSize(w: PathAttribute, a: Attribute)
    requires AttributeOctets(a).Ok? && Means(w, a)
    ensures |AttributeOctets(a).value| == 3 + |w.value|
  {
    match a
    case ASPath(asns) =>
      if asns != [] {
        SegmentSize(w.value, Segment(AS_SEQUENCE, asns));
        WordsDecode(asns);
      } else {
        assert w.value == [];
      }
    case _ =>
  }

  lemma TransitiveAttribute(bs: seq<Octet>)
    requires bs != [] && FirstAttribute(bs).Some? && FirstAttribute(bs).value.flags == TRANSITIVE
    ensures HeaderSize(bs[0]) == 3 && |FirstAttribute(bs).value.value| < 0x100
  {
  }

  lemma MeantIsShort(w: PathAttribute, a: Attribute)
    requires Means(w, a) && |w.value| < 0x100
    ensures Short(a)
  {
    if a.ASPath? && a.asns != [] {
      SegmentSize(w.value, Segment(AS_SEQUENCE, a.asns));
    }
  }

  /** The first attribute and the rest, when the flags are those of the encoder. */
  lemma MeantSplit(bs: seq<Octet>, attrs: seq<Attribute>) returns (w: PathAttribute)
    requires bs != [] && DecodeAttributes(bs).Some? && AllMean(DecodeAttributes(bs).value, attrs)
    ensures attrs != [] && Means(w, attrs[0]) && |w.value| < 0x100 && 3 + |w.value| <= |bs|
    ensures
      var rest := DecodeAttributes(bs[3 + |w.value|..]);
      rest.Some? && AllMean(rest.value, attrs[1..])
  {
    var ws := DecodeAttributes(bs).value;
    w := FirstAttribute(bs).value;
    assert w == ws[0] && Means(w, attrs[0]) && w.flags == TRANSITIVE;
    TransitiveAttribute(bs);
    hide Means, FirstAttribute, HeaderSize;
    assert DecodeAttributes(bs[3 + |w.value|..]).value == ws[1..];
  }

  lemma {:induction false} MeantSize(bs: seq<Octet>, attrs: seq<Attribute>)
    requires forall a :: a in attrs ==> AttributeOctets(a).Ok?
    requires DecodeAttributes(bs).Some? && AllMean(DecodeAttributes(bs).value, attrs)
    ensures |bs| == |Attributes(attrs)|
    ensures forall a :: a in attrs ==> Short(a)
  {
    hide Means, Short, AttributeOctets, FirstAttribute, HeaderSize;
    if bs == [] {
    } else {
      var w := MeantSplit(bs, attrs);
      hide DecodeAttributes, AllMean;
      AttributeSize(w, attrs[0]);
      MeantIsShort(w, attrs[0]);
      MeantSize(bs[3 + |w.value|..], attrs[1..]);
      assert attrs == [attrs[0]] + attrs[1..];
    }
  }

  // ---------- the whole body ----------

  lemma NumberOf(n: nat)
    requires n < 0x1_0000
    ensures Number16(BigEndian16(n)[0], BigEndian16(n)[1]) == n
  {
  }

  lemma Cut(bs: seq<Octet>, wl: seq<Octet>, w: seq<Octet>, al: seq<Octet>, a: seq<Octet>, n: seq<Octet>)
    requires |wl| == 2 && |al| == 2 && bs == wl + w + al + a + n
    ensures |bs| == 4 + |w| + |a| + |n|
    ensures bs[0] == wl[0] && bs[1] == wl[1] && bs[2..2 + |w|] == w
    ensures bs[2 + |w|] == al[0] && bs[3 + |w|] == al[1]
    ensures bs[4 + |w|..4 + |w| + |a|] == a && bs[4 + |w| + |a|..] == n
  {
  }

  lemma Sections(bs: seq<Octet>, w: seq<Octet>, a: seq<Octet>, n: seq<Octet>)
    requires |w| < 0x1_0000 && |a| < 0x1_0000
    requires bs == BigEndian16(|w|) + w + BigEndian16(|a|) + a + n
    ensures Decode(bs) ==
      match (DecodePrefixes(w), DecodeAttributes(a), DecodePrefixes(n))
      case (Some(withdrawn), Some(attrs), Some(nlri)) => Some(Update(withdrawn, attrs, nlri))
      case _ => None
  {
    hide DecodePrefixes, DecodeAttributes, BigEndian16, Number16;
    NumberOf(|w|);
    NumberOf(|a|);
    Cut(bs, BigEndian16(|w|), w, BigEndian16(|a|), a, n);
  }

  lemma FittingIsRecovered(updates: seq<IPNet>, removes: seq<IPNet>, attrs: seq<Attribute>)
    requires Encodable(updates, removes, attrs) && Fits(removes, attrs)
    ensures Recovered(Body(updates, removes, attrs), updates, removes, attrs)
  {
    hide Decode, Means, Short, DecodePrefixes, DecodeAttributes, Prefixes, Attributes, BigEndian16, AttributeOctets;
    Sections(Body(updates, removes, attrs), Prefixes(removes), Attributes(attrs), Prefixes(updates));
    PrefixesDecode(removes);
    PrefixesDecode(updates);
    AttributesDecode(attrs);
  }

  lemma RecoveredFits(updates: seq<IPNet>, removes: seq<IPNet>, attrs: seq<Attribute>)
    requires Encodable(updates, removes, attrs)
    requires Recovered(Body(updates, removes, attrs), updates, removes, attrs)
    ensures Fits(removes, attrs)
  {
    hide Means, DecodePrefixes, DecodeAttributes, Prefixes, Attributes, BigEndian16, Number16, AttributeOctets, Short;
    var bs := Body(updates, removes, attrs);
    var w := |Prefixes(removes)| % 0x1_0000;
    var a := |Attributes(attrs)| % 0x1_0000;
    NumberOf(w);
    NumberOf(a);
    Cut(bs, BigEndian16(w), Prefixes(removes), BigEndian16(a), Attributes(attrs), Prefixes(updates));
    DecodedSpan(bs[2..2 + w]);
    EncodedSpan(removes);
    assert |Prefixes(removes)| == w;
    MeantSize(bs[4 + w..4 + w + a], attrs);
  }

  /** The round trip holds exactly when the sections and AS paths fit. */
  lemma RoundTripIffFits(updates: seq<IPNet>, removes: seq<IPNet>, attrs: seq<Attribute>)
    requires Encodable(updates, removes, attrs)
    ensures Recovered(Body(updates, removes, attrs), updates, removes, attrs) <==> Fits(removes, attrs)
  {
    hide Recovered, Fits;
    if Fits(removes, attrs) {
      FittingIsRecovered(updates, removes, attrs);
    }
    if Recovered(Body(updates, removes, attrs), updates, removes, attrs) {
      RecoveredFits(updates, removes, attrs);
    }
  }

  /** The AS path attribute alone comes back exactly when it has at most 126
      numbers. */
  lemma PathAloneIffShort(asns: seq<Word>)
    ensures
      var r := DecodeAttributes(ASPathOctets(asns));
      r.Some? && AllMean(r.value, [ASPath(asns)]) <==> |asns| <= 126
  {
    hide DecodeAttributes, Means, ASPathOctets;
    var attrs := [ASPath(asns)];
    assert attrs[1..] == [] && Attributes(attrs) == ASPathOctets(asns) + [];
    assert ASPathOctets(asns) + [] == ASPathOctets(asns);
    if |asns| <= 126 {
      AttributesDecode(attrs);
    }
    var r := DecodeAttributes(ASPathOctets(asns));
    if r.Some? && AllMean(r.value, attrs) {
      MeantSize(ASPathOctets(asns), attrs);
      assert Short(attrs[0]);
    }
  }

  /** What a decoded attribute means is unique, up to the two forms in which
      net.IP holds an IPv4 address. */
  lemma MeaningUnique(w: PathAttribute, a: Attribute, b: Attribute)
    requires Means(w, a) && Means(w, b)
    ensures a == b || (a.NextHop? && b.NextHop? && To4(a.ip) == To4(b.ip))
  {
    match a
    case LocalPref(pref) =>
      NumberOf32(pref);
      if b.LocalPref? {
        NumberOf32(b.pref);
      }
    case _ =>
  }
}
