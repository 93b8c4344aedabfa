/** How a peer is told about a message: the /32 prefixes, the attributes and the
    octets of one UPDATE, and what a peer that follows RFC 4271 makes of them. */
module Plugin {
  import opened Types
  import opened Packet
  import opened Wire

  /** net.ParseIP of the dotted text of an address: sixteen octets. */
  function ParseIP(a: Addr): seq<Octet> {
    seq(10, _ => 0) + [0xff, 0xff] + BigEndian32(a)
  }

  const LOCALHOST: Addr := 0x7f00_0001

  const END_OF_RIB: seq<Octet> := [0, 0, 0, 0]

  /** Section 4.1 of RFC 4271: a 19-octet header and at most 4096 octets in all. */
  const HEADER_SIZE := 19
  const MAX_MESSAGE := 4096

  function HostNet(a: Addr): IPNet {
    IPNet(ParseIP(a), Leading(32))
  }

  ghost function HostNets(s: seq<Addr>): seq<IPNet> {
    seq(|s|, i requires 0 <= i < |s| => HostNet(s[i]))
  }

  function SentAttributes(pref: Quad): seq<Attribute> {
    [Origin(ORIGIN_EGP), ASPath([]), NextHop(ParseIP(LOCALHOST)), LocalPref(pref)]
  }

  ghost function MessageBody(msg: Message, pref: Quad): seq<Octet> {
    Body(HostNets(msg.toUpdate), HostNets(msg.toRemove), SentAttributes(pref))
  }

  lemma ParsedIsIPv4(a: Addr)
    ensures To4(ParseIP(a)) == Ok(BigEndian32(a))
  {
    var ip := ParseIP(a);
    assert ip[..10] == seq(10, _ => 0) && ip[12..] == BigEndian32(a);
  }

  lemma AlwaysEncodable(msg: Message, pref: Quad)
    ensures Encodable(HostNets(msg.toUpdate), HostNets(msg.toRemove), SentAttributes(pref))
  {
    forall a: Addr
      ensures To4(HostNet(a).ip).Ok?
    {
      ParsedIsIPv4(a);
    }
  }

  /** The part of newWriter that turns a message into octets. */
  method EncodeMessage(msg: Message, pref: Quad) returns (r: Result<seq<Octet>>)
    ensures r == Ok(MessageBody(msg, pref))
  {
    var updates: seq<IPNet> := [];
    for i := 0 to |msg.toUpdate|
      invariant updates == HostNets(msg.toUpdate[..i])
    {
      updates := updates + [HostNet(msg.toUpdate[i])];
    }
    var removes: seq<IPNet> := [];
    for i := 0 to |msg.toRemove|
      invariant removes == HostNets(msg.toRemove[..i])
    {
      removes := removes + [HostNet(msg.toRemove[i])];
    }
    assert updates == HostNets(msg.toUpdate) && removes == HostNets(msg.toRemove);
    AlwaysEncodable(msg, pref);
    r := BuildUpdateMessage(updates, removes, SentAttributes(pref));
  }

  // ---------- the size of the body ----------

  lemma {:induction false} HostPrefixesSize(s: seq<Addr>)
    ensures |Prefixes(HostNets(s))| == 5 * |s|
  {
    if s == [] {
    } else {
      ParsedIsIPv4(s[0]);
      assert HostNets(s)[1..] == HostNets(s[1..]);
      HostPrefixesSize(s[1..]);
    }
  }

  /** The attribute section, octet by octet: ORIGIN, an empty AS_PATH, NEXT_HOP
      127.0.0.1 and LOCAL_PREF. */
  lemma AttributeSection(pref: Quad)
    ensures Attributes(SentAttributes(pref)) ==
            [0x40, 1, 1, 1, 0x40, 2, 0, 0x40, 3, 4, 127, 0, 0, 1, 0x40, 5, 4] + BigEndian32(pref)
    ensures |Attributes(SentAttributes(pref))| == 21
  {
    ParsedIsIPv4(LOCALHOST);
    assert BigEndian32(LOCALHOST) == [127, 0, 0, 1];
    hide ParseIP, Attributes, BigEndian32;
    var origin, path, hop, last := Origin(ORIGIN_EGP), ASPath([]), NextHop(ParseIP(LOCALHOST)), LocalPref(pref);
    assert SentAttributes(pref) == [origin] + [path, hop, last];
    assert [path, hop, last] == [path] + [hop, last] && [hop, last] == [hop] + [last] && [last] == [last] + [];
    OneMoreAttribute(last, []);
    OneMoreAttribute(hop, [last]);
    OneMoreAttribute(path, [hop, last]);
    OneMoreAttribute(origin, [path, hop, last]);
    NoAttributes();
    FourAttributes(BigEndian32(pref));
  }

  lemma FourAttributes(x: seq<Octet>)
    ensures [0x40, 1, 1, 1] + ([0x40, 2, 0] + ([0x40, 3, 4, 127, 0, 0, 1] + ([0x40, 5, 4] + x + []))) ==
            [0x40, 1, 1, 1, 0x40, 2, 0, 0x40, 3, 4, 127, 0, 0, 1, 0x40, 5, 4] + x
  {
    var o, p, h, l := [0x40, 1, 1, 1], [0x40, 2, 0], [0x40, 3, 4, 127, 0, 0, 1], [0x40, 5, 4];
    assert l + x + [] == l + x;
    Regroup(h, l, x);
    Regroup(p, h + l, x);
    Regroup(o, p + (h + l), x);
  }

  lemma NoAttributes()
    ensures Attributes([]) == []
  {
  }

  lemma OneMoreAttribute(a: Attribute, rest: seq<Attribute>)
    requires AttributeOctets(a).Ok?
    ensures Attributes([a] + rest) == AttributeOctets(a).value + Attributes(rest)
  {
    assert ([a] + rest)[1..] == rest;
  }

  /** The address of a dotted text of four numbers. */
  function Dotted(q: seq<Octet>): Addr
    requires |q| == 4
  {
    0x100_0000 * (q[0] as int) + 0x1_0000 * (q[1] as int) + 0x100 * (q[2] as int) + q[3]
  }

  lemma DottedOctets(q: seq<Octet>)
    requires |q| == 4
    ensures BigEndian32(Dotted(q)) == q
  {
    var a := Dotted(q);
    assert a / 0x100_0000 == q[0];
    assert a / 0x1_0000 == 0x100 * (q[0] as int) + q[1] && a / 0x1_0000 % 0x100 == q[1];
    assert a / 0x100 == 0x1_0000 * (q[0] as int) + 0x100 * (q[1] as int) + q[2] && a / 0x100 % 0x100 == q[2];
  }

  lemma HostOctets(q: seq<Octet>)
    requires |q| == 4
    ensures Prefixes(HostNets([Dotted(q)])) == [32] + q
  {
    DottedOctets(q);
    ParsedIsIPv4(Dotted(q));
    assert HostNets([Dotted(q)])[1..] == [];
    assert q[..4] == q;
  }

  /** What comes before the preference in the attribute section, with the length
      of the section. */
  const ATTRIBUTES: seq<Octet> := [0, 21, 0x40, 1, 1, 1, 0x40, 2, 0, 0x40, 3, 4, 127, 0, 0, 1, 0x40, 5, 4]

  lemma SectionWithLength(pref: Quad)
    ensures BigEndian16(|Attributes(SentAttributes(pref))| % 0x1_0000) + Attributes(SentAttributes(pref)) ==
            ATTRIBUTES + BigEndian32(pref)
  {
    AttributeSection(pref);
    hide Attributes, SentAttributes, BigEndian32;
    assert BigEndian16(21) == [0, 21];
    var rest := [0x40, 1, 1, 1, 0x40, 2, 0, 0x40, 3, 4, 127, 0, 0, 1, 0x40, 5, 4];
    assert [0, 21] + rest == ATTRIBUTES;
    assert [0, 21] + (rest + BigEndian32(pref)) == ([0, 21] + rest) + BigEndian32(pref);
  }

  lemma MessageParts(msg: Message, pref: Quad)
    ensures MessageBody(msg, pref) ==
            BigEndian16(5 * |msg.toRemove| % 0x1_0000) + Prefixes(HostNets(msg.toRemove))
            + (ATTRIBUTES + BigEndian32(pref)) + Prefixes(HostNets(msg.toUpdate))
  {
    HostPrefixesSize(msg.toRemove);
    SectionWithLength(pref);
    hide Attributes, SentAttributes, BigEndian32, BigEndian16, Prefixes, HostNets;
  }

  /** The octets of one withdrawal and one addition. */
  lemma OneEachLiterally(cause: Cause, add: seq<Octet>, remove: seq<Octet>, pref: seq<Octet>)
    requires |add| == |remove| == |pref| == 4
    ensures MessageBody(Message(cause, [Dotted(add)], [Dotted(remove)]), Dotted(pref)) ==
            [0, 5] + ([32] + remove)
            + ([0, 21, 0x40, 1, 1, 1, 0x40, 2, 0, 0x40, 3, 4, 127, 0, 0, 1, 0x40, 5, 4] + pref)
            + ([32] + add)
  {
    HostOctets(add);
    HostOctets(remove);
    DottedOctets(pref);
    assert BigEndian16(5) == [0, 5];
    hide MessageBody, Prefixes, HostNets, BigEndian32, BigEndian16, Dotted;
    MessageParts(Message(cause, [Dotted(add)], [Dotted(remove)]), Dotted(pref));
  }

  ghost predicate FitsMessage(bs: seq<Octet>) {
    HEADER_SIZE + |bs| <= MAX_MESSAGE
  }

  lemma BodySize(msg: Message, pref: Quad)
    ensures |MessageBody(msg, pref)| == 25 + 5 * (|msg.toUpdate| + |msg.toRemove|)
    ensures FitsMessage(MessageBody(msg, pref)) <==> |msg.toUpdate| + |msg.toRemove| <= 810
  {
    HostPrefixesSize(msg.toUpdate);
    HostPrefixesSize(msg.toRemove);
    AttributeSection(pref);
  }

  // ---------- the peer ----------

  function Host(a: Addr): Prefix {
    Prefix(32, BigEndian32(a))
  }

  lemma HostInjective(a: Addr, b: Addr)
    requires Host(a) == Host(b)
    ensures a == b
  {
    NumberOf32(a);
    NumberOf32(b);
  }

  ghost function Hosts(s: set<Addr>): set<Prefix> {
    set a | a in s :: Host(a)
  }

  /** Section 4.3 of RFC 4271: withdraw, then install; a prefix in both fields
      counts as not withdrawn. Messages that are too long or that cannot be
      decoded change no route. */
  ghost function Received(rib: set<Prefix>, bs: seq<Octet>): set<Prefix> {
    if !FitsMessage(bs) then rib
    else match Decode(bs)
         case None => rib
         case Some(u) => rib - (Elements(u.withdrawn) - Elements(u.nlri)) + Elements(u.nlri)
  }

  /** The routes of a peer after all it was sent. */
  ghost function Rib(log: seq<seq<Octet>>): set<Prefix> {
    if log == [] then {} else Received(Rib(log[..|log| - 1]), log[|log| - 1])
  }

  lemma RibAppend(log: seq<seq<Octet>>, bs: seq<Octet>)
    ensures Rib(log + [bs]) == Received(Rib(log), bs)
  {
    assert (log + [bs])[..|log|] == log;
  }

  /** Four zero octets: an update without withdrawals, attributes or routes. */
  lemma EndOfRibChangesNothing(rib: set<Prefix>)
    ensures END_OF_RIB == [0, 0, 0, 0] == Body([], [], []) && Decode(END_OF_RIB) == Some(Update([], [], []))
    ensures Received(rib, END_OF_RIB) == rib
  {
    var bs := END_OF_RIB;
    assert bs[2..2] == [] && bs[4..4] == [] && bs[4..] == [];
    assert Decode(bs) == Some(Update([], [], []));
  }

  lemma {:induction false} HostNetsOnWire(s: seq<Addr>, x: Prefix)
    ensures x in AllOnWire(HostNets(s)) <==> exists a :: a in s && Host(a) == x
  {
    if s == [] {
    } else {
      ParsedIsIPv4(s[0]);
      assert HostNets(s)[1..] == HostNets(s[1..]);
      HostNetsOnWire(s[1..], x);
      assert AllOnWire(HostNets(s)) == [Host(s[0])] + AllOnWire(HostNets(s[1..])) by {
        assert BigEndian32(s[0])[..4] == BigEndian32(s[0]);
      }
      assert s == [s[0]] + s[1..];
    }
  }

  lemma BodyDecodes(msg: Message, pref: Quad)
    requires FitsMessage(MessageBody(msg, pref))
    ensures
      var r := Decode(MessageBody(msg, pref));
      && r.Some?
      && r.value.withdrawn == AllOnWire(HostNets(msg.toRemove))
      && r.value.nlri == AllOnWire(HostNets(msg.toUpdate))
      && AllMean(r.value.attrs, SentAttributes(pref))
  {
    hide Decode, AllOnWire, HostNets, Attributes, Prefixes, Means;
    AlwaysEncodable(msg, pref);
    BodySize(msg, pref);
    HostPrefixesSize(msg.toRemove);
    AttributeSection(pref);
    RoundTripIffFits(HostNets(msg.toUpdate), HostNets(msg.toRemove), SentAttributes(pref));
  }

  /** The octets of a message change the host routes of a peer exactly as
      updateList changes the broadcaster's table, and no other route. */
  lemma PeerFollows(rib: set<Prefix>, msg: Message, pref: Quad, x: Prefix)
    requires FitsMessage(MessageBody(msg, pref))
    ensures x in Received(rib, MessageBody(msg, pref)) <==>
      (exists a :: a in msg.toUpdate && Host(a) == x) ||
      (x in rib && !exists a :: a in msg.toRemove && Host(a) == x)
  {
    hide Decode, AllOnWire, HostNets, FitsMessage, MessageBody;
    BodyDecodes(msg, pref);
    HostNetsOnWire(msg.toUpdate, x);
    HostNetsOnWire(msg.toRemove, x);
  }

  lemma PeerRefinesUpdateList(table: set<Addr>, msg: Message, pref: Quad)
    requires FitsMessage(MessageBody(msg, pref))
    ensures Received(Hosts(table), MessageBody(msg, pref)) == Hosts(Patched(table, msg))
  {
    hide MessageBody, FitsMessage, Received;
    forall x: Prefix
      ensures x in Received(Hosts(table), MessageBody(msg, pref)) <==> x in Hosts(Patched(table, msg))
    {
      PeerFollows(Hosts(table), msg, pref, x);
      forall a, b | Host(a) == x && Host(b) == x
        ensures a == b
      {
        HostInjective(a, b);
      }
    }
  }
}
