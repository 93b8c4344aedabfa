/** The encoder of BGP UPDATE messages. Each method writes into a buffer as the
    program does and is proved against a function that gives its octets. */
module Packet {

  type Octet = n: int | 0 <= n < 0x100
  type Word = n: int | 0 <= n < 0x1_0000
  type Quad = n: int | 0 <= n < 0x1_0000_0000
  type MaskLength = n: int | 0 <= n <= 32

  const TRANSITIVE: Octet := 0x40
  const ORIGIN: Octet := 1
  const AS_PATH: Octet := 2
  const NEXT_HOP: Octet := 3
  const LOCAL_PREF: Octet := 5
  const AS_SEQUENCE: Octet := 2

  const ORIGIN_EGP: Octet := 1

  datatype Result<+T> = Ok(value: T) | NotIPv4

  /** A mask of leading ones, or an irregular one, for which the program is told
      that it has none. */
  datatype Mask = Leading(ones: MaskLength) | Irregular

  /** A net.IPNet: the address octets as net.IP holds them, 4 or 16 or any other
      number, and the mask. */
  datatype IPNet = IPNet(ip: seq<Octet>, mask: Mask) {
    function Ones(): MaskLength {
      if mask.Irregular? then 0 else mask.ones
    }
  }

  datatype Attribute =
    | Origin(code: Octet)
    | ASPath(asns: seq<Word>)
    | NextHop(ip: seq<Octet>)
    | LocalPref(pref: Quad)

  /** net.IP.To4: four octets, or sixteen that map an IPv4 address. */
  function To4(ip: seq<Octet>): (r: Result<seq<Octet>>)
    ensures r.Ok? ==> |r.value| == 4
  {
    if |ip| == 4 then Ok(ip)
    else if |ip| == 16 && ip[..10] == seq(10, _ => 0) && ip[10] == 0xff && ip[11] == 0xff then Ok(ip[12..])
    else NotIPv4
  }

  // ---------- octets ----------

  function BigEndian16(n: nat): (r: seq<Octet>)
    ensures |r| == 2
  {
    [n / 0x100 % 0x100, n % 0x100]
  }

  function BigEndian32(n: Quad): (r: seq<Octet>)
    ensures |r| == 4
  {
    [n / 0x100_0000, n / 0x1_0000 % 0x100, n / 0x100 % 0x100, n % 0x100]
  }

  function PrefixOctets(p: IPNet): seq<Octet> {
    match To4(p.ip)
    case Ok(ip4) => [p.Ones()] + ip4[..(p.Ones() + 7) / 8]
    case NotIPv4 => []
  }

  function Prefixes(ps: seq<IPNet>): seq<Octet> {
    if ps == [] then [] else PrefixOctets(ps[0]) + Prefixes(ps[1..])
  }

  function Words(asns: seq<Word>): seq<Octet> {
    if asns == [] then [] else BigEndian16(asns[0]) + Words(asns[1..])
  }

  /** The length octets are truncated: byte(len(a.ASNs)) and byte(length). */
  function ASPathOctets(asns: seq<Word>): seq<Octet> {
    if asns == [] then [TRANSITIVE, AS_PATH, 0]
    else [TRANSITIVE, AS_PATH, (2 + |Words(asns)|) % 0x100, AS_SEQUENCE, |asns| % 0x100] + Words(asns)
  }

  function AttributeOctets(a: Attribute): Result<seq<Octet>> {
    match a
    case Origin(code) => Ok([TRANSITIVE, ORIGIN, 1, code])
    case ASPath(asns) => Ok(ASPathOctets(asns))
    case NextHop(ip) =>
      (match To4(ip)
       case Ok(ip4) => Ok([TRANSITIVE, NEXT_HOP, 4, ip4[0], ip4[1], ip4[2], ip4[3]])
       case NotIPv4 => NotIPv4)
    case LocalPref(pref) => Ok([TRANSITIVE, LOCAL_PREF, 4] + BigEndian32(pref))
  }

  function Attributes(attrs: seq<Attribute>): seq<Octet> {
    if attrs == [] then []
    else (match AttributeOctets(attrs[0]) case Ok(o) => o case NotIPv4 => []) + Attributes(attrs[1..])
  }

  ghost predicate Encodable(updates: seq<IPNet>, removes: seq<IPNet>, attrs: seq<Attribute>) {
    && (forall p :: p in updates ==> To4(p.ip).Ok?)
    && (forall p :: p in removes ==> To4(p.ip).Ok?)
    && (forall a :: a in attrs ==> AttributeOctets(a).Ok?)
  }

  /** The body of the UPDATE message; both section lengths are cut to 16 bits. */
  function Body(updates: seq<IPNet>, removes: seq<IPNet>, attrs: seq<Attribute>): seq<Octet> {
    BigEndian16(|Prefixes(removes)| % 0x1_0000) + Prefixes(removes)
    + BigEndian16(|Attributes(attrs)| % 0x1_0000) + Attributes(attrs)
    + Prefixes(updates)
  }

  // ---------- the octets, spelled out ----------

  /** The addresses that count as IPv4: four octets, or those four after ten
      zeros and two times 255. */
  lemma IPv4Exactly(ip: seq<Octet>, q: seq<Octet>)
    requires |q| == 4
    ensures To4(ip) == Ok(q) <==> ip == q || ip == [0, 0, 0, 0, 0, 0, 0, 0, 0, 0, 255, 255] + q
  {
    if |ip| == 16 {
      var zeros: seq<Octet> := [0, 0, 0, 0, 0, 0, 0, 0, 0, 0];
      assert seq(10, _ => 0 as Octet) == zeros;
      assert ip == ip[..10] + [ip[10], ip[11]] + ip[12..];
      assert [0, 0, 0, 0, 0, 0, 0, 0, 0, 0, 255, 255] + q == zeros + [255, 255] + q;
    }
  }

  /** A prefix is the length of its mask, none for an irregular one, and the
      least number of leading octets of the address that covers it. */
  lemma PrefixIsLeast(p: IPNet, q: seq<Octet>)
    requires To4(p.ip) == Ok(q)
    ensures
      var o := PrefixOctets(p);
      var n := |o| - 1;
      && o == [if p.mask.Irregular? then 0 else p.mask.ones] + q[..n]
      && 8 * n >= o[0] && (n > 0 ==> 8 * (n - 1) < o[0])
  {
  }

  lemma {:induction false} WordsAt(asns: seq<Word>, i: nat)
    requires i < |asns|
    ensures |Words(asns)| == 2 * |asns|
    ensures Words(asns)[2 * i] == asns[i] / 0x100 && Words(asns)[2 * i + 1] == asns[i] % 0x100
  {
    if i == 0 {
      WordsSize(asns);
    } else {
      WordsAt(asns[1..], i - 1);
      assert Words(asns)[2..] == Words(asns[1..]);
    }
  }

  lemma {:induction false} WordsSize(asns: seq<Word>)
    ensures |Words(asns)| == 2 * |asns|
  {
    if asns == [] {
    } else {
      WordsSize(asns[1..]);
    }
  }

  /** The octets of a path attribute with numbers: flags 0x40, type 2, the two
      truncated lengths, one segment of kind 2, and each number with its high
      octet first. */
  lemma ASPathLayout(asns: seq<Word>, i: nat)
    requires i < |asns|
    ensures
      var o := ASPathOctets(asns);
      && |o| == 5 + 2 * |asns|
      && o[..5] == [0x40, 2, (2 + 2 * |asns|) % 256, 2, |asns| % 256]
      && o[5 + 2 * i] == asns[i] / 256 && o[6 + 2 * i] == asns[i] % 256
  {
    WordsAt(asns, i);
  }

  // ---------- the encoder ----------

  /** A bytes.Buffer. */
  class Buffer {
    var data: seq<Octet>

    constructor ()
      ensures data == []
    {
      data := [];
    }

    method WriteByte(b: Octet)
      modifies this
      ensures data == old(data) + [b]
    {
      data := data + [b];
    }

    method Write(bs: seq<Octet>)
      modifies this
      ensures data == old(data) + bs
    {
      data := data + bs;
    }
  }

  lemma Regroup(a: seq<Octet>, b: seq<Octet>, c: seq<Octet>)
    ensures a + b + c == a + (b + c)
  {
  }

  /** The mask octet is in the buffer even when the address is refused. */
  method EncodePrefix(buf: Buffer, prefix: IPNet) returns (ok: bool)
    modifies buf
    ensures ok <==> To4(prefix.ip).Ok?
    ensures buf.data == old(buf.data) + if ok then PrefixOctets(prefix) else [prefix.Ones()]
  {
    buf.WriteByte(prefix.Ones());
    var ip := To4(prefix.ip);
    if ip.NotIPv4? {
      return false;
    }
    var numBytes := (prefix.Ones() + 7) / 8;
    buf.Write(ip.value[..numBytes]);
    return true;
  }

  method EncodePrefixes(buf: Buffer, prefixes: seq<IPNet>) returns (ok: bool)
    modifies buf
    ensures ok <==> forall p :: p in prefixes ==> To4(p.ip).Ok?
    ensures ok ==> buf.data == old(buf.data) + Prefixes(prefixes)
  {
    hide PrefixOctets, To4;
    for i := 0 to |prefixes|
      invariant forall k :: 0 <= k < i ==> To4(prefixes[k].ip).Ok?
      invariant buf.data + Prefixes(prefixes[i..]) == old(buf.data) + Prefixes(prefixes)
    {
      assert prefixes[i..][1..] == prefixes[i + 1..];
      ghost var before := buf.data;
      ok := EncodePrefix(buf, prefixes[i]);
      if !ok {
        return;
      }
      Regroup(before, PrefixOctets(prefixes[i]), Prefixes(prefixes[i + 1..]));
    }
    return true;
  }

  method EncodeASPath(asns: seq<Word>) returns (bytes: seq<Octet>)
    ensures bytes == ASPathOctets(asns)
  {
    if |asns| == 0 {
      return [TRANSITIVE, AS_PATH, 0];
    }
    hide BigEndian16;
    var segment := new Buffer();
    segment.WriteByte(AS_SEQUENCE);
    segment.WriteByte(|asns| % 0x100);
    for i := 0 to |asns|
      invariant segment.data + Words(asns[i..]) == [AS_SEQUENCE, |asns| % 0x100] + Words(asns)
    {
      assert asns[i..][1..] == asns[i + 1..];
      ghost var before := segment.data;
      segment.Write(BigEndian16(asns[i]));
      Regroup(before, BigEndian16(asns[i]), Words(asns[i + 1..]));
    }
    var buf := new Buffer();
    buf.WriteByte(TRANSITIVE);
    buf.WriteByte(AS_PATH);
    buf.WriteByte(|segment.data| % 0x100);
    buf.Write(segment.data);
    assert asns[|asns|..] == [] && segment.data == [AS_SEQUENCE, |asns| % 0x100] + Words(asns);
    return buf.data;
  }

  method Encode(a: Attribute) returns (r: Result<seq<Octet>>)
    ensures r == AttributeOctets(a)
  {
    match a
    case ASPath(asns) =>
      var bytes := EncodeASPath(asns);
      r := Ok(bytes);
    case _ =>
      r := AttributeOctets(a);
  }

  method EncodeAttributes(buf: Buffer, attrs: seq<Attribute>) returns (ok: bool)
    modifies buf
    ensures ok <==> forall a :: a in attrs ==> AttributeOctets(a).Ok?
    ensures ok ==> buf.data == old(buf.data) + Attributes(attrs)
  {
    for i := 0 to |attrs|
      invariant forall k :: 0 <= k < i ==> AttributeOctets(attrs[k]).Ok?
      invariant buf.data + Attributes(attrs[i..]) == old(buf.data) + Attributes(attrs)
    {
      assert attrs[i..][1..] == attrs[i + 1..];
      ghost var before := buf.data;
      var data := Encode(attrs[i]);
      if data.NotIPv4? {
        return false;
      }
      buf.Write(data.value);
      Regroup(before, data.value, Attributes(attrs[i + 1..]));
    }
    return true;
  }

  /** An error exactly when some address is not IPv4; otherwise the octets of
      the body. */
  method BuildUpdateMessage(updates: seq<IPNet>, removes: seq<IPNet>, attrs: seq<Attribute>)
    returns (r: Result<seq<Octet>>)
    ensures r.Ok? <==> Encodable(updates, removes, attrs)
    ensures r.Ok? ==> r.value == Body(updates, removes, attrs)
  {
    hide Prefixes, Attributes, BigEndian16, To4, AttributeOctets;
    var buf := new Buffer();
    var withdrawn := new Buffer();
    var ok := EncodePrefixes(withdrawn, removes);
    if !ok {
      return NotIPv4;
    }
    buf.Write(BigEndian16(|withdrawn.data| % 0x1_0000));
    buf.Write(withdrawn.data);
    assert buf.data == BigEndian16(|Prefixes(removes)| % 0x1_0000) + Prefixes(removes);
    var attrBuf := new Buffer();
    ok := EncodeAttributes(attrBuf, attrs);
    if !ok {
      return NotIPv4;
    }
    buf.Write(BigEndian16(|attrBuf.data| % 0x1_0000));
    buf.Write(attrBuf.data);
    ok := EncodePrefixes(buf, updates);
    if !ok {
      return NotIPv4;
    }
    return Ok(buf.data);
  }
}
