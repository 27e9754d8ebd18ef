/** The ordering of compact_ipdata (net_utils.h), on which the comparisons of ip_address and ip_prefix rest. */
module IpData {
  import opened Machine

  const AF_UNSPEC: Byte := 0
  const AF_INET: Byte := 2
  const AF_INET6: Byte := 10

  /** The union is its 16 bytes; an IPv4 address is the first four, in network order. */
  datatype CompactIpData = CompactIpData(family: Byte, cidrlen: Byte, port: UInt16, scopeId: UInt32, ip: seq<Byte>)

  type IpData = d: CompactIpData | |d.ip| == 16 witness CompactIpData(0, 0, 0, 0, seq(16, _ => 0))

  /** The value of s_addr as the little-endian host loads it. */
  function HostWord(b: seq<Byte>): UInt32
    requires |b| == 4
  {
    var b0: nat, b1: nat, b2: nat, b3: nat := b[0], b[1], b[2], b[3];
    0x100_0000 * b3 + 0x1_0000 * b2 + 0x100 * b1 + b0
  }

  /** ntohl: the same bytes in the opposite order. */
  function Ntohl(w: UInt32): UInt32 {
    w % 0x100 * 0x100_0000 + w / 0x100 % 0x100 * 0x1_0000 + w / 0x1_0000 % 0x100 * 0x100 + w / 0x100_0000
  }

  /** memcmp(a, b, n) < 0 on equally long byte strings: the first difference decides. */
  predicate MemLess(a: seq<Byte>, b: seq<Byte>)
    requires |a| == |b|
  {
    a != [] && (a[0] < b[0] || (a[0] == b[0] && MemLess(a[1..], b[1..])))
  }

  /** operator== */
  predicate Eq(a: IpData, b: IpData) {
    && a.family == b.family && a.cidrlen == b.cidrlen && a.port == b.port && a.scopeId == b.scopeId
    && (a.family == AF_UNSPEC
        || (a.family == AF_INET && HostWord(a.ip[..4]) == HostWord(b.ip[..4]))
        || (a.family == AF_INET6 && a.ip == b.ip))
  }

  /** operator< */
  predicate Less(a: IpData, b: IpData) {
    if a.family != b.family then a.family < b.family
    else if a.family == AF_INET && HostWord(a.ip[..4]) != HostWord(b.ip[..4]) then
      Ntohl(HostWord(a.ip[..4])) < Ntohl(HostWord(b.ip[..4]))
    else if a.family == AF_INET6 && a.ip != b.ip then MemLess(a.ip, b.ip)
    else if a.cidrlen != b.cidrlen then a.cidrlen < b.cidrlen
    else if a.port != b.port then a.port < b.port
    else a.scopeId < b.scopeId
  }

  /** The number a byte string denotes, most significant byte first. */
  function BigEndian(b: seq<Byte>): nat {
    if b == [] then 0 else b[0] * Power256(|b| - 1) + BigEndian(b[1..])
  }

  function Power256(n: nat): nat {
    if n == 0 then 1 else 0x100 * Power256(n - 1)
  }

  lemma {:induction false} BigEndianBound(b: seq<Byte>)
    ensures BigEndian(b) < Power256(|b|)
  {
    if b != [] {
      BigEndianBound(b[1..]);
      Spread(b[0], 0x100, Power256(|b| - 1));
    }
  }

  /** Byte-lexicographic order is numeric order of the big-endian values; on equal lengths the value is faithful. */
  lemma {:induction false} MemLessIsNumeric(a: seq<Byte>, b: seq<Byte>)
    requires |a| == |b|
    ensures MemLess(a, b) <==> BigEndian(a) < BigEndian(b)
    ensures a == b <==> BigEndian(a) == BigEndian(b)
  {
    if a != [] {
      MemLessIsNumeric(a[1..], b[1..]);
      BigEndianBound(a[1..]);
      BigEndianBound(b[1..]);
      var p := Power256(|a| - 1);
      assert a == [a[0]] + a[1..] && b == [b[0]] + b[1..];
      if a[0] < b[0] {
        Spread(a[0], b[0], p);
      } else if b[0] < a[0] {
        Spread(b[0], a[0], p);
      }
    }
  }

  lemma Spread(x: nat, y: nat, p: nat)
    requires x < y
    ensures x * p + p <= y * p
  {
    assert (x + 1) * p <= y * p by {
      assert y * p == (x + 1) * p + (y - x - 1) * p;
    }
  }

  /** The byte-swapped word is the big-endian number, so IPv4 addresses compare as MemLess compares them. */
  lemma WordIsNumeric(b: seq<Byte>)
    requires |b| == 4
    ensures Ntohl(HostWord(b)) == BigEndian(b)
  {
    var b0: nat, b1: nat, b2: nat, b3: nat := b[0], b[1], b[2], b[3];
    assert b[1..][1..] == b[2..] && b[2..][1..] == b[3..] && b[3..][1..] == [];
    assert Power256(1) == 0x100 && Power256(2) == 0x1_0000 && Power256(3) == 0x100_0000;
    assert BigEndian(b[3..]) == b3;
    assert BigEndian(b[2..]) == b2 * 0x100 + b3;
    assert BigEndian(b[1..]) == b1 * 0x1_0000 + BigEndian(b[2..]);
    assert BigEndian(b) == b0 * 0x100_0000 + BigEndian(b[1..]);
    Swapped(b0, b1, b2, b3);
  }

  /** The lowest byte of a number and the rest of it. */
  lemma LowByte(q: nat, r: Byte)
    ensures (0x100 * q + r) / 0x100 == q && (0x100 * q + r) % 0x100 == r
  {
  }

  lemma Swapped(b0: Byte, b1: Byte, b2: Byte, b3: Byte)
    ensures var w := 0x100_0000 * b3 + 0x1_0000 * b2 + 0x100 * b1 + b0;
      w < 0x1_0000_0000 && Ntohl(w) == b0 * 0x100_0000 + b1 * 0x1_0000 + b2 * 0x100 + b3
  {
    var w2: nat := 0x100 * b3 + b2;
    var w1: nat := 0x100 * w2 + b1;
    var w: nat := 0x100 * w1 + b0;
    LowByte(w1, b0);
    LowByte(w2, b1);
    LowByte(b3, b2);
    assert w / 0x1_0000 == w / 0x100 / 0x100 && w / 0x100_0000 == w / 0x1_0000 / 0x100;
  }

  /** The significant bytes of an address of a known family. */
  function AddressBytes(a: IpData): seq<Byte> {
    if a.family == AF_INET then a.ip[..4] else if a.family == AF_INET6 then a.ip else []
  }

  /** The tuple that the comparison orders lexicographically. */
  function Key(a: IpData): (nat, nat, nat, nat, nat) {
    (a.family, BigEndian(AddressBytes(a)), a.cidrlen, a.port, a.scopeId)
  }

  predicate KeyLess(x: (nat, nat, nat, nat, nat), y: (nat, nat, nat, nat, nat)) {
    x.0 < y.0 || (x.0 == y.0 && (x.1 < y.1 || (x.1 == y.1 && (x.2 < y.2 || (x.2 == y.2 && (x.3 < y.3
    || (x.3 == y.3 && x.4 < y.4)))))))
  }

  predicate Known(family: Byte) {
    family == AF_UNSPEC || family == AF_INET || family == AF_INET6
  }

  /** `<` is the lexicographic order of the keys, for every family; `==` is equality of keys exactly on known ones. */
  lemma LessByKey(a: IpData, b: IpData)
    ensures Less(a, b) <==> KeyLess(Key(a), Key(b))
    ensures Eq(a, b) <==> Known(a.family) && Key(a) == Key(b)
  {
    WordIsNumeric(a.ip[..4]);
    WordIsNumeric(b.ip[..4]);
    MemLessIsNumeric(a.ip[..4], b.ip[..4]);
    MemLessIsNumeric(a.ip, b.ip);
  }

  /** operator<= */
  predicate AtMost(a: IpData, b: IpData) {
    Less(a, b) || Eq(a, b)
  }

  /**
   `<` is transitive and irreflexive for every family, and on values of the known families exactly one of
   a < b, a == b and b < a holds. On any other family even a == a fails.
   */
  lemma StrictTotalOrder(a: IpData, b: IpData, c: IpData)
    ensures !Less(a, a)
    ensures Less(a, b) && Less(b, c) ==> Less(a, c)
    ensures !(Less(a, b) && Less(b, a)) && !(Less(a, b) && Eq(a, b))
    ensures Known(a.family) && Known(b.family) ==> Less(a, b) || Eq(a, b) || Less(b, a)
    ensures Eq(a, a) <==> Known(a.family)
    ensures Eq(a, b) && Less(b, c) ==> Less(a, c)
  {
    LessByKey(a, a);
    LessByKey(a, b);
    LessByKey(b, a);
    LessByKey(b, c);
    LessByKey(a, c);
  }

  /** On the known families `<=` is a total order up to `==`. */
  lemma AtMostTotal(a: IpData, b: IpData, c: IpData)
    requires Known(a.family) && Known(b.family) && Known(c.family)
    ensures AtMost(a, b) || AtMost(b, a)
    ensures AtMost(a, b) && AtMost(b, a) ==> Eq(a, b)
    ensures AtMost(a, b) && AtMost(b, c) ==> AtMost(a, c)
  {
    StrictTotalOrder(a, b, c);
    LessByKey(a, b);
    LessByKey(b, a);
    LessByKey(b, c);
    LessByKey(a, c);
  }
}
