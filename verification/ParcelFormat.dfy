/** A Parcel as a sequence of typed cells, and what the codecs read and write. */
module ParcelFormat {
  import opened Machine
  import opened LinkTypes

  datatype Cell = U8(u8: Byte) | U16(u16: UInt16) | U32(u32: UInt32) | I32(i32: Int32) | Str(str: string)

  /** A decoder reads a value off the front of the cells, or fails. */
  type Decoded<T> = Option<(T, seq<Cell>)>

  datatype StaticConfiguration = StaticConfiguration(
    ipAddr: INetAddr, route: INetAddr, gate: INetAddr, netMask: INetAddr, dnsServers: seq<INetAddr>, domain: string)

  // Encodings

  function EncString(s: string): seq<Cell> {
    [Str(s)]
  }

  function EncAddr(a: INetAddr): seq<Cell> {
    [U8(a.addrType), U8(a.family), U8(a.prefixlen), Str(a.address), Str(a.netMask), Str(a.hostName)]
  }

  function EncRoute(r: Route): seq<Cell> {
    [Str(r.iface)] + (EncAddr(r.destination) + EncAddr(r.gateway))
  }

  function EncAll<T>(enc: T -> seq<Cell>, l: seq<T>): seq<Cell> {
    if l == [] then [] else enc(l[0]) + EncAll(enc, l[1..])
  }

  /** A list behind its length, which is truncated to 32 bits. */
  function EncList<T>(enc: T -> seq<Cell>, l: seq<T>): seq<Cell> {
    [U32(ToUInt32(|l|))] + EncAll(enc, l)
  }

  /** The three lists of a NetLinkInfo: addresses, DNS servers, routes. */
  type Lists = (seq<INetAddr>, seq<INetAddr>, seq<Route>)

  function ListsOf(x: NetLinkInfo): Lists {
    (x.netAddrList, x.dnsList, x.routeList)
  }

  function EncLists(l: Lists): seq<Cell> {
    EncList(EncAddr, l.0) + (EncList(EncAddr, l.1) + EncList(EncRoute, l.2))
  }

  function EncLinkInfo(x: NetLinkInfo): seq<Cell> {
    [Str(x.ifaceName)] + ([Str(x.domain)] + (EncLists(ListsOf(x)) + [U16(x.mtu)]))
  }

  function EncStatic(x: StaticConfiguration): seq<Cell> {
    EncAddr(x.ipAddr) + (EncAddr(x.route) + (EncAddr(x.gate) + (EncAddr(x.netMask)
    + (EncList(EncAddr, x.dnsServers) + [Str(x.domain)]))))
  }

  // Decodings

  function DecString(c: seq<Cell>): Decoded<string> {
    if c != [] && c[0].Str? then Some((c[0].str, c[1..])) else None
  }

  function DecU8(c: seq<Cell>): Decoded<Byte> {
    if c != [] && c[0].U8? then Some((c[0].u8, c[1..])) else None
  }

  function DecU16(c: seq<Cell>): Decoded<UInt16> {
    if c != [] && c[0].U16? then Some((c[0].u16, c[1..])) else None
  }

  function DecU32(c: seq<Cell>): Decoded<UInt32> {
    if c != [] && c[0].U32? then Some((c[0].u32, c[1..])) else None
  }

  function DecI32(c: seq<Cell>): Decoded<Int32> {
    if c != [] && c[0].I32? then Some((c[0].i32, c[1..])) else None
  }

  function DecAddr(c: seq<Cell>): Decoded<INetAddr> {
    if |c| >= 6 && c[0].U8? && c[1].U8? && c[2].U8? && c[3].Str? && c[4].Str? && c[5].Str?
    then Some((INetAddr(c[0].u8, c[1].u8, c[2].u8, c[3].str, c[4].str, c[5].str), c[6..]))
    else None
  }

  function DecRoute(c: seq<Cell>): Decoded<Route> {
    match DecString(c)
    case None => None
    case Some((iface, c1)) =>
      match DecAddr(c1)
      case None => None
      case Some((destination, c2)) =>
        match DecAddr(c2)
        case None => None
        case Some((gateway, c3)) => Some((Route(iface, destination, gateway), c3))
  }

  function DecAll<T>(dec: seq<Cell> -> Decoded<T>, c: seq<Cell>, n: nat): Decoded<seq<T>>
    decreases n
  {
    if n == 0 then Some(([], c))
    else
      match dec(c)
      case None => None
      case Some((x, c1)) =>
        match DecAll(dec, c1, n - 1)
        case None => None
        case Some((l, c2)) => Some(([x] + l, c2))
  }

  function DecList<T>(dec: seq<Cell> -> Decoded<T>, c: seq<Cell>): Decoded<seq<T>> {
    if c != [] && c[0].U32? then DecAll(dec, c[1..], c[0].u32) else None
  }

  function DecLists(c: seq<Cell>): Decoded<Lists> {
    match DecList(DecAddr, c)
    case None => None
    case Some((addrs, c1)) =>
      match DecList(DecAddr, c1)
      case None => None
      case Some((dnses, c2)) =>
        match DecList(DecRoute, c2)
        case None => None
        case Some((routes, c3)) => Some(((addrs, dnses, routes), c3))
  }

  function DecLinkInfo(c: seq<Cell>): Decoded<NetLinkInfo> {
    match DecString(c)
    case None => None
    case Some((ifaceName, c1)) =>
      match DecString(c1)
      case None => None
      case Some((domain, c2)) =>
        match DecLists(c2)
        case None => None
        case Some((l, c3)) =>
          match DecU16(c3)
          case None => None
          case Some((mtu, c4)) => Some((NetLinkInfo(ifaceName, domain, l.0, l.1, l.2, mtu), c4))
  }

  function DecStatic(c: seq<Cell>): Decoded<StaticConfiguration> {
    match DecAddr(c)
    case None => None
    case Some((ipAddr, c1)) =>
      match DecAddr(c1)
      case None => None
      case Some((route, c2)) =>
        match DecAddr(c2)
        case None => None
        case Some((gate, c3)) =>
          match DecAddr(c3)
          case None => None
          case Some((netMask, c4)) =>
            match DecList(DecAddr, c4)
            case None => None
            case Some((dnses, c5)) =>
              match DecString(c5)
              case None => None
              case Some((domain, c6)) => Some((StaticConfiguration(ipAddr, route, gate, netMask, dnses, domain), c6))
  }

  // Decoding inverts encoding, and whatever decodes was encoded so.

  ghost predicate Inverts<T(!new)>(enc: T -> seq<Cell>, dec: seq<Cell> -> Decoded<T>) {
    forall x: T, rest: seq<Cell> :: dec(enc(x) + rest) == Some((x, rest))
  }

  ghost predicate Exact<T(!new)>(enc: T -> seq<Cell>, dec: seq<Cell> -> Decoded<T>) {
    forall c: seq<Cell> :: dec(c).Some? ==> c == enc(dec(c).value.0) + dec(c).value.1
  }

  lemma AddrCodec()
    ensures Inverts(EncAddr, DecAddr) && Exact(EncAddr, DecAddr)
  {
    forall x: INetAddr, rest: seq<Cell>
      ensures DecAddr(EncAddr(x) + rest) == Some((x, rest))
    {
      assert (EncAddr(x) + rest)[6..] == rest;
    }
  }

  lemma StringCodec()
    ensures Inverts(EncString, DecString) && Exact(EncString, DecString)
  {
    forall x: string, rest: seq<Cell>
      ensures DecString(EncString(x) + rest) == Some((x, rest))
    {
      assert (EncString(x) + rest)[1..] == rest;
    }
  }

  lemma StringReads(s: string, rest: seq<Cell>)
    ensures DecString(EncString(s) + rest) == Some((s, rest))
  {
    StringCodec();
  }

  lemma StringExact(c: seq<Cell>)
    requires DecString(c).Some?
    ensures c == EncString(DecString(c).value.0) + DecString(c).value.1
  {
  }

  lemma AddrReads(a: INetAddr, rest: seq<Cell>)
    ensures DecAddr(EncAddr(a) + rest) == Some((a, rest))
  {
    AddrCodec();
  }

  lemma RouteCodec()
    ensures Inverts(EncRoute, DecRoute) && Exact(EncRoute, DecRoute)
  {
    AddrCodec();
    StringCodec();
    forall x: Route, rest: seq<Cell>
      ensures DecRoute(EncRoute(x) + rest) == Some((x, rest))
    {
      var gateway := EncAddr(x.gateway) + rest;
      var destination := EncAddr(x.destination) + gateway;
      assert EncRoute(x) + rest == EncString(x.iface) + destination;
      assert DecString(EncString(x.iface) + destination) == Some((x.iface, destination));
    }
    forall c: seq<Cell> | DecRoute(c).Some?
      ensures c == EncRoute(DecRoute(c).value.0) + DecRoute(c).value.1
    {
      var r := DecRoute(c).value.0;
      var c1 := DecString(c).value.1;
      var c2 := DecAddr(c1).value.1;
      var c3 := DecAddr(c2).value.1;
      assert c == EncString(r.iface) + (EncAddr(r.destination) + (EncAddr(r.gateway) + c3));
    }
  }

  lemma {:induction false} AllInverts<T(!new)>(enc: T -> seq<Cell>, dec: seq<Cell> -> Decoded<T>, l: seq<T>,
                                                   rest: seq<Cell>)
    requires Inverts(enc, dec)
    ensures DecAll(dec, EncAll(enc, l) + rest, |l|) == Some((l, rest))
  {
    if l == [] {
      assert EncAll(enc, l) + rest == rest;
    } else {
      AllInverts(enc, dec, l[1..], rest);
      Regroup(enc(l[0]), EncAll(enc, l[1..]), rest);
      assert [l[0]] + l[1..] == l;
    }
  }

  lemma {:induction false} AllExact<T(!new)>(enc: T -> seq<Cell>, dec: seq<Cell> -> Decoded<T>, c: seq<Cell>, n: nat)
    requires Exact(enc, dec) && DecAll(dec, c, n).Some?
    ensures var (l, rest) := DecAll(dec, c, n).value; |l| == n && c == EncAll(enc, l) + rest
    decreases n
  {
    var (l, rest) := DecAll(dec, c, n).value;
    if n == 0 {
      assert EncAll(enc, l) + rest == rest;
    } else {
      var (x, c1) := dec(c).value;
      AllExact(enc, dec, c1, n - 1);
      var l1 := DecAll(dec, c1, n - 1).value.0;
      assert l == [x] + l1 && l[1..] == l1;
      Regroup(enc(x), EncAll(enc, l1), rest);
    }
  }

  /** Moving what follows six parts into the last of them. */
  lemma Flatten(a: seq<Cell>, b: seq<Cell>, c: seq<Cell>, d: seq<Cell>, e: seq<Cell>, f: seq<Cell>, rest: seq<Cell>)
    ensures (a + (b + (c + (d + (e + f))))) + rest == a + (b + (c + (d + (e + (f + rest)))))
  {
    Regroup(e, f, rest);
    Regroup(d, e + f, rest);
    Regroup(c, d + (e + f), rest);
    Regroup(b, c + (d + (e + f)), rest);
    Regroup(a, b + (c + (d + (e + f))), rest);
  }

  predicate Fits<T>(l: seq<T>) {
    |l| < 0x1_0000_0000
  }

  lemma ListInverts<T(!new)>(enc: T -> seq<Cell>, dec: seq<Cell> -> Decoded<T>, l: seq<T>, rest: seq<Cell>)
    requires Inverts(enc, dec) && Fits(l)
    ensures DecList(dec, EncList(enc, l) + rest) == Some((l, rest))
  {
    var c := EncList(enc, l) + rest;
    assert c[0] == U32(|l|) && c[1..] == EncAll(enc, l) + rest;
    assert DecList(dec, c) == DecAll(dec, c[1..], |l|);
    AllInverts(enc, dec, l, rest);
  }

  lemma ListExact<T(!new)>(enc: T -> seq<Cell>, dec: seq<Cell> -> Decoded<T>, c: seq<Cell>)
    requires Exact(enc, dec) && DecList(dec, c).Some?
    ensures var (l, rest) := DecList(dec, c).value; Fits(l) && c == EncList(enc, l) + rest
  {
    var (l, rest) := DecList(dec, c).value;
    AllExact(enc, dec, c[1..], c[0].u32);
    assert c == [c[0]] + c[1..];
    Regroup([c[0]], EncAll(enc, l), rest);
  }

  predicate ListsFit(l: Lists) {
    Fits(l.0) && Fits(l.1) && Fits(l.2)
  }

  lemma ListsInvert(l: Lists, rest: seq<Cell>)
    requires ListsFit(l)
    ensures DecLists(EncLists(l) + rest) == Some((l, rest))
  {
    AddrCodec();
    RouteCodec();
    var c2 := EncList(EncRoute, l.2) + rest;
    var c1 := EncList(EncAddr, l.1) + c2;
    ListInverts(EncRoute, DecRoute, l.2, rest);
    ListInverts(EncAddr, DecAddr, l.1, c2);
    ListInverts(EncAddr, DecAddr, l.0, c1);
    Regroup(EncList(EncAddr, l.1), EncList(EncRoute, l.2), rest);
    Regroup(EncList(EncAddr, l.0), EncList(EncAddr, l.1) + EncList(EncRoute, l.2), rest);
  }

  lemma ListsExact(c: seq<Cell>)
    requires DecLists(c).Some?
    ensures ListsFit(DecLists(c).value.0)
    ensures c == EncLists(DecLists(c).value.0) + DecLists(c).value.1
  {
    AddrCodec();
    RouteCodec();
    var (l, rest) := DecLists(c).value;
    ListExact(EncAddr, DecAddr, c);
    var c1 := DecList(DecAddr, c).value.1;
    ListExact(EncAddr, DecAddr, c1);
    var c2 := DecList(DecAddr, c1).value.1;
    ListExact(EncRoute, DecRoute, c2);
    Regroup(EncList(EncAddr, l.1), EncList(EncRoute, l.2), rest);
    Regroup(EncList(EncAddr, l.0), EncList(EncAddr, l.1) + EncList(EncRoute, l.2), rest);
  }

  lemma FlattenLinkInfo(x: NetLinkInfo, rest: seq<Cell>)
    ensures EncLinkInfo(x) + rest
         == EncString(x.ifaceName) + (EncString(x.domain) + (EncLists(ListsOf(x)) + ([U16(x.mtu)] + rest)))
  {
    Regroup(EncLists(ListsOf(x)), [U16(x.mtu)], rest);
    Regroup(EncString(x.domain), EncLists(ListsOf(x)) + [U16(x.mtu)], rest);
    Regroup(EncString(x.ifaceName), EncString(x.domain) + (EncLists(ListsOf(x)) + [U16(x.mtu)]), rest);
  }

  lemma FlattenStatic(x: StaticConfiguration, rest: seq<Cell>)
    ensures EncStatic(x) + rest == EncAddr(x.ipAddr) + (EncAddr(x.route) + (EncAddr(x.gate) + (EncAddr(x.netMask)
      + (EncList(EncAddr, x.dnsServers) + (EncString(x.domain) + rest)))))
  {
    Flatten(EncAddr(x.ipAddr), EncAddr(x.route), EncAddr(x.gate), EncAddr(x.netMask), EncList(EncAddr, x.dnsServers),
            EncString(x.domain), rest);
  }

  predicate LinkInfoFits(x: NetLinkInfo) {
    ListsFit(ListsOf(x))
  }

  lemma LinkInfoInverts(x: NetLinkInfo, rest: seq<Cell>)
    requires LinkInfoFits(x)
    ensures DecLinkInfo(EncLinkInfo(x) + rest) == Some((x, rest))
  {
    var c3 := [U16(x.mtu)] + rest;
    var c2 := EncLists(ListsOf(x)) + c3;
    var c1 := EncString(x.domain) + c2;
    FlattenLinkInfo(x, rest);
    StringReads(x.ifaceName, c1);
    StringReads(x.domain, c2);
    ListsInvert(ListsOf(x), c3);
    assert c3[1..] == rest;
  }

  /** Whatever decodes as a NetLinkInfo was the encoding of the result. */
  lemma LinkInfoExact(c: seq<Cell>)
    requires DecLinkInfo(c).Some?
    ensures LinkInfoFits(DecLinkInfo(c).value.0)
    ensures c == EncLinkInfo(DecLinkInfo(c).value.0) + DecLinkInfo(c).value.1
  {
    var (x, rest) := DecLinkInfo(c).value;
    StringExact(c);
    var c1 := DecString(c).value.1;
    StringExact(c1);
    var c2 := DecString(c1).value.1;
    ListsExact(c2);
    var c3 := DecLists(c2).value.1;
    assert c3 == [U16(x.mtu)] + rest;
    FlattenLinkInfo(x, rest);
  }

  /** A NetLinkInfo survives the trip, whatever follows it, exactly when its lists are shorter than 2^32. */
  lemma LinkInfoRoundTrip(x: NetLinkInfo, rest: seq<Cell>)
    ensures DecLinkInfo(EncLinkInfo(x) + rest) == Some((x, rest)) <==> LinkInfoFits(x)
  {
    if LinkInfoFits(x) {
      LinkInfoInverts(x, rest);
    } else if DecLinkInfo(EncLinkInfo(x) + rest).Some? {
      LinkInfoExact(EncLinkInfo(x) + rest);
    }
  }

  lemma StaticInverts(x: StaticConfiguration, rest: seq<Cell>)
    requires Fits(x.dnsServers)
    ensures DecStatic(EncStatic(x) + rest) == Some((x, rest))
  {
    var c5 := EncString(x.domain) + rest;
    var c4 := EncList(EncAddr, x.dnsServers) + c5;
    var c3 := EncAddr(x.netMask) + c4;
    var c2 := EncAddr(x.gate) + c3;
    var c1 := EncAddr(x.route) + c2;
    FlattenStatic(x, rest);
    AddrReads(x.ipAddr, c1);
    AddrReads(x.route, c2);
    AddrReads(x.gate, c3);
    AddrReads(x.netMask, c4);
    AddrCodec();
    ListInverts(EncAddr, DecAddr, x.dnsServers, c5);
    StringReads(x.domain, rest);
  }

  lemma StaticExact(c: seq<Cell>)
    requires DecStatic(c).Some?
    ensures Fits(DecStatic(c).value.0.dnsServers)
    ensures c == EncStatic(DecStatic(c).value.0) + DecStatic(c).value.1
  {
    AddrCodec();
    StringCodec();
    var (x, rest) := DecStatic(c).value;
    var c1 := DecAddr(c).value.1;
    var c2 := DecAddr(c1).value.1;
    var c3 := DecAddr(c2).value.1;
    var c4 := DecAddr(c3).value.1;
    ListExact(EncAddr, DecAddr, c4);
    FlattenStatic(x, rest);
  }

  lemma StaticRoundTrip(x: StaticConfiguration, rest: seq<Cell>)
    ensures DecStatic(EncStatic(x) + rest) == Some((x, rest)) <==> Fits(x.dnsServers)
  {
    if Fits(x.dnsServers) {
      StaticInverts(x, rest);
    } else if DecStatic(EncStatic(x) + rest).Some? {
      StaticExact(EncStatic(x) + rest);
    }
  }
}

/** The resolver calls of the DNS proxy and stub: lists of strings behind a signed count. */
module ResolverFormat {
  import opened Machine
  import opened ParcelFormat

  datatype ResolverConfig = ResolverConfig(
    netId: UInt16, baseTimeoutMsec: UInt16, retryCount: Byte, servers: seq<string>, domains: seq<string>)

  datatype ResolverInfo = ResolverInfo(
    servers: seq<string>, domains: seq<string>, baseTimeoutMsec: UInt16, retryCount: Byte, ret: Int32)

  function EncStrings(l: seq<string>): seq<Cell> {
    [I32(ToInt32(|l|))] + EncAll(EncString, l)
  }

  function EncConfig(x: ResolverConfig): seq<Cell> {
    [U16(x.netId), U16(x.baseTimeoutMsec), U8(x.retryCount)] + (EncStrings(x.servers) + EncStrings(x.domains))
  }

  function EncInfo(x: ResolverInfo): seq<Cell> {
    EncStrings(x.servers) + (EncStrings(x.domains) + [U16(x.baseTimeoutMsec), U8(x.retryCount), I32(x.ret)])
  }

  /** A loop `for (i = 0; i < size; ++i)`: a negative count reads nothing. */
  function Rounds(n: Int32): nat {
    if n < 0 then 0 else n
  }

  function DecStrings(c: seq<Cell>): Decoded<seq<string>> {
    if c != [] && c[0].I32? then DecAll(DecString, c[1..], Rounds(c[0].i32)) else None
  }

  function DecConfig(c: seq<Cell>): Decoded<ResolverConfig> {
    if |c| < 3 || !c[0].U16? || !c[1].U16? || !c[2].U8? then None
    else
      match DecStrings(c[3..])
      case None => None
      case Some((servers, c1)) =>
        match DecStrings(c1)
        case None => None
        case Some((domains, c2)) => Some((ResolverConfig(c[0].u16, c[1].u16, c[2].u8, servers, domains), c2))
  }

  /** `reply.ReadInt32()` as the value of the call: zero when there is no such cell. */
  function LastInt(c: seq<Cell>): (Int32, seq<Cell>) {
    if c != [] && c[0].I32? then (c[0].i32, c[1..]) else (0, c)
  }

  function DecInfo(c: seq<Cell>): Decoded<ResolverInfo> {
    match DecStrings(c)
    case None => None
    case Some((servers, c1)) =>
      match DecStrings(c1)
      case None => None
      case Some((domains, c2)) =>
        if |c2| < 2 || !c2[0].U16? || !c2[1].U8? then None
        else
          var (ret, c3) := LastInt(c2[2..]);
          Some((ResolverInfo(servers, domains, c2[0].u16, c2[1].u8, ret), c3))
  }

  predicate Fits31<T>(l: seq<T>) {
    |l| < 0x8000_0000
  }

  lemma StringsInvert(l: seq<string>, rest: seq<Cell>)
    requires Fits31(l)
    ensures DecStrings(EncStrings(l) + rest) == Some((l, rest))
  {
    var c := EncStrings(l) + rest;
    assert c[0] == I32(|l|) && c[1..] == EncAll(EncString, l) + rest;
    assert DecStrings(c) == DecAll(DecString, c[1..], |l|);
    StringCodec();
    AllInverts(EncString, DecString, l, rest);
  }

  lemma StringsAreShort(c: seq<Cell>)
    requires DecStrings(c).Some?
    ensures Fits31(DecStrings(c).value.0)
  {
    StringCodec();
    AllExact(EncString, DecString, c[1..], Rounds(c[0].i32));
  }

  lemma Cancel(a: seq<Cell>, b: seq<Cell>, c: seq<Cell>)
    ensures a + b == a + c <==> b == c
  {
    assert (a + b)[|a|..] == b && (a + c)[|a|..] == c;
  }

  /** What decodes as a list of strings was its encoding, in front of t, iff its count is not negative and t is left. */
  lemma StringsExactIff(c: seq<Cell>, t: seq<Cell>)
    requires DecStrings(c).Some?
    ensures var (l, rest) := DecStrings(c).value;
      c == EncStrings(l) + t <==> c[0].i32 >= 0 && t == rest
  {
    StringCodec();
    var (l, rest) := DecStrings(c).value;
    AllExact(EncString, DecString, c[1..], Rounds(c[0].i32));
    var count := [I32(ToInt32(|l|))];
    assert ToInt32(|l|) == Rounds(c[0].i32);
    assert (EncStrings(l) + t)[0] == count[0];
    if c[0].i32 >= 0 {
      Regroup(count, EncAll(EncString, l), rest);
      assert c == count + c[1..];
      Cancel(EncStrings(l), rest, t);
    }
  }

  /** Two lists of strings, one behind the other. */
  lemma TwoListsExactIff(c: seq<Cell>, t: seq<Cell>)
    requires DecStrings(c).Some? && DecStrings(DecStrings(c).value.1).Some?
    ensures var (l1, c1) := DecStrings(c).value; var (l2, rest) := DecStrings(c1).value;
      c == (EncStrings(l1) + EncStrings(l2)) + t <==> c[0].i32 >= 0 && c1[0].i32 >= 0 && t == rest
  {
    var (l1, c1) := DecStrings(c).value;
    var (l2, rest) := DecStrings(c1).value;
    Regroup(EncStrings(l1), EncStrings(l2), t);
    StringsExactIff(c, EncStrings(l2) + t);
    StringsExactIff(c1, t);
  }

  lemma ConfigInverts(x: ResolverConfig, rest: seq<Cell>)
    requires Fits31(x.servers) && Fits31(x.domains)
    ensures DecConfig(EncConfig(x) + rest) == Some((x, rest))
  {
    var head := [U16(x.netId), U16(x.baseTimeoutMsec), U8(x.retryCount)];
    var lists := EncStrings(x.servers) + EncStrings(x.domains);
    Regroup(head, lists, rest);
    Regroup(EncStrings(x.servers), EncStrings(x.domains), rest);
    assert (EncConfig(x) + rest)[3..] == EncStrings(x.servers) + (EncStrings(x.domains) + rest);
    StringsInvert(x.servers, EncStrings(x.domains) + rest);
    StringsInvert(x.domains, rest);
  }

  /** SetResolverConfig arguments reach the stub unchanged exactly when both lists are shorter than 2^31. */
  lemma ConfigRoundTrip(x: ResolverConfig, rest: seq<Cell>)
    ensures DecConfig(EncConfig(x) + rest) == Some((x, rest)) <==> Fits31(x.servers) && Fits31(x.domains)
  {
    var c := EncConfig(x) + rest;
    if Fits31(x.servers) && Fits31(x.domains) {
      ConfigInverts(x, rest);
    } else if DecConfig(c).Some? {
      StringsAreShort(c[3..]);
      StringsAreShort(DecStrings(c[3..]).value.1);
    }
  }

  /** The cells that SetResolverConfig's arguments are read from are their encoding iff both counts are not negative. */
  lemma ConfigExactIff(c: seq<Cell>)
    requires DecConfig(c).Some?
    ensures var (x, rest) := DecConfig(c).value;
      c == EncConfig(x) + rest <==> c[3].i32 >= 0 && DecStrings(c[3..]).value.1[0].i32 >= 0
  {
    var (x, rest) := DecConfig(c).value;
    var head, lists := c[..3], EncStrings(x.servers) + EncStrings(x.domains);
    TwoListsExactIff(c[3..], rest);
    assert head == [U16(x.netId), U16(x.baseTimeoutMsec), U8(x.retryCount)] && c == head + c[3..];
    Regroup(head, lists, rest);
    Cancel(head, c[3..], lists + rest);
  }

  /** It fails on negative counts: these cells decode as two empty lists, and are not what encodes them. */
  lemma NegativeCount()
    ensures var c := [U16(0), U16(0), U8(0), I32(-1), I32(0)];
      && DecConfig(c) == Some((ResolverConfig(0, 0, 0, [], []), []))
      && EncConfig(ResolverConfig(0, 0, 0, [], [])) == [U16(0), U16(0), U8(0), I32(0), I32(0)]
  {
    var c := [U16(0), U16(0), U8(0), I32(-1), I32(0)];
    assert c[3..] == [I32(-1), I32(0)] && c[3..][1..] == [I32(0)] && [I32(0)][1..] == [];
  }

  lemma InfoInverts(x: ResolverInfo, rest: seq<Cell>)
    requires Fits31(x.servers) && Fits31(x.domains)
    ensures DecInfo(EncInfo(x) + rest) == Some((x, rest))
  {
    var tail := [U16(x.baseTimeoutMsec), U8(x.retryCount), I32(x.ret)];
    Regroup(EncStrings(x.domains), tail, rest);
    Regroup(EncStrings(x.servers), EncStrings(x.domains) + tail, rest);
    StringsInvert(x.servers, EncStrings(x.domains) + (tail + rest));
    StringsInvert(x.domains, tail + rest);
    assert (tail + rest)[2..] == [I32(x.ret)] + rest && ([I32(x.ret)] + rest)[1..] == rest;
  }

  /** The same for the reply of GetResolverInfo. */
  lemma InfoRoundTrip(x: ResolverInfo, rest: seq<Cell>)
    ensures DecInfo(EncInfo(x) + rest) == Some((x, rest)) <==> Fits31(x.servers) && Fits31(x.domains)
  {
    var c := EncInfo(x) + rest;
    if Fits31(x.servers) && Fits31(x.domains) {
      InfoInverts(x, rest);
    } else if DecInfo(c).Some? {
      StringsAreShort(c);
      StringsAreShort(DecStrings(c).value.1);
    }
  }

  /** The same for GetResolverInfo, whose last, unchecked read must find its cell as well. */
  lemma InfoExactIff(c: seq<Cell>)
    requires DecInfo(c).Some?
    ensures var (x, rest) := DecInfo(c).value; var c1 := DecStrings(c).value.1; var c2 := DecStrings(c1).value.1;
      c == EncInfo(x) + rest <==> c[0].i32 >= 0 && c1[0].i32 >= 0 && |c2| > 2 && c2[2].I32?
  {
    var (x, rest) := DecInfo(c).value;
    var c1 := DecStrings(c).value.1;
    var c2 := DecStrings(c1).value.1;
    var lists := EncStrings(x.servers) + EncStrings(x.domains);
    var tail := [U16(x.baseTimeoutMsec), U8(x.retryCount), I32(x.ret)];
    TwoListsExactIff(c, tail + rest);
    Regroup(EncStrings(x.servers), EncStrings(x.domains), tail);
    Regroup(lists, tail, rest);
    assert EncInfo(x) + rest == lists + (tail + rest);
    InfoTail(c2, x.baseTimeoutMsec, x.retryCount, x.ret, rest);
  }

  /** The end of the reply. */
  lemma InfoTail(c: seq<Cell>, baseTimeoutMsec: UInt16, retryCount: Byte, ret: Int32, rest: seq<Cell>)
    requires |c| >= 2 && c[0] == U16(baseTimeoutMsec) && c[1] == U8(retryCount) && LastInt(c[2..]) == (ret, rest)
    ensures c == [U16(baseTimeoutMsec), U8(retryCount), I32(ret)] + rest <==> |c| > 2 && c[2].I32?
  {
    if |c| > 2 {
      assert c[2..] == [c[2]] + c[3..];
    }
  }
}
