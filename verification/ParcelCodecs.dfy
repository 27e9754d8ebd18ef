/**
 Marshalling and Unmarshalling as the source writes them: step by step, on a parcel that is changed
 in place and whose writes fail once it is full.
 */
module Parcels {
  import opened Machine
  import opened LinkTypes
  import opened ParcelFormat

  class Parcel {
    var cells: seq<Cell>
    var pos: nat                // the read cursor
    const capacity: nat

    ghost predicate Valid()
      reads this
    {
      pos <= |cells| <= capacity
    }

    ghost function Remaining(): seq<Cell>
      requires Valid()
      reads this
    {
      cells[pos..]
    }

    constructor (capacity: nat)
      ensures Valid() && cells == [] && pos == 0 && this.capacity == capacity
    {
      cells, pos := [], 0;
      this.capacity := capacity;
    }

    /** s was written behind `before`: all of it, or, when it did not fit, what did fit. */
    ghost predicate Wrote(before: seq<Cell>, s: seq<Cell>, ok: bool)
      reads this
    {
      && |before| <= capacity
      && (ok ==> cells == before + s && |before| + |s| <= capacity)
      && (!ok ==> |before| + |s| > capacity && cells == before + s[..capacity - |before|])
    }

    /** r and the new cursor are what the decoder says. */
    ghost predicate Read<T>(d: Decoded<T>, r: Option<T>)
      requires Valid()
      reads this
    {
      && (d.None? ==> r.None?)
      && (d.Some? ==> r == Some(d.value.0) && Remaining() == d.value.1)
    }

    method Write(c: Cell) returns (ok: bool)
      requires Valid()
      modifies this`cells
      ensures Valid() && Wrote(old(cells), [c], ok)
    {
      ok := |cells| < capacity;
      if ok {
        cells := cells + [c];
      }
    }

    /** Write, seen as the k-th cell of a longer text. */
    method WriteNth(c: Cell, ghost before: seq<Cell>, ghost s: seq<Cell>, ghost k: nat) returns (ok: bool)
      requires Valid() && k < |s| && s[k] == c && cells == before + s[..k]
      modifies this`cells
      ensures Valid()
      ensures if ok then cells == before + s[..k + 1] else Wrote(before, s, false)
    {
      ok := Write(c);
      if ok {
        assert s[..k + 1] == s[..k] + [c];
      }
    }

    /** Takes the next cell if there is one. */
    method Next() returns (c: Option<Cell>)
      requires Valid()
      modifies this`pos
      ensures Valid()
      ensures c == if old(Remaining()) == [] then None else Some(old(Remaining())[0])
      ensures c.Some? ==> Remaining() == old(Remaining())[1..]
    {
      if pos == |cells| {
        return None;
      }
      c := Some(cells[pos]);
      pos := pos + 1;
    }

    method ReadString() returns (r: Option<string>)
      requires Valid()
      modifies this`pos
      ensures Valid() && Read(DecString(old(Remaining())), r)
    {
      var c := Next();
      r := if c.Some? && c.value.Str? then Some(c.value.str) else None;
    }

    method ReadUint16() returns (r: Option<UInt16>)
      requires Valid()
      modifies this`pos
      ensures Valid() && Read(DecU16(old(Remaining())), r)
    {
      var c := Next();
      r := if c.Some? && c.value.U16? then Some(c.value.u16) else None;
    }

    method ReadUint8() returns (r: Option<Byte>)
      requires Valid()
      modifies this`pos
      ensures Valid() && Read(DecU8(old(Remaining())), r)
    {
      var c := Next();
      r := if c.Some? && c.value.U8? then Some(c.value.u8) else None;
    }

    method ReadUint32() returns (r: Option<UInt32>)
      requires Valid()
      modifies this`pos
      ensures Valid() && Read(DecU32(old(Remaining())), r)
    {
      var c := Next();
      r := if c.Some? && c.value.U32? then Some(c.value.u32) else None;
    }

    method ReadInt32() returns (r: Option<Int32>)
      requires Valid()
      modifies this`pos
      ensures Valid() && Read(DecI32(old(Remaining())), r)
    {
      var c := Next();
      r := if c.Some? && c.value.I32? then Some(c.value.i32) else None;
    }
  }

  /** A part that went wrong or right, seen from the whole it belongs to. */
  lemma PartWritten(p: Parcel, before: seq<Cell>, done: seq<Cell>, part: seq<Cell>, more: seq<Cell>, ok: bool)
    requires p.Wrote(before + done, part, ok)
    ensures ok ==> p.cells == before + (done + part)
    ensures !ok ==> p.Wrote(before, done + (part + more), false)
  {
    if ok {
      Regroup(before, done, part);
    } else {
      var room := p.capacity - |before|;
      var whole := done + (part + more);
      assert whole[..room] == done + part[..room - |done|];
      Regroup(before, done, part[..room - |done|]);
    }
  }

  method MarshalAddr(parcel: Parcel, a: INetAddr) returns (ok: bool)
    requires parcel.Valid()
    modifies parcel`cells
    ensures parcel.Valid() && parcel.Wrote(old(parcel.cells), EncAddr(a), ok)
  {
    ghost var before, s := parcel.cells, EncAddr(a);
    ok := parcel.WriteNth(U8(a.addrType), before, s, 0);
    if !ok { return; }
    ok := parcel.WriteNth(U8(a.family), before, s, 1);
    if !ok { return; }
    ok := parcel.WriteNth(U8(a.prefixlen), before, s, 2);
    if !ok { return; }
    ok := parcel.WriteNth(Str(a.address), before, s, 3);
    if !ok { return; }
    ok := parcel.WriteNth(Str(a.netMask), before, s, 4);
    if !ok { return; }
    ok := parcel.WriteNth(Str(a.hostName), before, s, 5);
  }

  method MarshalRoute(parcel: Parcel, r: Route) returns (ok: bool)
    requires parcel.Valid()
    modifies parcel`cells
    ensures parcel.Valid() && parcel.Wrote(old(parcel.cells), EncRoute(r), ok)
  {
    ghost var before := parcel.cells;
    ghost var iface, destination, gateway := [Str(r.iface)], EncAddr(r.destination), EncAddr(r.gateway);
    assert before + [] == before;
    ok := parcel.Write(Str(r.iface));
    PartWritten(parcel, before, [], iface, destination + gateway, ok);
    if !ok { return; }
    ok := MarshalAddr(parcel, r.destination);
    PartWritten(parcel, before, iface, destination, gateway, ok);
    if !ok { return; }
    ok := MarshalAddr(parcel, r.gateway);
    PartWritten(parcel, before, iface + destination, gateway, [], ok);
  }
}

/** NetLinkInfo, StaticConfiguration and the resolver arguments. */
module ParcelCodecs {
  import opened Machine
  import opened LinkTypes
  import opened ParcelFormat
  import opened ResolverFormat
  import opened Parcels

  lemma {:induction false} EncAllSplit<T>(enc: T -> seq<Cell>, l: seq<T>, i: nat)
    requires i <= |l|
    ensures EncAll(enc, l) == EncAll(enc, l[..i]) + EncAll(enc, l[i..])
  {
    if i == 0 {
      assert l[i..] == l && l[..i] == [];
    } else {
      EncAllSplit(enc, l[1..], i - 1);
      assert l[..i][1..] == l[1..][..i - 1] && l[1..][i - 1..] == l[i..];
      Regroup(enc(l[0]), EncAll(enc, l[..i][1..]), EncAll(enc, l[i..]));
    }
  }

  /** What a list loop has written before and after its i-th round. */
  lemma ListRound<T>(enc: T -> seq<Cell>, l: seq<T>, i: nat)
    requires i < |l|
    ensures EncAll(enc, l[..i + 1]) == EncAll(enc, l[..i]) + enc(l[i])
    ensures EncAll(enc, l) == EncAll(enc, l[..i]) + (enc(l[i]) + EncAll(enc, l[i + 1..]))
  {
    EncAllSplit(enc, l[..i + 1], i);
    assert l[..i + 1][..i] == l[..i] && l[..i + 1][i..] == [l[i]];
    assert EncAll(enc, [l[i]]) == enc(l[i]) + EncAll(enc, [l[i]][1..]);
    EncAllSplit(enc, l, i);
    assert l[i..][1..] == l[i + 1..];
  }

  method MarshalAddrList(parcel: Parcel, l: seq<INetAddr>) returns (ok: bool)
    requires parcel.Valid()
    modifies parcel`cells
    ensures parcel.Valid() && parcel.Wrote(old(parcel.cells), EncList(EncAddr, l), ok)
  {
    ghost var before, count, all := parcel.cells, [U32(ToUInt32(|l|))], EncAll(EncAddr, l);
    ok := parcel.WriteNth(U32(ToUInt32(|l|)), before, count + all, 0);
    if !ok { return; }
    assert (count + all)[..1] == count && count + [] == count;
    var i := 0;
    while i < |l|
      invariant 0 <= i <= |l| && ok && parcel.Valid()
      invariant parcel.cells == before + (count + EncAll(EncAddr, l[..i]))
    {
      ghost var done := EncAll(EncAddr, l[..i]);
      ListRound(EncAddr, l, i);
      ok := MarshalAddr(parcel, l[i]);
      PartWritten(parcel, before, count + done, EncAddr(l[i]), EncAll(EncAddr, l[i + 1..]), ok);
      Regroup(count, done, EncAddr(l[i]));
      Regroup(count, done, EncAddr(l[i]) + EncAll(EncAddr, l[i + 1..]));
      if !ok { return; }
      i := i + 1;
    }
    assert l[..i] == l;
  }

  method MarshalRouteList(parcel: Parcel, l: seq<Route>) returns (ok: bool)
    requires parcel.Valid()
    modifies parcel`cells
    ensures parcel.Valid() && parcel.Wrote(old(parcel.cells), EncList(EncRoute, l), ok)
  {
    ghost var before, count, all := parcel.cells, [U32(ToUInt32(|l|))], EncAll(EncRoute, l);
    ok := parcel.WriteNth(U32(ToUInt32(|l|)), before, count + all, 0);
    if !ok { return; }
    assert (count + all)[..1] == count && count + [] == count;
    var i := 0;
    while i < |l|
      invariant 0 <= i <= |l| && ok && parcel.Valid()
      invariant parcel.cells == before + (count + EncAll(EncRoute, l[..i]))
    {
      ghost var done := EncAll(EncRoute, l[..i]);
      ListRound(EncRoute, l, i);
      ok := MarshalRoute(parcel, l[i]);
      PartWritten(parcel, before, count + done, EncRoute(l[i]), EncAll(EncRoute, l[i + 1..]), ok);
      Regroup(count, done, EncRoute(l[i]));
      Regroup(count, done, EncRoute(l[i]) + EncAll(EncRoute, l[i + 1..]));
      if !ok { return; }
      i := i + 1;
    }
    assert l[..i] == l;
  }

  /** Marshalling of the three lists of a NetLinkInfo, one after the other. */
  method MarshalLists(parcel: Parcel, x: NetLinkInfo) returns (ok: bool)
    requires parcel.Valid()
    modifies parcel`cells
    ensures parcel.Valid() && parcel.Wrote(old(parcel.cells), EncLists(ListsOf(x)), ok)
  {
    ghost var before := parcel.cells;
    ghost var addrs, dnses, routes :=
      EncList(EncAddr, x.netAddrList), EncList(EncAddr, x.dnsList), EncList(EncRoute, x.routeList);
    assert before + [] == before;
    ok := MarshalAddrList(parcel, x.netAddrList);
    PartWritten(parcel, before, [], addrs, dnses + routes, ok);
    assert [] + (addrs + (dnses + routes)) == addrs + (dnses + routes) && [] + addrs == addrs;
    if !ok { return; }
    ok := MarshalAddrList(parcel, x.dnsList);
    PartWritten(parcel, before, addrs, dnses, routes, ok);
    if !ok { return; }
    ok := MarshalRouteList(parcel, x.routeList);
    PartWritten(parcel, before, addrs + dnses, routes, [], ok);
    Regroup(addrs, dnses, routes);
    assert routes + [] == routes;
  }

  lemma LinkInfoParts(x: NetLinkInfo)
    ensures var s := EncLinkInfo(x);
      && |s| > 2 && s[0] == Str(x.ifaceName) && s[1] == Str(x.domain)
      && s == s[..2] + (EncLists(ListsOf(x)) + [U16(x.mtu)])
  {
    var s, rest := EncLinkInfo(x), EncLists(ListsOf(x)) + [U16(x.mtu)];
    Regroup([Str(x.ifaceName)], [Str(x.domain)], rest);
    assert s[..2] == [Str(x.ifaceName)] + [Str(x.domain)];
  }

  /** The member function. */
  method MarshalLinkInfo(parcel: Parcel, x: NetLinkInfo) returns (ok: bool)
    requires parcel.Valid()
    modifies parcel`cells
    ensures parcel.Valid() && parcel.Wrote(old(parcel.cells), EncLinkInfo(x), ok)
  {
    ghost var before, s := parcel.cells, EncLinkInfo(x);
    ghost var lists, mtu := EncLists(ListsOf(x)), [U16(x.mtu)];
    LinkInfoParts(x);
    ok := parcel.WriteNth(Str(x.ifaceName), before, s, 0);
    if !ok { return; }
    ok := parcel.WriteNth(Str(x.domain), before, s, 1);
    if !ok { return; }
    ok := MarshalLists(parcel, x);
    PartWritten(parcel, before, s[..2], lists, mtu, ok);
    if !ok { return; }
    ok := parcel.Write(U16(x.mtu));
    PartWritten(parcel, before, s[..2] + lists, mtu, [], ok);
    Regroup(s[..2], lists, mtu);
    assert mtu + [] == mtu;
  }

  /** The static function: nothing is written for a null object, and otherwise the same as the member writes. */
  method MarshalLinkInfoObject(parcel: Parcel, obj: Option<NetLinkInfo>) returns (ok: bool)
    requires parcel.Valid()
    modifies parcel`cells
    ensures parcel.Valid()
    ensures obj.None? ==> !ok && parcel.cells == old(parcel.cells)
    ensures obj.Some? ==> parcel.Wrote(old(parcel.cells), EncLinkInfo(obj.value), ok)
  {
    if obj.None? {
      return false;
    }
    ghost var before, s := parcel.cells, EncLinkInfo(obj.value);
    ghost var lists, mtu := EncLists(ListsOf(obj.value)), [U16(obj.value.mtu)];
    LinkInfoParts(obj.value);
    ok := parcel.WriteNth(Str(obj.value.ifaceName), before, s, 0);
    if !ok { return; }
    ok := parcel.WriteNth(Str(obj.value.domain), before, s, 1);
    if !ok { return; }
    ok := MarshalLists(parcel, obj.value);
    PartWritten(parcel, before, s[..2], lists, mtu, ok);
    if !ok { return; }
    ok := parcel.Write(U16(obj.value.mtu));
    PartWritten(parcel, before, s[..2] + lists, mtu, [], ok);
    Regroup(s[..2], lists, mtu);
    assert mtu + [] == mtu;
  }

  method MarshalStatic(parcel: Parcel, x: StaticConfiguration) returns (ok: bool)
    requires parcel.Valid()
    modifies parcel`cells
    ensures parcel.Valid() && parcel.Wrote(old(parcel.cells), EncStatic(x), ok)
  {
    ghost var before := parcel.cells;
    ghost var ip, route, gate, mask, dns, domain :=
      EncAddr(x.ipAddr), EncAddr(x.route), EncAddr(x.gate), EncAddr(x.netMask),
      EncList(EncAddr, x.dnsServers), [Str(x.domain)];
    StaticParts(ip, route, gate, mask, dns, domain);
    assert before + [] == before;
    ok := MarshalAddr(parcel, x.ipAddr);
    PartWritten(parcel, before, [], ip, route + (gate + (mask + (dns + domain))), ok);
    if !ok { return; }
    ok := MarshalAddr(parcel, x.route);
    PartWritten(parcel, before, ip, route, gate + (mask + (dns + domain)), ok);
    if !ok { return; }
    ok := MarshalAddr(parcel, x.gate);
    PartWritten(parcel, before, ip + route, gate, mask + (dns + domain), ok);
    if !ok { return; }
    ok := MarshalAddr(parcel, x.netMask);
    PartWritten(parcel, before, ip + route + gate, mask, dns + domain, ok);
    if !ok { return; }
    ok := MarshalAddrList(parcel, x.dnsServers);
    PartWritten(parcel, before, ip + route + gate + mask, dns, domain, ok);
    if !ok { return; }
    ok := parcel.Write(Str(x.domain));
    PartWritten(parcel, before, ip + route + gate + mask + dns, domain, [], ok);
  }

  /** The six parts, grouped from the left and from the right. */
  lemma StaticParts(ip: seq<Cell>, route: seq<Cell>, gate: seq<Cell>, mask: seq<Cell>, dns: seq<Cell>,
                    domain: seq<Cell>)
    ensures var s := ip + (route + (gate + (mask + (dns + domain))));
      && [] + s == s && [] + ip == ip && domain + [] == domain
      && ip + route + (gate + (mask + (dns + domain))) == s
      && ip + route + gate + (mask + (dns + domain)) == s
      && ip + route + gate + mask + (dns + domain) == s
      && ip + route + gate + mask + dns + domain == s
  {
    Regroup(ip, route, gate + (mask + (dns + domain)));
    Regroup(ip + route, gate, mask + (dns + domain));
    Regroup(ip + route + gate, mask, dns + domain);
    Regroup(ip + route + gate + mask, dns, domain);
  }

  // Unmarshalling

  /** The cells that are left after one more of c has been read. */
  lemma OneFurther(c: seq<Cell>)
    ensures forall k: nat :: k < |c| ==> c[k..] != [] && c[k..][0] == c[k] && c[k..][1..] == c[k + 1..]
    ensures c[0..] == c && c[|c|..] == []
  {
  }

  method UnmarshalAddr(parcel: Parcel) returns (r: Option<INetAddr>)
    requires parcel.Valid()
    modifies parcel`pos
    ensures parcel.Valid() && parcel.Read(DecAddr(old(parcel.Remaining())), r)
  {
    ghost var c := parcel.Remaining();
    OneFurther(c);
    var addrType := parcel.ReadUint8();
    if addrType.None? { return None; }
    assert |c| > 0 && c[0].U8? && parcel.Remaining() == c[1..];
    var family := parcel.ReadUint8();
    if family.None? { return None; }
    assert |c| > 1 && c[1].U8? && parcel.Remaining() == c[2..];
    var prefixlen := parcel.ReadUint8();
    if prefixlen.None? { return None; }
    assert |c| > 2 && c[2].U8? && parcel.Remaining() == c[3..];
    var address := parcel.ReadString();
    if address.None? { return None; }
    assert |c| > 3 && c[3].Str? && parcel.Remaining() == c[4..];
    var netMask := parcel.ReadString();
    if netMask.None? { return None; }
    assert |c| > 4 && c[4].Str? && parcel.Remaining() == c[5..];
    var hostName := parcel.ReadString();
    if hostName.None? { return None; }
    assert |c| > 5 && c[5].Str? && parcel.Remaining() == c[6..];
    r := Some(INetAddr(addrType.value, family.value, prefixlen.value, address.value, netMask.value, hostName.value));
  }

  method UnmarshalRoute(parcel: Parcel) returns (r: Option<Route>)
    requires parcel.Valid()
    modifies parcel`pos
    ensures parcel.Valid() && parcel.Read(DecRoute(old(parcel.Remaining())), r)
  {
    var iface := parcel.ReadString();
    if iface.None? { return None; }
    var destination := UnmarshalAddr(parcel);
    if destination.None? { return None; }
    var gateway := UnmarshalAddr(parcel);
    if gateway.None? { return None; }
    r := Some(Route(iface.value, destination.value, gateway.value));
  }

  /** What is decoded from here on, in front of what a loop has collected. */
  ghost predicate Continues<T>(whole: Decoded<seq<T>>, got: seq<T>, rest: Decoded<seq<T>>) {
    && (rest.None? ==> whole.None?)
    && (rest.Some? ==> whole == Some((got + rest.value.0, rest.value.1)))
  }

  lemma FirstRound<T>(dec: seq<Cell> -> Decoded<T>, c: seq<Cell>)
    ensures DecU32(c).None? ==> DecList(dec, c).None?
    ensures DecU32(c).Some? ==> Continues(DecList(dec, c), [], DecAll(dec, DecU32(c).value.1, DecU32(c).value.0))
  {
    if DecList(dec, c).Some? {
      assert [] + DecList(dec, c).value.0 == DecList(dec, c).value.0;
    }
  }

  lemma LastRound<T>(dec: seq<Cell> -> Decoded<T>, whole: Decoded<seq<T>>, got: seq<T>, c: seq<Cell>)
    requires Continues(whole, got, DecAll(dec, c, 0))
    ensures whole == Some((got, c))
  {
    assert got + [] == got;
  }

  lemma NextRound<T>(dec: seq<Cell> -> Decoded<T>, whole: Decoded<seq<T>>, got: seq<T>, c: seq<Cell>, n: nat)
    requires Continues(whole, got, DecAll(dec, c, n)) && 0 < n
    ensures dec(c).None? ==> whole.None?
    ensures dec(c).Some? ==> Continues(whole, got + [dec(c).value.0], DecAll(dec, dec(c).value.1, n - 1))
  {
    if dec(c).Some? && DecAll(dec, dec(c).value.1, n - 1).Some? {
      Regroup(got, [dec(c).value.0], DecAll(dec, dec(c).value.1, n - 1).value.0);
    }
  }

  /** One round of the list loop below. */
  method NextAddr(parcel: Parcel, l: seq<INetAddr>, ghost whole: Decoded<seq<INetAddr>>, ghost n: nat)
    returns (r: Option<seq<INetAddr>>)
    requires parcel.Valid() && 0 < n && Continues(whole, l, DecAll(DecAddr, parcel.Remaining(), n))
    modifies parcel`pos
    ensures parcel.Valid()
    ensures r.None? ==> whole.None?
    ensures r.Some? ==> Continues(whole, r.value, DecAll(DecAddr, parcel.Remaining(), n - 1))
  {
    NextRound(DecAddr, whole, l, parcel.Remaining(), n);
    var x := UnmarshalAddr(parcel);
    r := if x.None? then None else Some(l + [x.value]);
  }

  method UnmarshalAddrList(parcel: Parcel) returns (r: Option<seq<INetAddr>>)
    requires parcel.Valid()
    modifies parcel`pos
    ensures parcel.Valid() && parcel.Read(DecList(DecAddr, old(parcel.Remaining())), r)
  {
    ghost var whole := DecList(DecAddr, parcel.Remaining());
    FirstRound(DecAddr, parcel.Remaining());
    var size := parcel.ReadUint32();
    if size.None? { return None; }
    var l := [];
    var i: nat := 0;
    ghost var left: nat := size.value;
    while i < size.value
      invariant i + left == size.value && parcel.Valid()
      invariant Continues(whole, l, DecAll(DecAddr, parcel.Remaining(), left))
    {
      var longer := NextAddr(parcel, l, whole, left);
      if longer.None? { return None; }
      l := longer.value;
      i, left := i + 1, left - 1;
    }
    LastRound(DecAddr, whole, l, parcel.Remaining());
    r := Some(l);
  }

  /** One round of the list loop below. */
  method NextRoute(parcel: Parcel, l: seq<Route>, ghost whole: Decoded<seq<Route>>, ghost n: nat)
    returns (r: Option<seq<Route>>)
    requires parcel.Valid() && 0 < n && Continues(whole, l, DecAll(DecRoute, parcel.Remaining(), n))
    modifies parcel`pos
    ensures parcel.Valid()
    ensures r.None? ==> whole.None?
    ensures r.Some? ==> Continues(whole, r.value, DecAll(DecRoute, parcel.Remaining(), n - 1))
  {
    NextRound(DecRoute, whole, l, parcel.Remaining(), n);
    var x := UnmarshalRoute(parcel);
    r := if x.None? then None else Some(l + [x.value]);
  }

  method UnmarshalRouteList(parcel: Parcel) returns (r: Option<seq<Route>>)
    requires parcel.Valid()
    modifies parcel`pos
    ensures parcel.Valid() && parcel.Read(DecList(DecRoute, old(parcel.Remaining())), r)
  {
    ghost var whole := DecList(DecRoute, parcel.Remaining());
    FirstRound(DecRoute, parcel.Remaining());
    var size := parcel.ReadUint32();
    if size.None? { return None; }
    var l := [];
    var i: nat := 0;
    ghost var left: nat := size.value;
    while i < size.value
      invariant i + left == size.value && parcel.Valid()
      invariant Continues(whole, l, DecAll(DecRoute, parcel.Remaining(), left))
    {
      var longer := NextRoute(parcel, l, whole, left);
      if longer.None? { return None; }
      l := longer.value;
      i, left := i + 1, left - 1;
    }
    LastRound(DecRoute, whole, l, parcel.Remaining());
    r := Some(l);
  }

  method UnmarshalLinkInfo(parcel: Parcel) returns (r: Option<NetLinkInfo>)
    requires parcel.Valid()
    modifies parcel`pos
    ensures parcel.Valid() && parcel.Read(DecLinkInfo(old(parcel.Remaining())), r)
  {
    var ifaceName := parcel.ReadString();
    if ifaceName.None? { return None; }
    var domain := parcel.ReadString();
    if domain.None? { return None; }
    var addrs := UnmarshalAddrList(parcel);
    if addrs.None? { return None; }
    var dnses := UnmarshalAddrList(parcel);
    if dnses.None? { return None; }
    var routes := UnmarshalRouteList(parcel);
    if routes.None? { return None; }
    var mtu := parcel.ReadUint16();
    if mtu.None? { return None; }
    r := Some(NetLinkInfo(ifaceName.value, domain.value, addrs.value, dnses.value, routes.value, mtu.value));
  }

  method UnmarshalStatic(parcel: Parcel) returns (r: Option<StaticConfiguration>)
    requires parcel.Valid()
    modifies parcel`pos
    ensures parcel.Valid() && parcel.Read(DecStatic(old(parcel.Remaining())), r)
  {
    var ipAddr := UnmarshalAddr(parcel);
    if ipAddr.None? { return None; }
    var route := UnmarshalAddr(parcel);
    if route.None? { return None; }
    var gate := UnmarshalAddr(parcel);
    if gate.None? { return None; }
    var netMask := UnmarshalAddr(parcel);
    if netMask.None? { return None; }
    var dnses := UnmarshalAddrList(parcel);
    if dnses.None? { return None; }
    var domain := parcel.ReadString();
    if domain.None? { return None; }
    r := Some(StaticConfiguration(ipAddr.value, route.value, gate.value, netMask.value, dnses.value, domain.value));
  }

  // The resolver calls

  /** The proxy's loop over a list of strings behind its count. */
  method MarshalStrings(parcel: Parcel, l: seq<string>) returns (ok: bool)
    requires parcel.Valid()
    modifies parcel`cells
    ensures parcel.Valid() && parcel.Wrote(old(parcel.cells), EncStrings(l), ok)
  {
    ghost var before, count, all := parcel.cells, [I32(ToInt32(|l|))], EncAll(EncString, l);
    ok := parcel.WriteNth(I32(ToInt32(|l|)), before, count + all, 0);
    if !ok { return; }
    assert (count + all)[..1] == count && count + [] == count;
    var i := 0;
    while i < |l|
      invariant 0 <= i <= |l| && ok && parcel.Valid()
      invariant parcel.cells == before + (count + EncAll(EncString, l[..i]))
    {
      ghost var done := EncAll(EncString, l[..i]);
      ListRound(EncString, l, i);
      ok := parcel.Write(Str(l[i]));
      PartWritten(parcel, before, count + done, EncString(l[i]), EncAll(EncString, l[i + 1..]), ok);
      Regroup(count, done, EncString(l[i]));
      Regroup(count, done, EncString(l[i]) + EncAll(EncString, l[i + 1..]));
      if !ok { return; }
      i := i + 1;
    }
    assert l[..i] == l;
  }

  /** One round of the list loop below. */
  method NextString(parcel: Parcel, l: seq<string>, ghost whole: Decoded<seq<string>>, ghost n: nat)
    returns (r: Option<seq<string>>)
    requires parcel.Valid() && 0 < n && Continues(whole, l, DecAll(DecString, parcel.Remaining(), n))
    modifies parcel`pos
    ensures parcel.Valid()
    ensures r.None? ==> whole.None?
    ensures r.Some? ==> Continues(whole, r.value, DecAll(DecString, parcel.Remaining(), n - 1))
  {
    NextRound(DecString, whole, l, parcel.Remaining(), n);
    var x := parcel.ReadString();
    r := if x.None? then None else Some(l + [x.value]);
  }

  method UnmarshalStrings(parcel: Parcel) returns (r: Option<seq<string>>)
    requires parcel.Valid()
    modifies parcel`pos
    ensures parcel.Valid() && parcel.Read(DecStrings(old(parcel.Remaining())), r)
  {
    ghost var whole := DecStrings(parcel.Remaining());
    if whole.Some? {
      assert [] + whole.value.0 == whole.value.0;
    }
    var size := parcel.ReadInt32();
    if size.None? { return None; }
    var l := [];
    var i: nat := 0;
    ghost var left: nat := Rounds(size.value);
    while i < size.value
      invariant i + left == Rounds(size.value) && parcel.Valid()
      invariant Continues(whole, l, DecAll(DecString, parcel.Remaining(), left))
    {
      var longer := NextString(parcel, l, whole, left);
      if longer.None? { return None; }
      l := longer.value;
      i, left := i + 1, left - 1;
    }
    LastRound(DecString, whole, l, parcel.Remaining());
    r := Some(l);
  }

  lemma ConfigParts(x: ResolverConfig)
    ensures var s := EncConfig(x);
      && |s| > 2 && s[0] == U16(x.netId) && s[1] == U16(x.baseTimeoutMsec) && s[2] == U8(x.retryCount)
      && s == s[..3] + (EncStrings(x.servers) + EncStrings(x.domains))
  {
    assert EncConfig(x)[..3] == [U16(x.netId), U16(x.baseTimeoutMsec), U8(x.retryCount)];
  }

  /** The argument encoder of the proxy's SetResolverConfig, behind the interface token. */
  method EncodeConfig(parcel: Parcel, x: ResolverConfig) returns (ok: bool)
    requires parcel.Valid()
    modifies parcel`cells
    ensures parcel.Valid() && parcel.Wrote(old(parcel.cells), EncConfig(x), ok)
  {
    ghost var before, s := parcel.cells, EncConfig(x);
    ghost var servers, domains := EncStrings(x.servers), EncStrings(x.domains);
    ConfigParts(x);
    ok := parcel.WriteNth(U16(x.netId), before, s, 0);
    if !ok { return; }
    ok := parcel.WriteNth(U16(x.baseTimeoutMsec), before, s, 1);
    if !ok { return; }
    ok := parcel.WriteNth(U8(x.retryCount), before, s, 2);
    if !ok { return; }
    ok := MarshalStrings(parcel, x.servers);
    PartWritten(parcel, before, s[..3], servers, domains, ok);
    if !ok { return; }
    ok := MarshalStrings(parcel, x.domains);
    PartWritten(parcel, before, s[..3] + servers, domains, [], ok);
    Regroup(s[..3], servers, domains);
    assert domains + [] == domains;
  }

  /** The decoder of the stub's OnSetResolverConfig. */
  method DecodeConfig(parcel: Parcel) returns (r: Option<ResolverConfig>)
    requires parcel.Valid()
    modifies parcel`pos
    ensures parcel.Valid() && parcel.Read(DecConfig(old(parcel.Remaining())), r)
  {
    var netId := parcel.ReadUint16();
    if netId.None? { return None; }
    var baseTimeoutMsec := parcel.ReadUint16();
    if baseTimeoutMsec.None? { return None; }
    var retryCount := parcel.ReadUint8();
    if retryCount.None? { return None; }
    assert parcel.Remaining() == old(parcel.Remaining())[3..];
    var servers := UnmarshalStrings(parcel);
    if servers.None? { return None; }
    var domains := UnmarshalStrings(parcel);
    if domains.None? { return None; }
    r := Some(ResolverConfig(netId.value, baseTimeoutMsec.value, retryCount.value, servers.value, domains.value));
  }

  /** The reply encoder of the stub's OnGetResolverInfo. */
  method EncodeInfo(parcel: Parcel, x: ResolverInfo) returns (ok: bool)
    requires parcel.Valid()
    modifies parcel`cells
    ensures parcel.Valid() && parcel.Wrote(old(parcel.cells), EncInfo(x), ok)
  {
    ghost var before := parcel.cells;
    ghost var servers, domains := EncStrings(x.servers), EncStrings(x.domains);
    ghost var tail := [U16(x.baseTimeoutMsec), U8(x.retryCount), I32(x.ret)];
    assert before + [] == before;
    ok := MarshalStrings(parcel, x.servers);
    PartWritten(parcel, before, [], servers, domains + tail, ok);
    assert [] + (servers + (domains + tail)) == servers + (domains + tail) && [] + servers == servers;
    if !ok { return; }
    ok := MarshalStrings(parcel, x.domains);
    PartWritten(parcel, before, servers, domains, tail, ok);
    if !ok { return; }
    Regroup(servers, domains, tail);
    ok := WriteTail(parcel, before, servers + domains, x);
  }

  /** The three cells that end the reply. */
  method WriteTail(parcel: Parcel, ghost before: seq<Cell>, ghost lists: seq<Cell>, x: ResolverInfo) returns (ok: bool)
    requires parcel.Valid() && parcel.cells == before + lists
    modifies parcel`cells
    ensures parcel.Valid()
    ensures parcel.Wrote(before, lists + [U16(x.baseTimeoutMsec), U8(x.retryCount), I32(x.ret)], ok)
  {
    ghost var tail := [U16(x.baseTimeoutMsec), U8(x.retryCount), I32(x.ret)];
    ghost var s, n := lists + tail, |lists|;
    assert s[..n] == lists;
    ok := parcel.WriteNth(U16(x.baseTimeoutMsec), before, s, n);
    if !ok { return; }
    ok := parcel.WriteNth(U8(x.retryCount), before, s, n + 1);
    if !ok { return; }
    ok := parcel.WriteNth(I32(x.ret), before, s, n + 2);
    assert s[..n + 3] == s;
  }

  /** The reply decoder of the proxy's GetResolverInfo; the last read is not checked. */
  method DecodeInfo(parcel: Parcel) returns (r: Option<ResolverInfo>)
    requires parcel.Valid()
    modifies parcel`pos
    ensures parcel.Valid()
    ensures r == match DecInfo(old(parcel.Remaining())) case None => None case Some((x, _)) => Some(x)
  {
    var servers := UnmarshalStrings(parcel);
    if servers.None? { return None; }
    var domains := UnmarshalStrings(parcel);
    if domains.None? { return None; }
    var baseTimeoutMsec := parcel.ReadUint16();
    if baseTimeoutMsec.None? { return None; }
    var retryCount := parcel.ReadUint8();
    if retryCount.None? { return None; }
    var ret := parcel.ReadInt32();
    r := Some(ResolverInfo(servers.value, domains.value, baseTimeoutMsec.value, retryCount.value,
                           if ret.Some? then ret.value else 0));
  }
}
