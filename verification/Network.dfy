/**
 Differential synchronisation of link state into netd (network.cpp): a network caches the last
 NetLinkInfo and sends only the differences.
 */
module LinkSync {
  import opened Machine
  import opened LinkTypes

  /** What netd is told about a route. The other fields of the addresses are not sent. */
  datatype RouteKey = RouteKey(iface: string, destination: string, gateway: string)

  /** netd's view of one netId. */
  datatype NetState = NetState(ifaces: set<string>, routes: set<RouteKey>, servers: seq<string>, domains: seq<string>)

  const NO_NET := NetState({}, {}, [], [])

  function KeyOf(r: Route): RouteKey {
    RouteKey(r.iface, r.destination.address, r.gateway.address)
  }

  function Image(rs: set<Route>): set<RouteKey> {
    set r | r in rs :: KeyOf(r)
  }

  function Routes(info: NetLinkInfo): set<Route> {
    set r | r in info.routeList
  }

  function IfaceSet(name: string): set<string> {
    if name == "" then {} else {name}
  }

  function Addresses(l: seq<INetAddr>): seq<string> {
    seq(|l|, i requires 0 <= i < |l| => l[i].address)
  }

  function HostNames(l: seq<INetAddr>): seq<string> {
    seq(|l|, i requires 0 <= i < |l| => l[i].hostName)
  }

  /** The state in which netd holds exactly what `info` describes. */
  function NetOf(info: NetLinkInfo): NetState {
    NetState(IfaceSet(info.ifaceName), Image(Routes(info)), Addresses(info.dnsList), HostNames(info.dnsList))
  }

  /** The effect of the add calls followed by the remove calls. */
  function SendRoutes(at: set<RouteKey>, was: set<Route>, now: set<Route>): set<RouteKey> {
    at + Image(now - was) - Image(was - now)
  }

  function SendIface(at: set<string>, was: string, now: string): set<string> {
    if was == now then at else at + IfaceSet(now) - IfaceSet(was)
  }

  function SendLinkInfo(at: NetState, was: NetLinkInfo, now: NetLinkInfo): NetState {
    NetState(SendIface(at.ifaces, was.ifaceName, now.ifaceName), SendRoutes(at.routes, Routes(was), Routes(now)),
             Addresses(now.dnsList), HostNames(now.dnsList))
  }

  /** What netd has of a route: its interface and the two addresses, destination first. */
  predicate Tells(k: RouteKey, r: Route) {
    k.iface == r.iface && k.destination == r.destination.address && k.gateway == r.gateway.address
  }

  predicate LooksLike(r: Route, q: Route) {
    r.iface == q.iface && r.destination.address == q.destination.address && r.gateway.address == q.gateway.address
  }

  /** A route that goes away and one that stays or arrives look the same to netd. */
  ghost predicate Clash(was: set<Route>, now: set<Route>) {
    exists gone, kept :: gone in was && gone !in now && kept in now && LooksLike(gone, kept)
  }

  ghost predicate KeyInjectiveOn(rs: set<Route>) {
    forall r, q :: r in rs && q in rs && LooksLike(r, q) ==> r == q
  }

  /** netd has exactly what the link information says, field by field. */
  ghost predicate Describes(net: NetState, info: NetLinkInfo) {
    && (forall k :: k in net.routes <==> exists r :: r in info.routeList && Tells(k, r))
    && (forall name :: name in net.ifaces <==> name == info.ifaceName && name != "")
    && |net.servers| == |net.domains| == |info.dnsList|
    && (forall i :: 0 <= i < |info.dnsList| ==> net.servers[i] == info.dnsList[i].address)
    && (forall i :: 0 <= i < |info.dnsList| ==> net.domains[i] == info.dnsList[i].hostName)
  }

  /** NetOf is the state that describes the information. */
  lemma NetOfDescribes(net: NetState, info: NetLinkInfo)
    ensures net == NetOf(info) <==> Describes(net, info)
  {
    forall k
      ensures k in NetOf(info).routes <==> exists r :: r in info.routeList && Tells(k, r)
    {
      if r :| r in info.routeList && Tells(k, r) {
        assert r in Routes(info) && KeyOf(r) == k;
      }
      if k in Image(Routes(info)) {
        var r :| r in Routes(info) && KeyOf(r) == k;
        assert r in info.routeList && Tells(k, r);
      }
    }
    if Describes(net, info) {
      assert net.routes == NetOf(info).routes && net.ifaces == NetOf(info).ifaces;
      assert net.servers == NetOf(info).servers && net.domains == NetOf(info).domains;
    }
  }

  /** Exact effect of a route update on a netd that mirrors the old list. */
  lemma RoutesAfterUpdate(was: set<Route>, now: set<Route>)
    ensures SendRoutes(Image(was), was, now) == Image(now) - Image(was - now)
    ensures SendRoutes(Image(was), was, now) == Image(now) <==> !Clash(was, now)
    ensures KeyInjectiveOn(was + now) ==> !Clash(was, now)
  {
    var after := SendRoutes(Image(was), was, now);
    forall k
      ensures k in after <==> k in Image(now) - Image(was - now)
    {
      if k in Image(was) && k !in Image(was - now) {
        var r :| r in was && KeyOf(r) == k;
        assert r in was - now || r in now;
      }
      if k in Image(now) && k !in Image(now - was) {
        var r :| r in now && KeyOf(r) == k;
        assert r in now - was || r in was;
      }
      assert Image(now - was) <= Image(now);
    }
    assert after == Image(now) - Image(was - now);
    if Clash(was, now) {
      var gone, kept :| gone in was && gone !in now && kept in now && KeyOf(gone) == KeyOf(kept);
      assert gone in was - now;
      assert KeyOf(kept) in Image(now) && KeyOf(kept) in Image(was - now);
    } else {
      assert Image(now) !! Image(was - now);
    }
  }

  /** One whole link update keeps netd in agreement with the cache iff no routes clash. */
  lemma UpdateExact(was: NetLinkInfo, now: NetLinkInfo)
    ensures SendLinkInfo(NetOf(was), was, now) == NetOf(now) <==> !Clash(Routes(was), Routes(now))
  {
    RoutesAfterUpdate(Routes(was), Routes(now));
    assert SendIface(IfaceSet(was.ifaceName), was.ifaceName, now.ifaceName) == IfaceSet(now.ifaceName);
  }

  /** The same with everything spelled out: what netd is told, and what it then has. */
  lemma UpdateDescribes(at: NetState, was: NetLinkInfo, now: NetLinkInfo)
    ensures Describes(at, was) ==>
      (Describes(SendLinkInfo(at, was, now), now) <==> !Clash(Routes(was), Routes(now)))
  {
    NetOfDescribes(at, was);
    NetOfDescribes(SendLinkInfo(at, was, now), now);
    UpdateExact(was, now);
  }

  /** netd agrees with the cache before and after every update of a run. */
  ghost predicate AlwaysAgrees(at: NetState, cached: NetLinkInfo, updates: seq<NetLinkInfo>)
    decreases |updates|
  {
    at == NetOf(cached)
    && (updates != [] ==> AlwaysAgrees(SendLinkInfo(at, cached, updates[0]), updates[0], updates[1..]))
  }

  ghost predicate NeverClashes(cached: NetLinkInfo, updates: seq<NetLinkInfo>)
    decreases |updates|
  {
    updates != [] ==> !Clash(Routes(cached), Routes(updates[0])) && NeverClashes(updates[0], updates[1..])
  }

  /**
   Over any run of updates, agreement at every point is equivalent to the absence of clashes. A new
   network starts in agreement: nothing cached, nothing in netd.
   */
  lemma {:induction false} RunExact(cached: NetLinkInfo, updates: seq<NetLinkInfo>)
    ensures NetOf(NO_LINK_INFO) == NO_NET
    ensures AlwaysAgrees(NetOf(cached), cached, updates) <==> NeverClashes(cached, updates)
    decreases |updates|
  {
    if updates != [] {
      UpdateExact(cached, updates[0]);
      RunExact(updates[0], updates[1..]);
    }
  }

  /** netd after a run of updates, and the link information that is cached then. */
  function AfterUpdates(at: NetState, cached: NetLinkInfo, updates: seq<NetLinkInfo>): (NetState, NetLinkInfo)
    decreases |updates|
  {
    if updates == [] then (at, cached)
    else AfterUpdates(SendLinkInfo(at, cached, updates[0]), updates[0], updates[1..])
  }

  /** The interface and the resolver agree with the cache, and netd has no route that the cache lacks. */
  predicate Sound(at: NetState, cached: NetLinkInfo) {
    && at.ifaces == IfaceSet(cached.ifaceName)
    && at.servers == Addresses(cached.dnsList) && at.domains == HostNames(cached.dnsList)
    && at.routes <= Image(Routes(cached))
  }

  lemma UpdateSound(at: NetState, was: NetLinkInfo, now: NetLinkInfo)
    requires Sound(at, was)
    ensures Sound(SendLinkInfo(at, was, now), now)
  {
    var olds, news := Routes(was), Routes(now);
    forall k | k in SendRoutes(at.routes, olds, news)
      ensures k in Image(news)
    {
      if k in at.routes {
        var r :| r in olds && KeyOf(r) == k;
        assert r in olds - news || r in news;
      } else {
        var r :| r in news - olds && KeyOf(r) == k;
      }
    }
  }

  /**
   Clashes or not: over any run that starts with a new network, netd's interface and resolver agree with
   the cache, and its routes are among the cached ones.
   */
  lemma {:induction false} RunSound(at: NetState, cached: NetLinkInfo, updates: seq<NetLinkInfo>)
    requires Sound(at, cached)
    ensures Sound(NO_NET, NO_LINK_INFO)
    ensures Sound(AfterUpdates(at, cached, updates).0, AfterUpdates(at, cached, updates).1)
    decreases |updates|
  {
    if updates != [] {
      UpdateSound(at, cached, updates[0]);
      RunSound(SendLinkInfo(at, cached, updates[0]), updates[0], updates[1..]);
    }
  }

  /** The link information that is cached when the i-th update of a run comes. */
  function CachedAt(cached: NetLinkInfo, updates: seq<NetLinkInfo>, i: nat): NetLinkInfo
    requires i <= |updates|
  {
    if i == 0 then cached else updates[i - 1]
  }

  /** The keys that the i-th update adds, and those that it removes after that. */
  function Brought(cached: NetLinkInfo, updates: seq<NetLinkInfo>, i: nat): set<RouteKey>
    requires i < |updates|
  {
    Image(Routes(updates[i]) - Routes(CachedAt(cached, updates, i)))
  }

  function Dropped(cached: NetLinkInfo, updates: seq<NetLinkInfo>, i: nat): set<RouteKey>
    requires i < |updates|
  {
    Image(Routes(CachedAt(cached, updates, i)) - Routes(updates[i]))
  }

  predicate NeverDropped(cached: NetLinkInfo, updates: seq<NetLinkInfo>, from: nat, k: RouteKey) {
    forall i :: from <= i < |updates| ==> k !in Dropped(cached, updates, i)
  }

  /** The last that netd heard of the key in the run was that it is there. */
  predicate Stands(at: set<RouteKey>, cached: NetLinkInfo, updates: seq<NetLinkInfo>, k: RouteKey) {
    || (k in at && NeverDropped(cached, updates, 0, k))
    || (exists j :: 0 <= j < |updates| && k in Brought(cached, updates, j) && NeverDropped(cached, updates, j, k))
  }

  /** A run seen after its first update. */
  lemma StandsAfterFirst(at: set<RouteKey>, cached: NetLinkInfo, updates: seq<NetLinkInfo>, k: RouteKey)
    requires updates != []
    ensures Stands(at, cached, updates, k)
       <==> Stands(SendRoutes(at, Routes(cached), Routes(updates[0])), updates[0], updates[1..], k)
  {
    var first, rest := updates[0], updates[1..];
    forall i: nat | i < |rest|
      ensures Brought(cached, updates, i + 1) == Brought(first, rest, i)
      ensures Dropped(cached, updates, i + 1) == Dropped(first, rest, i)
    {
      assert CachedAt(cached, updates, i + 1) == CachedAt(first, rest, i);
    }
    forall j: nat | j <= |rest|
      ensures NeverDropped(cached, updates, j + 1, k) <==> NeverDropped(first, rest, j, k)
    {
      assert forall i :: j + 1 <= i < |updates| ==> Dropped(cached, updates, i) == Dropped(first, rest, i - 1);
      assert forall i :: j <= i < |rest| ==> Dropped(first, rest, i) == Dropped(cached, updates, i + 1);
    }
    var dropped, brought := k in Dropped(cached, updates, 0), k in Brought(cached, updates, 0);
    assert NeverDropped(cached, updates, 0, k) <==> !dropped && NeverDropped(cached, updates, 1, k);
    if j :| 0 < j < |updates| && k in Brought(cached, updates, j) && NeverDropped(cached, updates, j, k) {
      assert k in Brought(first, rest, j - 1) && NeverDropped(first, rest, j - 1, k);
    }
    if j :| 0 <= j < |rest| && k in Brought(first, rest, j) && NeverDropped(first, rest, j, k) {
      assert k in Brought(cached, updates, j + 1) && NeverDropped(cached, updates, j + 1, k);
    }
  }

  /** Exactly which routes netd has after a run, with or without clashes. */
  lemma {:induction false} RunEnd(at: NetState, cached: NetLinkInfo, updates: seq<NetLinkInfo>, k: RouteKey)
    ensures k in AfterUpdates(at, cached, updates).0.routes <==> Stands(at.routes, cached, updates, k)
    decreases |updates|
  {
    if updates != [] {
      StandsAfterFirst(at.routes, cached, updates, k);
      RunEnd(SendLinkInfo(at, cached, updates[0]), updates[0], updates[1..], k);
    }
  }

  /** After a run netd agrees with the cache iff of every cached route the last that netd heard was that it is there. */
  lemma EndAgreesIff(at: NetState, cached: NetLinkInfo, updates: seq<NetLinkInfo>)
    requires Sound(at, cached)
    ensures var (end, last) := AfterUpdates(at, cached, updates);
      end == NetOf(last) <==> forall r :: r in last.routeList ==> Stands(at.routes, cached, updates, KeyOf(r))
  {
    var (end, last) := AfterUpdates(at, cached, updates);
    RunSound(at, cached, updates);
    forall r | r in last.routeList
      ensures KeyOf(r) in Image(Routes(last))
      ensures KeyOf(r) in end.routes <==> Stands(at.routes, cached, updates, KeyOf(r))
    {
      assert r in Routes(last);
      RunEnd(at, cached, updates, KeyOf(r));
    }
    forall k | k in Image(Routes(last))
      ensures exists r :: r in last.routeList && KeyOf(r) == k
    {
      var r :| r in Routes(last) && KeyOf(r) == k;
      assert r in last.routeList;
    }
  }

  /** The code as it stands: changing only a prefix length removes the route from netd. */
  lemma PrefixChangeLosesRoute(r: Route, prefixlen: Byte)
    requires prefixlen != r.destination.prefixlen
    ensures var now := r.(destination := r.destination.(prefixlen := prefixlen));
      && Image({now}) == {KeyOf(now)}
      && SendRoutes(Image({r}), {r}, {now}) == {}
  {
    var now := r.(destination := r.destination.(prefixlen := prefixlen));
    RoutesAfterUpdate({r}, {now});
    assert {r} - {now} == {r};
    assert Image({r}) == {KeyOf(r)};
  }
}

module Network {
  import opened Machine
  import opened LinkTypes
  import opened LinkSync

  /** A supplier of networks; the fields used for identification are fixed at construction. */
  class NetSupplier {
    const supplierId: UInt32
    const netType: nat
    const ident: string
    ghost const serial: nat     // position in the creation order

    constructor (supplierId: UInt32, netType: nat, ident: string, ghost serial: nat)
      ensures this.supplierId == supplierId && this.netType == netType && this.ident == ident && this.serial == serial
    {
      this.supplierId, this.netType, this.ident, this.serial := supplierId, netType, ident, serial;
    }
  }

  /** netd as the sets and lists it keeps per netId, the mtu it has set per interface, and its network caches. */
  class Netd {
    var nets: map<int, NetState>
    var mtus: map<string, UInt16>
    var caches: set<int>        // the netIds for which a network cache was created

    constructor ()
      ensures nets == map[] && mtus == map[] && caches == {}
    {
      nets, mtus, caches := map[], map[], {};
    }

    method CreateNetworkCache(netId: int)
      modifies this`caches
      ensures caches == old(caches) + {netId}
    {
      caches := caches + {netId};
    }

    function Net(netId: int): NetState
      reads this
    {
      if netId in nets then nets[netId] else NO_NET
    }

    method NetworkAddInterface(netId: int, iface: string)
      modifies this`nets
      ensures nets == old(nets)[netId := old(Net(netId)).(ifaces := old(Net(netId)).ifaces + {iface})]
    {
      nets := nets[netId := Net(netId).(ifaces := Net(netId).ifaces + {iface})];
    }

    method NetworkRemoveInterface(netId: int, iface: string)
      modifies this`nets
      ensures nets == old(nets)[netId := old(Net(netId)).(ifaces := old(Net(netId)).ifaces - {iface})]
    {
      nets := nets[netId := Net(netId).(ifaces := Net(netId).ifaces - {iface})];
    }

    method NetworkAddRoute(netId: int, key: RouteKey)
      modifies this`nets
      ensures nets == old(nets)[netId := old(Net(netId)).(routes := old(Net(netId)).routes + {key})]
    {
      nets := nets[netId := Net(netId).(routes := Net(netId).routes + {key})];
    }

    method NetworkRemoveRoute(netId: int, key: RouteKey)
      modifies this`nets
      ensures nets == old(nets)[netId := old(Net(netId)).(routes := old(Net(netId)).routes - {key})]
    {
      nets := nets[netId := Net(netId).(routes := Net(netId).routes - {key})];
    }

    method SetResolverConfig(netId: int, servers: seq<string>, domains: seq<string>)
      modifies this`nets
      ensures nets == old(nets)[netId := old(Net(netId)).(servers := servers, domains := domains)]
    {
      nets := nets[netId := Net(netId).(servers := servers, domains := domains)];
    }

    method InterfaceSetMtu(iface: string, mtu: UInt16)
      modifies this`mtus
      ensures mtus == old(mtus)[iface := mtu]
    {
      mtus := mtus[iface := mtu];
    }
  }

  /** isConnecting_ and isConnected_, which every service on a network shares. */
  datatype Latch = Latch(isConnecting: bool, isConnected: bool)

  /** NetworkConnect, given the supplier's answer if it is asked. */
  function Connected(l: Latch, answer: bool): (r: (Latch, bool)) {
    if l.isConnected then (l, true)
    else if answer then (Latch(true, true), true)
    else (l, false)
  }

  /** NetworkDisconnect; it changes nothing. */
  function DisconnectAnswer(l: Latch, answer: bool): bool {
    (l.isConnecting || l.isConnected) && answer
  }

  class Network {
    const supplier: NetSupplier
    const netId: int
    const netd: Netd
    var netLinkInfo: NetLinkInfo
    var isConnecting: bool
    var isConnected: bool

    constructor (supplier: NetSupplier, netId: int, netd: Netd)
      modifies netd`caches
      ensures netd.caches == old(netd.caches) + {netId}
      ensures this.supplier == supplier && this.netId == netId && this.netd == netd
      ensures netLinkInfo == NO_LINK_INFO && CurrentLatch() == Latch(false, false)
    {
      this.supplier, this.netId, this.netd := supplier, netId, netd;
      netLinkInfo := NO_LINK_INFO;
      isConnecting, isConnected := false, false;
      new;
      netd.CreateNetworkCache(netId);
    }

    function CurrentLatch(): Latch
      reads this
    {
      Latch(isConnecting, isConnected)
    }

    /** `answer` is what SupplierDisconnection, which this method calls, returns. */
    method NetworkConnect(answer: bool) returns (ret: bool)
      modifies this`isConnecting, this`isConnected
      ensures (CurrentLatch(), ret) == Connected(old(CurrentLatch()), answer)
      ensures old(isConnected) ==> ret && isConnected && isConnecting == old(isConnecting)
      ensures !old(isConnected) ==> ret == answer && isConnected == answer
      ensures !old(isConnected) ==> isConnecting == (answer || old(isConnecting))
    {
      if isConnected {
        return true;
      }
      ret := answer;
      if !ret {
        return;
      }
      isConnecting := true;
      isConnected := true;
    }

    method NetworkDisconnect(answer: bool) returns (ret: bool)
      ensures ret == DisconnectAnswer(CurrentLatch(), answer)
      ensures ret <==> answer && (isConnecting || isConnected)
    {
      if !isConnecting && !isConnected {
        return false;
      }
      ret := answer;
    }

    method UpdateInterfaces(info: NetLinkInfo)
      modifies netd`nets
      ensures netd.Net(netId) == old(netd.Net(netId)).(
        ifaces := SendIface(old(netd.Net(netId)).ifaces, netLinkInfo.ifaceName, info.ifaceName))
      ensures forall id :: id != netId ==> netd.Net(id) == old(netd.Net(id))
    {
      if info.ifaceName == netLinkInfo.ifaceName {
        return;
      }
      if info.ifaceName != "" {
        netd.NetworkAddInterface(netId, info.ifaceName);
      }
      if netLinkInfo.ifaceName != "" {
        netd.NetworkRemoveInterface(netId, netLinkInfo.ifaceName);
      }
    }

    method UpdateRoutes(info: NetLinkInfo)
      modifies netd`nets
      ensures netd.Net(netId) == old(netd.Net(netId)).(
        routes := SendRoutes(old(netd.Net(netId)).routes, Routes(netLinkInfo), Routes(info)))
      ensures forall id :: id != netId ==> netd.Net(id) == old(netd.Net(id))
    {
      ghost var net := netd.Net(netId);
      var was, now := netLinkInfo.routeList, info.routeList;
      var it := 0;
      while it < |now|
        invariant 0 <= it <= |now|
        invariant netd.Net(netId) == net.(routes := net.routes + Image(Absent(now[..it], was)))
        invariant forall id :: id != netId ==> netd.Net(id) == old(netd.Net(id))
      {
        AbsentGrows(now, it, was);
        var known := Find(was, now[it]);
        if !known {
          netd.NetworkAddRoute(netId, KeyOf(now[it]));
        }
        it := it + 1;
      }
      ghost var added := net.routes + Image(Absent(now[..it], was));
      assert now[..it] == now;
      it := 0;
      while it < |was|
        invariant 0 <= it <= |was|
        invariant netd.Net(netId) == net.(routes := added - Image(Absent(was[..it], now)))
        invariant forall id :: id != netId ==> netd.Net(id) == old(netd.Net(id))
      {
        AbsentGrows(was, it, now);
        var kept := Find(now, was[it]);
        if !kept {
          netd.NetworkRemoveRoute(netId, KeyOf(was[it]));
        }
        it := it + 1;
      }
      assert was[..it] == was;
      assert Absent(now, was) == Routes(info) - Routes(netLinkInfo);
      assert Absent(was, now) == Routes(netLinkInfo) - Routes(info);
    }

    method UpdateDnses(info: NetLinkInfo)
      modifies netd`nets
      ensures netd.Net(netId) == old(netd.Net(netId)).(
        servers := Addresses(info.dnsList), domains := HostNames(info.dnsList))
      ensures forall id :: id != netId ==> netd.Net(id) == old(netd.Net(id))
    {
      var servers, domains := [], [];
      var it := 0;
      while it < |info.dnsList|
        invariant 0 <= it <= |info.dnsList|
        invariant servers == Addresses(info.dnsList)[..it] && domains == HostNames(info.dnsList)[..it]
      {
        servers := servers + [info.dnsList[it].address];
        domains := domains + [info.dnsList[it].hostName];
        it := it + 1;
      }
      netd.SetResolverConfig(netId, servers, domains);
    }

    method UpdateMtu(info: NetLinkInfo)
      modifies netd`mtus
      ensures netd.mtus == if info.mtu == netLinkInfo.mtu then old(netd.mtus)
                           else old(netd.mtus)[info.ifaceName := info.mtu]
    {
      if info.mtu == netLinkInfo.mtu {
        return;
      }
      netd.InterfaceSetMtu(info.ifaceName, info.mtu);
    }

    /** A netd that agrees with the cache agrees with the new cache iff no removed route clashes with a kept one. */
    method UpdateNetLinkInfo(info: NetLinkInfo)
      modifies this`netLinkInfo, netd`nets, netd`mtus
      ensures netLinkInfo == info
      ensures netd.mtus == if info.mtu == old(netLinkInfo.mtu) then old(netd.mtus)
                           else old(netd.mtus)[info.ifaceName := info.mtu]
      ensures netd.Net(netId) == SendLinkInfo(old(netd.Net(netId)), old(netLinkInfo), info)
      ensures forall id :: id != netId ==> netd.Net(id) == old(netd.Net(id))
      ensures Describes(old(netd.Net(netId)), old(netLinkInfo)) ==>
        (Describes(netd.Net(netId), netLinkInfo) <==> !Clash(Routes(old(netLinkInfo)), Routes(info)))
    {
      UpdateDescribes(netd.Net(netId), netLinkInfo, info);
      UpdateInterfaces(info);
      UpdateRoutes(info);
      UpdateDnses(info);
      UpdateMtu(info);
      netLinkInfo := info;
    }
  }

  /** std::find with Route::operator==, which compares every field of a route. */
  method Find(l: seq<Route>, r: Route) returns (found: bool)
    ensures found <==> r in l
  {
    var it := 0;
    while it < |l|
      invariant 0 <= it <= |l| && r !in l[..it]
    {
      if SameRoute(l[it], r) {
        return true;
      }
      it := it + 1;
    }
    return false;
  }

  /** The routes of one list that do not occur in the other. */
  function Absent(l: seq<Route>, other: seq<Route>): set<Route> {
    set r | r in l && r !in other
  }

  lemma AbsentGrows(l: seq<Route>, i: nat, other: seq<Route>)
    requires i < |l|
    ensures Image(Absent(l[..i + 1], other))
         == Image(Absent(l[..i], other)) + (if l[i] in other then {} else {KeyOf(l[i])})
  {
    assert l[..i + 1] == l[..i] + [l[i]];
    assert Absent(l[..i + 1], other) == Absent(l[..i], other) + (if l[i] in other then {} else {l[i]});
  }
}
