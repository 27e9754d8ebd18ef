/** The link and DHCP state of Ethernet devices (dev_interface_state.cpp, ethernet_management.cpp). */
module EthernetModel {
  import opened Machine
  import opened LinkTypes
  import opened NetlinkSpec
  import opened ParcelFormat

  datatype ConnLinkState = REGISTERED | UNREGISTERED | LINK_AVAILABLE | LINK_UNAVAILABLE

  datatype IPSetMode = STATIC | DHCP

  datatype InterfaceConfiguration = InterfaceConfiguration(mode: IPSetMode, ipStatic: StaticConfiguration)

  datatype DhcpResult = DhcpResult(ipType: int, yourCli: string, server: string, router1: string, router2: string,
                                   dns1: string, dns2: string)

  const MINIMUM_SUPPLIER_ID := 1000

  datatype Device = Device(
    name: string,
    link: ConnLinkState,
    supplier: int,
    linkUp: bool,
    lowerUp: bool,
    dhcpReq: bool,
    linkInfo: Option<NetLinkInfo>,
    config: Option<InterfaceConfiguration>)

  /** Calls that leave the process. LinkInfoSent records the state the device was in when it sent. */
  datatype Event =
    | SupplierInfoSent(supplier: int, available: bool)
    | LinkInfoSent(supplier: int, info: NetLinkInfo, link: ConnLinkState)
    | DhcpStarted(dev: string)
    | DhcpStopped(dev: string)
    | AddressSet(dev: string, address: string)

  function Mode(d: Device): IPSetMode {
    if d.config.None? then STATIC else d.config.value.mode
  }

  function CachedOrNew(d: Device): NetLinkInfo {
    if d.linkInfo.None? then NO_LINK_INFO else d.linkInfo.value
  }

  /** UpdateLinkInfo(): all three lists are replaced. */
  function StaticLinkInfo(x: NetLinkInfo, name: string, s: StaticConfiguration): NetLinkInfo {
    x.(netAddrList := [s.ipAddr], routeList := [Route(name, s.route, s.gate)], dnsList := s.dnsServers)
  }

  function PlainAddr(address: string): INetAddr {
    INetAddr(0, 0, 0, address, "", "")
  }

  /** Where a router of a DHCP result leads to. */
  function Target(router: string): string {
    if router == "*" then "0.0.0.0" else router
  }

  function DhcpRoute(iface: string, server: string, router: string): seq<Route> {
    if server == router then []
    else [Route(iface, PlainAddr(Target(router)), PlainAddr(server))]
  }

  /** UpdateLinkInfo(iface, result): addresses and routes are replaced, but the DNS servers are appended. */
  function DhcpLinkInfo(x: NetLinkInfo, iface: string, r: DhcpResult): NetLinkInfo {
    var t: Byte := r.ipType % 0x100;
    x.(netAddrList := [PlainAddr(r.yourCli).(addrType := t)],
       routeList := DhcpRoute(iface, r.server, r.router1) + DhcpRoute(iface, r.server, r.router2),
       dnsList := x.dnsList + [PlainAddr(r.dns1).(addrType := t), PlainAddr(r.dns2).(addrType := t)])
  }

  /** The route to a router through the server: of the addresses nothing but the text is set, and "*" is 0.0.0.0. */
  predicate LeadsTo(q: Route, iface: string, router: string, server: string) {
    && q.iface == iface
    && q.destination == INetAddr(0, 0, 0, if router == "*" then "0.0.0.0" else router, "", "")
    && q.gateway == INetAddr(0, 0, 0, server, "", "")
  }

  /** A DHCP result brings one route for each router that is not the server itself, in their order; old routes go. */
  lemma DhcpRoutesMean(x: NetLinkInfo, iface: string, r: DhcpResult, q: Route)
    ensures var routes := DhcpLinkInfo(x, iface, r).routeList;
      && (q in routes <==> (r.router1 != r.server && LeadsTo(q, iface, r.router1, r.server))
                           || (r.router2 != r.server && LeadsTo(q, iface, r.router2, r.server)))
      && |routes| == (if r.router1 != r.server then 1 else 0) + (if r.router2 != r.server then 1 else 0)
      && (|routes| == 2 ==> LeadsTo(routes[0], iface, r.router1, r.server)
                            && LeadsTo(routes[1], iface, r.router2, r.server))
  {
    var one, two := DhcpRoute(iface, r.server, r.router1), DhcpRoute(iface, r.server, r.router2);
    assert q in one + two <==> q in one || q in two;
  }

  /** A repeated DHCP result leaves addresses and routes as they are and repeats the DNS servers. */
  lemma RepeatedResult(x: NetLinkInfo, iface: string, r: DhcpResult)
    ensures var once := DhcpLinkInfo(x, iface, r);
      var twice := DhcpLinkInfo(once, iface, r);
      && twice.netAddrList == once.netAddrList && twice.routeList == once.routeList
      && |twice.dnsList| == |x.dnsList| + 4
      && twice.dnsList[|x.dnsList| + 2..] == once.dnsList[|x.dnsList|..]
  {
  }

  /** RemoteUpdateNetSupplierInfo */
  function SendSupplierInfo(d: Device): (Device, seq<Event>) {
    var available := d.linkUp && d.lowerUp;
    if d.link == UNREGISTERED then (d, [])
    else (d.(link := if available then LINK_AVAILABLE else LINK_UNAVAILABLE), [SupplierInfoSent(d.supplier, available)])
  }

  /** RemoteUpdateNetLinkInfo */
  function SendLinkInfo(d: Device): seq<Event> {
    if d.link == LINK_UNAVAILABLE || d.linkInfo.None? then []
    else [LinkInfoSent(d.supplier, d.linkInfo.value, d.link)]
  }

  /** UpdateInterfaceState for a known device. */
  function OnLinkEvent(d: Device, up: bool, lowerUp: bool): (Device, seq<Event>) {
    var d0 := d.(linkUp := up, lowerUp := lowerUp);
    if lowerUp then
      var (d1, sent) := SendSupplierInfo(d0);
      if Mode(d) == DHCP && !d.dhcpReq then (d1.(dhcpReq := true), sent + [DhcpStarted(d.name)])
      else (d1, sent + SendLinkInfo(d1))
    else
      var stops := Mode(d) == DHCP && d.dhcpReq;
      var (d1, sent) := SendSupplierInfo(if stops then d0.(dhcpReq := false) else d0);
      (d1, (if stops then [DhcpStopped(d.name)] else []) + sent)
  }

  /** UpdateDevInterfaceState: refused while the link is down. */
  function OnConfig(d: Device, cfg: InterfaceConfiguration): (Device, seq<Event>) {
    if !d.linkUp then (d, [])
    else SetConfig(d, cfg)
  }

  /** SetIfcfg */
  function SetConfig(d: Device, cfg: InterfaceConfiguration): (Device, seq<Event>) {
    var d0 := d.(config := Some(cfg));
    if cfg.mode != STATIC then (d0, [])
    else
      var d1 := d0.(linkInfo := Some(StaticLinkInfo(CachedOrNew(d0), d.name, cfg.ipStatic)));
      var sent := if d1.link == LINK_AVAILABLE then SendLinkInfo(d1) else [];
      (d1, [AddressSet(d.name, cfg.ipStatic.ipAddr.address)] + sent)
  }

  /** UpdateDevInterfaceLinkInfo: refused while the link is down. */
  function OnDhcpResult(d: Device, r: DhcpResult): (Device, seq<Event>) {
    if !d.linkUp then (d, [])
    else
      var d0 := d.(linkInfo := Some(DhcpLinkInfo(CachedOrNew(d), d.name, r)));
      (d0, SendLinkInfo(d0))
  }

  /** RemoteRegisterNetSupplier, given the id the connection service answers with. */
  function OnRegister(d: Device, id: int): Device {
    if d.link != UNREGISTERED then d
    else d.(supplier := id, link := if id > MINIMUM_SUPPLIER_ID then REGISTERED else UNREGISTERED)
  }

  /** RemoteUnregisterNetSupplier, given whether the connection service accepts. */
  function OnUnregister(d: Device, accepted: bool): Device {
    if d.link == UNREGISTERED || !accepted then d else d.(supplier := 0, link := UNREGISTERED)
  }

  // What each action does, field by field.

  /** The configuration in force asks for DHCP; without one the device is static. */
  predicate AsksDhcp(config: Option<InterfaceConfiguration>) {
    config.Some? && config.value.mode.DHCP?
  }

  /**
   A link event with lowerUp starts the DHCP client iff the configuration asks for DHCP and no request is
   pending, and one without stops it iff one is; so a DHCP device has a request pending iff lowerUp, and a static
   one keeps its flag. Link information is sent with lowerUp unless the client is started, if there is any
   and the device is not unavailable then.
   */
  lemma LinkEventDhcp(d: Device, up: bool, lowerUp: bool)
    ensures var (d', sent) := OnLinkEvent(d, up, lowerUp);
      && (DhcpStarted(d.name) in sent <==> lowerUp && AsksDhcp(d.config) && !d.dhcpReq)
      && (DhcpStopped(d.name) in sent <==> !lowerUp && AsksDhcp(d.config) && d.dhcpReq)
      && d'.dhcpReq == (if AsksDhcp(d.config) then lowerUp else d.dhcpReq)
      && (d'.linkUp, d'.lowerUp) == (up, lowerUp)
      && (d'.name, d'.supplier, d'.linkInfo, d'.config) == (d.name, d.supplier, d.linkInfo, d.config)
      && (forall e :: e in sent && e.LinkInfoSent? ==>
            d.linkInfo.Some? && e == LinkInfoSent(d.supplier, d.linkInfo.value, d'.link))
      && ((exists e :: e in sent && e.LinkInfoSent?) <==>
            lowerUp && !(AsksDhcp(d.config) && !d.dhcpReq) && d.linkInfo.Some? && (d.link == UNREGISTERED || up))
  {
    var (d', sent) := OnLinkEvent(d, up, lowerUp);
    if lowerUp && !(AsksDhcp(d.config) && !d.dhcpReq) && d.linkInfo.Some? && (d.link == UNREGISTERED || up) {
      assert LinkInfoSent(d.supplier, d.linkInfo.value, d'.link) in sent;
    }
  }

  /** The order of what a link event causes: the stop, the supplier info, and last the start or the link info. */
  lemma LinkEventOrder(d: Device, up: bool, lowerUp: bool)
    requires d.link != UNREGISTERED
    ensures var sent := OnLinkEvent(d, up, lowerUp).1; var told := SupplierInfoSent(d.supplier, up && lowerUp);
      if lowerUp then |sent| <= 2 && sent[0] == told
      else sent == if AsksDhcp(d.config) && d.dhcpReq then [DhcpStopped(d.name), told] else [told]
  {
  }

  /** A configuration is refused while the link is down. A static one replaces all three lists and sets the address. */
  lemma ConfigEffect(d: Device, cfg: InterfaceConfiguration)
    ensures var (d', sent) := OnConfig(d, cfg);
      && (!d.linkUp ==> d' == d && sent == [])
      && (d.linkUp ==> d'.config == Some(cfg))
      && (d.linkUp && cfg.mode.DHCP? ==> d' == d.(config := Some(cfg)) && sent == [])
      && (d.linkUp && cfg.mode.STATIC? ==>
            && d'.linkInfo.Some? && d' == d.(config := Some(cfg), linkInfo := d'.linkInfo)
            && IsStaticInfo(d'.linkInfo.value, d.name, cfg.ipStatic)
            && sent == [AddressSet(d.name, cfg.ipStatic.ipAddr.address)]
                 + (if d.link == LINK_AVAILABLE then [LinkInfoSent(d.supplier, d'.linkInfo.value, d.link)] else []))
  {
  }

  predicate IsStaticInfo(x: NetLinkInfo, name: string, s: StaticConfiguration) {
    && x.netAddrList == [s.ipAddr] && x.dnsList == s.dnsServers
    && |x.routeList| == 1 && x.routeList[0].iface == name
    && x.routeList[0].destination == s.route && x.routeList[0].gateway == s.gate
  }

  /**
   A DHCP result is refused while the link is down. It brings one address, with the type of the result, and two
   more DNS servers, in their order, and is sent unless the device is unavailable.
   */
  lemma DhcpEffect(d: Device, r: DhcpResult)
    ensures var (d', sent) := OnDhcpResult(d, r);
      && (!d.linkUp ==> d' == d && sent == [])
      && (d.linkUp ==>
            && d'.linkInfo.Some? && d' == d.(linkInfo := d'.linkInfo)
            && d'.linkInfo.value.netAddrList == [INetAddr(r.ipType % 0x100, 0, 0, r.yourCli, "", "")]
            && d'.linkInfo.value.dnsList == (if d.linkInfo.Some? then d.linkInfo.value.dnsList else [])
                 + [INetAddr(r.ipType % 0x100, 0, 0, r.dns1, "", ""), INetAddr(r.ipType % 0x100, 0, 0, r.dns2, "", "")]
            && sent == if d.link == LINK_UNAVAILABLE then []
                       else [LinkInfoSent(d.supplier, d'.linkInfo.value, d.link)])
  {
  }

  /** A registration takes any id, but succeeds with one above 1000 only; an unregistration resets the id. */
  lemma RegistrationEffect(d: Device, id: int, accepted: bool)
    ensures var r := OnRegister(d, id);
      if d.link == UNREGISTERED then r == d.(supplier := id, link := if id > 1000 then REGISTERED else UNREGISTERED)
      else r == d
    ensures var r := OnUnregister(d, accepted);
      if d.link != UNREGISTERED && accepted then r == d.(supplier := 0, link := UNREGISTERED) else r == d
  {
  }

  // What EthernetManagement::Init makes of the interfaces the kernel lists.

  /** The bits IFF_UP and IFF_LOWER_UP. */
  predicate IsUp(flags: UInt32) {
    flags % 2 == 1
  }

  predicate IsLowerUp(flags: UInt32) {
    flags / 0x1_0000 % 2 == 1
  }

  /** The characters of an interface name. */
  function Text(name: seq<Byte>): (s: string)
    ensures |s| == |name| && forall i :: 0 <= i < |s| ==> s[i] as int == name[i]
  {
    seq(|name|, i requires 0 <= i < |name| => name[i] as char)
  }

  const NEW_DEVICE := Device("", UNREGISTERED, 0, false, false, false, None, None)

  const NO_CONFIG := InterfaceConfiguration(
    STATIC, StaticConfiguration(PlainAddr(""), PlainAddr(""), PlainAddr(""), PlainAddr(""), [], ""))

  /** A new device, configured, then named, then registered under the id that the connection service answers with. */
  function InitDevice(name: string, flags: UInt32, id: int): (Device, seq<Event>) {
    var (d0, configured) := SetConfig(NEW_DEVICE, NO_CONFIG);
    var d1 := OnRegister(d0.(name := name, linkUp := IsUp(flags), lowerUp := IsLowerUp(flags)), id);
    var (d2, sent) := if IsUp(flags) && IsLowerUp(flags) then SendSupplierInfo(d1) else (d1, []);
    (d2, configured + sent)
  }

  /** Bit 0 of the flags is up and bit 16 is lowerUp, whatever the other bits are. */
  lemma FlagBits(high: nat, lowerUp: bool, low: nat, up: bool)
    requires high < 0x8000 && low < 0x8000
    ensures var flags := 0x2_0000 * high + (if lowerUp then 0x1_0000 else 0) + 2 * low + (if up then 1 else 0);
      flags < 0x1_0000_0000 && (IsUp(flags) <==> up) && (IsLowerUp(flags) <==> lowerUp)
  {
    var rest := 2 * low + (if up then 1 else 0);
    var flags := 0x2_0000 * high + (if lowerUp then 0x1_0000 else 0) + rest;
    assert flags / 0x1_0000 == 2 * high + (if lowerUp then 1 else 0);
  }

  /** The state in which Init leaves a device, and what it tells the connection service. */
  lemma InitDeviceMeans(name: string, flags: UInt32, id: int)
    ensures var (d, sent) := InitDevice(name, flags, id);
      && d.name == name && d.linkUp == IsUp(flags) && d.lowerUp == IsLowerUp(flags) && d.supplier == id
      && !d.dhcpReq && !AsksDhcp(d.config)
      && d.link == (if id <= 1000 then UNREGISTERED
                    else if IsUp(flags) && IsLowerUp(flags) then LINK_AVAILABLE else REGISTERED)
      && sent[1..] == if d.link == LINK_AVAILABLE then [SupplierInfoSent(id, true)] else []
  {
  }

  /** A nameless info is skipped; of two with the same name the first keeps its place in the map. */
  function InitOne(s: System, info: NlkEventInfo, id: int): System {
    if info.iface == [] then s
    else
      var (d, sent) := InitDevice(Text(info.iface), info.ifiFlags, id);
      System(if Text(info.iface) in s.devs then s.devs else s.devs[Text(info.iface) := d], s.trace + sent)
  }

  function InitAll(s: System, infos: seq<NlkEventInfo>, ids: seq<int>): System
    requires |ids| == |infos|
    decreases |infos|
  {
    if infos == [] then s else InitAll(InitOne(s, infos[0], ids[0]), infos[1..], ids[1..])
  }

  datatype Action =
    | LinkChanged(dev: string, up: bool, lowerUp: bool)
    | Configured(dev: string, cfg: InterfaceConfiguration)
    | DhcpAnswered(dev: string, result: DhcpResult)
    | Registered(dev: string, id: int)
    | Unregistered(dev: string, accepted: bool)

  datatype System = System(devs: map<string, Device>, trace: seq<Event>)

  function OnAction(d: Device, a: Action): (Device, seq<Event>) {
    match a
    case LinkChanged(_, up, lowerUp) => OnLinkEvent(d, up, lowerUp)
    case Configured(_, cfg) => OnConfig(d, cfg)
    case DhcpAnswered(_, result) => OnDhcpResult(d, result)
    case Registered(_, id) => (OnRegister(d, id), [])
    case Unregistered(_, accepted) => (OnUnregister(d, accepted), [])
  }

  /** An action on an unknown device is ignored. */
  function Act(s: System, a: Action): System {
    if a.dev !in s.devs then s
    else
      var (d, sent) := OnAction(s.devs[a.dev], a);
      System(s.devs[a.dev := d], s.trace + sent)
  }

  function Run(s: System, actions: seq<Action>): System
    decreases |actions|
  {
    if actions == [] then s else Run(Act(s, actions[0]), actions[1..])
  }

  function Balance(trace: seq<Event>, dev: string): int {
    if trace == [] then 0
    else (if trace[0] == DhcpStarted(dev) then 1 else if trace[0] == DhcpStopped(dev) then -1 else 0)
         + Balance(trace[1..], dev)
  }

  predicate Quiet(trace: seq<Event>) {
    forall i :: 0 <= i < |trace| && trace[i].LinkInfoSent? ==> trace[i].link != LINK_UNAVAILABLE
  }

  predicate DeviceInv(d: Device, name: string, trace: seq<Event>) {
    && d.name == name
    && Balance(trace, name) == (if d.dhcpReq then 1 else 0)
    && (d.link == LINK_AVAILABLE ==> d.linkUp && d.lowerUp)
    && (d.link == LINK_UNAVAILABLE ==> !(d.linkUp && d.lowerUp))
  }

  predicate Inv(s: System) {
    Quiet(s.trace) && forall name :: name in s.devs ==> DeviceInv(s.devs[name], name, s.trace)
  }

  lemma {:induction false} BalanceConcat(a: seq<Event>, b: seq<Event>, dev: string)
    ensures Balance(a + b, dev) == Balance(a, dev) + Balance(b, dev)
  {
    if a == [] {
      assert a + b == b;
    } else {
      BalanceConcat(a[1..], b, dev);
      assert (a + b)[1..] == a[1..] + b;
    }
  }

  lemma BalanceOne(e: Event, dev: string)
    ensures Balance([e], dev) == if e == DhcpStarted(dev) then 1 else if e == DhcpStopped(dev) then -1 else 0
  {
    assert [e][1..] == [];
  }

  predicate NoDhcp(trace: seq<Event>) {
    forall i :: 0 <= i < |trace| ==> !trace[i].DhcpStarted? && !trace[i].DhcpStopped?
  }

  /** Events that are no DHCP calls do not count. */
  lemma {:induction false} NoDhcpNoBalance(trace: seq<Event>, dev: string)
    requires NoDhcp(trace)
    ensures Balance(trace, dev) == 0
  {
    if trace != [] {
      NoDhcpNoBalance(trace[1..], dev);
    }
  }

  /** One link event starts or stops the client exactly when it flips the request flag. */
  lemma LinkEventBalance(d: Device, up: bool, lowerUp: bool, dev: string)
    ensures var (d', sent) := OnLinkEvent(d, up, lowerUp);
      Balance(sent, dev) == if dev == d.name then (if d'.dhcpReq then 1 else 0) - (if d.dhcpReq then 1 else 0) else 0
  {
    var d0 := d.(linkUp := up, lowerUp := lowerUp);
    var (d1, sent) := SendSupplierInfo(d0);
    if lowerUp {
      NoDhcpNoBalance(sent, dev);
      NoDhcpNoBalance(SendLinkInfo(d1), dev);
      BalanceConcat(sent, SendLinkInfo(d1), dev);
      BalanceConcat(sent, [DhcpStarted(d.name)], dev);
      BalanceOne(DhcpStarted(d.name), dev);
    } else {
      var (d2, sent2) := SendSupplierInfo(d0.(dhcpReq := false));
      NoDhcpNoBalance(sent, dev);
      NoDhcpNoBalance(sent2, dev);
      BalanceConcat([DhcpStopped(d.name)], sent2, dev);
      BalanceOne(DhcpStopped(d.name), dev);
      assert [] + sent == sent;
    }
  }

  lemma ActionBalance(d: Device, a: Action, dev: string)
    ensures var (d', sent) := OnAction(d, a);
      Balance(sent, dev) == if dev == d.name then (if d'.dhcpReq then 1 else 0) - (if d.dhcpReq then 1 else 0) else 0
    ensures Quiet(OnAction(d, a).1)
  {
    match a
    case LinkChanged(_, up, lowerUp) => LinkEventBalance(d, up, lowerUp, dev);
    case Configured(_, cfg) => NoDhcpNoBalance(OnConfig(d, cfg).1, dev);
    case DhcpAnswered(_, result) => NoDhcpNoBalance(OnDhcpResult(d, result).1, dev);
    case _ =>
  }

  /** The device that acts keeps its invariant. */
  lemma ActorKept(d: Device, a: Action, trace: seq<Event>)
    requires DeviceInv(d, d.name, trace)
    ensures DeviceInv(OnAction(d, a).0, d.name, trace + OnAction(d, a).1)
  {
    ActionBalance(d, a, d.name);
    BalanceConcat(trace, OnAction(d, a).1, d.name);
  }

  /** So does every other device. */
  lemma OtherKept(d: Device, a: Action, other: Device, trace: seq<Event>)
    requires DeviceInv(other, other.name, trace) && other.name != d.name
    ensures DeviceInv(other, other.name, trace + OnAction(d, a).1)
  {
    ActionBalance(d, a, other.name);
    BalanceConcat(trace, OnAction(d, a).1, other.name);
  }

  lemma InvPreserved(s: System, a: Action)
    requires Inv(s)
    ensures Inv(Act(s, a)) && Act(s, a).devs.Keys == s.devs.Keys
  {
    if a.dev in s.devs {
      var d := s.devs[a.dev];
      assert DeviceInv(d, a.dev, s.trace);
      ActionBalance(d, a, a.dev);
      ActorKept(d, a, s.trace);
      forall name | name in s.devs && name != a.dev
        ensures DeviceInv(s.devs[name], name, s.trace + OnAction(d, a).1)
      {
        assert DeviceInv(s.devs[name], name, s.trace);
        OtherKept(d, a, s.devs[name], s.trace);
      }
    }
  }

  /**
   A sender of link information is registered with the connection service exactly when its id is above the
   minimum, and an unregistered device is not kept from sending.
   */
  predicate SenderKnown(d: Device) {
    d.link == UNREGISTERED <==> d.supplier <= MINIMUM_SUPPLIER_ID
  }

  predicate SendersKnown(s: System) {
    && (forall name :: name in s.devs ==> SenderKnown(s.devs[name]))
    && (forall e :: e in s.trace && e.LinkInfoSent? ==>
          (e.link == UNREGISTERED <==> e.supplier <= MINIMUM_SUPPLIER_ID))
  }

  /** One action sends link information under a registered id iff the device was registered before it. */
  lemma SenderRegistered(d: Device, a: Action)
    requires SenderKnown(d)
    ensures var (d', sent) := OnAction(d, a);
      && SenderKnown(d')
      && forall e :: e in sent && e.LinkInfoSent? ==>
           && e.supplier == d.supplier
           && (e.supplier > MINIMUM_SUPPLIER_ID <==> d.link != UNREGISTERED)
           && (e.link == UNREGISTERED <==> d.link == UNREGISTERED)
  {
  }

  /** An unregistered device whose link is up answers a DHCP result by sending under an id that nobody gave out. */
  lemma UnregisteredSends(d: Device, r: DhcpResult)
    requires SenderKnown(d) && d.link == UNREGISTERED && d.linkUp
    ensures OnDhcpResult(d, r).1
         == [LinkInfoSent(d.supplier, DhcpLinkInfo(CachedOrNew(d), d.name, r), UNREGISTERED)]
    ensures d.supplier <= MINIMUM_SUPPLIER_ID
  {
  }

  lemma {:induction false} RunSenders(s: System, actions: seq<Action>)
    requires SendersKnown(s)
    ensures SendersKnown(Run(s, actions))
    decreases |actions|
  {
    if actions != [] {
      if actions[0].dev in s.devs {
        SenderRegistered(s.devs[actions[0].dev], actions[0]);
      }
      RunSenders(Act(s, actions[0]), actions[1..]);
    }
  }

  /**
   The code as it stands: the first configuration is applied before the device has its name, so its route
   and the address it sets are those of an interface with the empty name.
   */
  lemma InitialConfigNameless(name: string, flags: UInt32, id: int)
    ensures var (d, sent) := InitDevice(name, flags, id);
      && d.linkInfo.Some? && d.linkInfo.value.routeList == [Route("", PlainAddr(""), PlainAddr(""))]
      && |sent| > 0 && sent[0] == AddressSet("", "")
  {
  }

  predicate NoLinkEvent(actions: seq<Action>, dev: string) {
    forall i :: 0 <= i < |actions| && actions[i].LinkChanged? ==> actions[i].dev != dev
  }

  /** Nothing but a link event changes the request flag or the link flags of a device. */
  lemma {:induction false} FlagsStay(s: System, actions: seq<Action>, dev: string)
    requires dev in s.devs && NoLinkEvent(actions, dev)
    ensures dev in Run(s, actions).devs
    ensures var d, d' := s.devs[dev], Run(s, actions).devs[dev];
      d'.dhcpReq == d.dhcpReq && d'.linkUp == d.linkUp && d'.lowerUp == d.lowerUp
    decreases |actions|
  {
    if actions != [] {
      assert dev == actions[0].dev ==> !actions[0].LinkChanged?;
      FlagsStay(Act(s, actions[0]), actions[1..], dev);
    }
  }

  /**
   Over any run: from its last link event on, a device that was configured for DHCP then has a request pending
   iff lowerUp was reported, and a static one has one iff it had before; the link flags are those reported.
   */
  lemma LastLinkEventDecides(s: System, dev: string, up: bool, lowerUp: bool, later: seq<Action>)
    requires dev in s.devs && NoLinkEvent(later, dev)
    ensures var devs := Run(Act(s, LinkChanged(dev, up, lowerUp)), later).devs;
      && dev in devs && devs[dev].linkUp == up && devs[dev].lowerUp == lowerUp
      && devs[dev].dhcpReq == (if AsksDhcp(s.devs[dev].config) then lowerUp else s.devs[dev].dhcpReq)
  {
    LinkEventDhcp(s.devs[dev], up, lowerUp);
    FlagsStay(Act(s, LinkChanged(dev, up, lowerUp)), later, dev);
  }

  lemma InitDeviceInv(name: string, flags: UInt32, id: int, trace: seq<Event>)
    requires NoDhcp(trace) && Quiet(trace)
    ensures var (d, sent) := InitDevice(name, flags, id);
      && NoDhcp(trace + sent) && Quiet(trace + sent)
      && DeviceInv(d, name, trace + sent) && SenderKnown(d)
      && forall e :: e in sent ==> !e.LinkInfoSent?
  {
    NoDhcpNoBalance(trace + InitDevice(name, flags, id).1, name);
  }

  lemma InitOneInv(s: System, info: NlkEventInfo, id: int)
    requires Inv(s) && NoDhcp(s.trace) && SendersKnown(s)
    ensures var s' := InitOne(s, info, id);
      && Inv(s') && NoDhcp(s'.trace) && SendersKnown(s')
      && s'.devs.Keys == s.devs.Keys + (if info.iface == [] then {} else {Text(info.iface)})
  {
    if info.iface != [] {
      var name := Text(info.iface);
      var (d, sent) := InitDevice(name, info.ifiFlags, id);
      InitDeviceInv(name, info.ifiFlags, id, s.trace);
      forall other | other in s.devs
        ensures DeviceInv(s.devs[other], other, s.trace + sent)
      {
        assert DeviceInv(s.devs[other], other, s.trace);
        NoDhcpNoBalance(s.trace + sent, other);
        NoDhcpNoBalance(s.trace, other);
      }
    }
  }

  function NamesOf(infos: seq<NlkEventInfo>): set<string> {
    set i | 0 <= i < |infos| && infos[i].iface != [] :: Text(infos[i].iface)
  }

  /** Init leaves one device for each named interface, in a state that satisfies the invariants. */
  lemma {:induction false} InitInv(s: System, infos: seq<NlkEventInfo>, ids: seq<int>)
    requires |ids| == |infos| && Inv(s) && NoDhcp(s.trace) && SendersKnown(s)
    ensures var s' := InitAll(s, infos, ids);
      Inv(s') && NoDhcp(s'.trace) && SendersKnown(s') && s'.devs.Keys == s.devs.Keys + NamesOf(infos)
    decreases |infos|
  {
    if infos != [] {
      InitOneInv(s, infos[0], ids[0]);
      InitInv(InitOne(s, infos[0], ids[0]), infos[1..], ids[1..]);
      assert NamesOf(infos) == (if infos[0].iface == [] then {} else {Text(infos[0].iface)}) + NamesOf(infos[1..]) by {
        assert forall i :: 0 < i < |infos| ==> infos[i] == infos[1..][i - 1];
        assert forall i :: 0 <= i < |infos[1..]| ==> infos[1..][i] == infos[i + 1];
      }
    }
  }

  const NO_DEVICES := System(map[], [])

  /**
   From the start of the service, whatever interfaces the kernel lists and ids the connection service answers
   with, and over any sequence of actions afterwards: the devices are the named interfaces; for each of them
   the DHCP starts exceed the stops by one if a request is pending and by zero otherwise; no link information
   was sent by an unavailable device; and what was sent under an unregistered id was sent while unregistered.
   */
  lemma InitRuns(infos: seq<NlkEventInfo>, ids: seq<int>, actions: seq<Action>)
    requires |ids| == |infos|
    ensures var r := Run(InitAll(NO_DEVICES, infos, ids), actions);
      && r.devs.Keys == NamesOf(infos)
      && (forall name :: name in r.devs ==> Balance(r.trace, name) == (if r.devs[name].dhcpReq then 1 else 0))
      && Quiet(r.trace) && SendersKnown(r) && Inv(r)
  {
    InitInv(NO_DEVICES, infos, ids);
    RunInv(InitAll(NO_DEVICES, infos, ids), actions);
    RunSenders(InitAll(NO_DEVICES, infos, ids), actions);
  }

  /** New devices that have asked for nothing. */
  predicate Fresh(s: System) {
    s.trace == [] && forall name :: name in s.devs ==>
      s.devs[name].name == name && !s.devs[name].dhcpReq && s.devs[name].link == UNREGISTERED
  }

  /**
   Over any sequence of link events, configuration changes, DHCP results, registrations and
   unregistrations: for each device the DHCP starts exceed the stops by one if a request is pending and
   by zero otherwise; a device is marked available or unavailable in agreement with its two link flags;
   and no link info was sent by an unavailable device.
   */
  lemma {:induction false} RunInv(s: System, actions: seq<Action>)
    requires Inv(s)
    ensures Inv(Run(s, actions)) && Run(s, actions).devs.Keys == s.devs.Keys
    decreases |actions|
  {
    if actions != [] {
      InvPreserved(s, actions[0]);
      RunInv(Act(s, actions[0]), actions[1..]);
    }
  }

  lemma FreshRuns(s: System, actions: seq<Action>, name: string)
    requires Fresh(s) && name in s.devs
    ensures var r := Run(s, actions);
      && name in r.devs
      && Balance(r.trace, name) == (if r.devs[name].dhcpReq then 1 else 0)
      && Quiet(r.trace)
  {
    RunInv(s, actions);
  }

  /** After a link event a registered device is available iff both flags are up, and has said so to its supplier. */
  lemma LinkEventEffect(d: Device, up: bool, lowerUp: bool)
    requires d.link != UNREGISTERED
    ensures var (d', sent) := OnLinkEvent(d, up, lowerUp);
      && d'.link == (if up && lowerUp then LINK_AVAILABLE else LINK_UNAVAILABLE)
      && SupplierInfoSent(d.supplier, up && lowerUp) in sent
      && (lowerUp && !up ==> forall e :: e in sent ==> !e.LinkInfoSent?)
  {
  }
}

module Ethernet {
  import opened Machine
  import opened LinkTypes
  import opened NetlinkSpec
  import opened EthernetModel

  /** Everything outside the process: the connection service, the DHCP service, the kernel. */
  class World {
    ghost var trace: seq<Event>

    constructor ()
      ensures trace == []
    {
      trace := [];
    }

    method Send(e: Event)
      modifies this
      ensures trace == old(trace) + [e]
    {
      trace := trace + [e];
    }
  }

  class DevInterfaceState {
    const world: World
    var devName: string
    var connLinkState: ConnLinkState
    var netSupplier: int
    var linkUp: bool
    var lowerUp: bool
    var dhcpReqState: bool
    var linkInfo: Option<NetLinkInfo>
    var ifcfg: Option<InterfaceConfiguration>

    constructor (world: World)
      ensures this.world == world
      ensures State() == Device("", UNREGISTERED, 0, false, false, false, None, None)
    {
      this.world := world;
      devName, connLinkState, netSupplier := "", UNREGISTERED, 0;
      linkUp, lowerUp, dhcpReqState, linkInfo, ifcfg := false, false, false, None, None;
    }

    ghost function State(): Device
      reads this
    {
      Device(devName, connLinkState, netSupplier, linkUp, lowerUp, dhcpReqState, linkInfo, ifcfg)
    }

    /** The outcome of a method: the new state of the device and what was sent. */
    ghost predicate Became(trace: seq<Event>, d: (Device, seq<Event>))
      reads this, world
    {
      State() == d.0 && world.trace == trace + d.1
    }

    method UpdateSupplierAvailable() returns (isAvailable: bool)
      modifies this`connLinkState
      ensures isAvailable == (linkUp && lowerUp)
      ensures connLinkState == if isAvailable then LINK_AVAILABLE else LINK_UNAVAILABLE
    {
      isAvailable := linkUp && lowerUp;
      connLinkState := if isAvailable then LINK_AVAILABLE else LINK_UNAVAILABLE;
    }

    method RemoteUpdateNetSupplierInfo()
      modifies this`connLinkState, world
      ensures Became(old(world.trace), SendSupplierInfo(old(State())))
    {
      if connLinkState == UNREGISTERED {
        return;
      }
      var available := UpdateSupplierAvailable();
      world.Send(SupplierInfoSent(netSupplier, available));
    }

    method RemoteUpdateNetLinkInfo()
      modifies world
      ensures world.trace == old(world.trace) + SendLinkInfo(State())
    {
      if connLinkState == LINK_UNAVAILABLE {
        return;
      }
      if linkInfo.None? {
        return;
      }
      world.Send(LinkInfoSent(netSupplier, linkInfo.value, connLinkState));
    }

    method RemoteRegisterNetSupplier(id: int)
      modifies this`netSupplier, this`connLinkState
      ensures State() == OnRegister(old(State()), id)
    {
      if connLinkState == UNREGISTERED {
        netSupplier := id;
        if netSupplier > MINIMUM_SUPPLIER_ID {
          connLinkState := REGISTERED;
        }
      }
    }

    method RemoteUnregisterNetSupplier(accepted: bool)
      modifies this`netSupplier, this`connLinkState
      ensures State() == OnUnregister(old(State()), accepted)
    {
      if connLinkState == UNREGISTERED {
        return;
      }
      if accepted {
        connLinkState := UNREGISTERED;
        netSupplier := 0;
      }
    }

    method SetIfcfg(cfg: InterfaceConfiguration)
      modifies this`ifcfg, this`linkInfo, world
      ensures Became(old(world.trace), SetConfig(old(State()), cfg))
    {
      ifcfg := Some(cfg);
      if cfg.mode == STATIC {
        var info := if linkInfo.None? then NO_LINK_INFO else linkInfo.value;
        info := info.(netAddrList := [cfg.ipStatic.ipAddr]);
        info := info.(routeList := [Route(devName, cfg.ipStatic.route, cfg.ipStatic.gate)]);
        info := info.(dnsList := []);
        var it := 0;
        while it < |cfg.ipStatic.dnsServers|
          invariant 0 <= it <= |cfg.ipStatic.dnsServers|
          invariant info == StaticLinkInfo(CachedOrNew(old(State())), devName, cfg.ipStatic).(
                      dnsList := cfg.ipStatic.dnsServers[..it])
        {
          info := info.(dnsList := info.dnsList + [cfg.ipStatic.dnsServers[it]]);
          it := it + 1;
        }
        assert cfg.ipStatic.dnsServers[..it] == cfg.ipStatic.dnsServers;
        linkInfo := Some(info);
        world.Send(AddressSet(devName, cfg.ipStatic.ipAddr.address));
        Regroup(old(world.trace), [AddressSet(devName, cfg.ipStatic.ipAddr.address)], SendLinkInfo(State()));
        if connLinkState == LINK_AVAILABLE {
          RemoteUpdateNetLinkInfo();
        }
      }
    }

    method UpdateLinkInfo(iface: string, result: DhcpResult)
      modifies this`linkInfo
      ensures State() == old(State()).(linkInfo := Some(DhcpLinkInfo(CachedOrNew(old(State())), iface, result)))
    {
      var info := if linkInfo.None? then NO_LINK_INFO else linkInfo.value;
      var ipAddr := PlainAddr(result.yourCli).(addrType := result.ipType % 0x100);
      var routes: seq<Route> := [];
      if result.server != result.router1 {
        var to := if result.router1 == "*" then "0.0.0.0" else result.router1;
        routes := routes + [Route(iface, PlainAddr(to), PlainAddr(result.server))];
      }
      assert routes == DhcpRoute(iface, result.server, result.router1);
      if result.server != result.router2 {
        var to := if result.router2 == "*" then "0.0.0.0" else result.router2;
        routes := routes + [Route(iface, PlainAddr(to), PlainAddr(result.server))];
      }
      assert routes
          == DhcpRoute(iface, result.server, result.router1) + DhcpRoute(iface, result.server, result.router2);
      var servers := info.dnsList;
      servers := servers + [ipAddr.(address := result.dns1)];
      servers := servers + [ipAddr.(address := result.dns2)];
      assert servers == info.dnsList + [ipAddr.(address := result.dns1), ipAddr.(address := result.dns2)];
      linkInfo := Some(info.(netAddrList := [ipAddr], routeList := routes, dnsList := servers));
    }
  }

  lemma OneDeviceActs(s: System, a: Action, o: (Device, seq<Event>), s': System)
    requires a.dev in s.devs && OnAction(s.devs[a.dev], a) == o
    requires s'.devs == s.devs[a.dev := o.0] && s'.trace == s.trace + o.1
    ensures s' == Act(s, a)
  {
  }

  class EthernetManagement {
    const world: World
    var devs: map<string, DevInterfaceState>

    /** Every device is known under its own name, and talks to the same world. */
    ghost predicate Valid()
      reads this, devs.Values
    {
      forall name :: name in devs ==> devs[name].devName == name && devs[name].world == world
    }

    ghost function Devices(): map<string, Device>
      reads this, devs.Values
    {
      map name | name in devs :: devs[name].State()
    }

    ghost function Current(): System
      reads this, devs.Values, world
    {
      System(Devices(), world.trace)
    }

    constructor (world: World)
      ensures Valid() && this.world == world && devs == map[]
    {
      this.world := world;
      devs := map[];
    }

    /** `infos` is what the kernel lists, `ids` what the connection service answers to each registration. */
    method Init(infos: seq<NlkEventInfo>, ids: seq<int>)
      requires Valid() && |ids| == |infos|
      modifies `devs, world
      ensures Valid() && Current() == InitAll(old(Current()), infos, ids)
      ensures fresh(devs.Values - old(devs.Values))
    {
      ghost var goal := InitAll(Current(), infos, ids);
      var it := 0;
      while it < |infos|
        invariant 0 <= it <= |infos| && Valid()
        invariant InitAll(Current(), infos[it..], ids[it..]) == goal
        invariant fresh(devs.Values - old(devs.Values))
      {
        assert infos[it..][1..] == infos[it + 1..] && ids[it..][1..] == ids[it + 1..];
        InitInterface(infos[it], ids[it]);
        it := it + 1;
      }
    }

    /** One round of the loop. */
    method InitInterface(info: NlkEventInfo, id: int)
      requires Valid()
      modifies `devs, world
      ensures Valid() && Current() == InitOne(old(Current()), info, id)
      ensures fresh(devs.Values - old(devs.Values))
    {
      if info.iface == [] {
        return;
      }
      ghost var before := Current();
      var devState := InitDevState(Text(info.iface), info.ifiFlags, id);
      ghost var (d, sent) := InitDevice(Text(info.iface), info.ifiFlags, id);
      assert Devices() == before.devs;
      if Text(info.iface) !in devs {
        devs := devs[Text(info.iface) := devState];
        assert Devices() == before.devs[Text(info.iface) := d];
      }
    }

    method InitDevState(devName: string, flags: UInt32, id: int) returns (devState: DevInterfaceState)
      modifies world
      ensures fresh(devState) && devState.world == world && devState.devName == devName
      ensures devState.Became(old(world.trace), InitDevice(devName, flags, id))
    {
      ghost var trace := world.trace;
      devState := new DevInterfaceState(world);
      devState.SetIfcfg(NO_CONFIG);
      ghost var configured := SetConfig(NEW_DEVICE, NO_CONFIG).1;
      assert world.trace == trace + configured;
      devState.devName := devName;
      devState.linkUp := IsUp(flags);
      devState.lowerUp := IsLowerUp(flags);
      devState.RemoteRegisterNetSupplier(id);
      ghost var d1 := devState.State();
      if devState.linkUp && devState.lowerUp {
        devState.RemoteUpdateNetSupplierInfo();
        Regroup(trace, configured, SendSupplierInfo(d1).1);
      } else {
        assert configured + [] == configured;
      }
    }

    /** The listener's call. */
    method Handle(info: NlkEventInfo)
      requires Valid()
      modifies devs.Values, world
      ensures Valid()
      ensures Current()
           == Act(old(Current()), LinkChanged(Text(info.iface), IsUp(info.ifiFlags), IsLowerUp(info.ifiFlags)))
    {
      UpdateInterfaceState(Text(info.iface), IsUp(info.ifiFlags), IsLowerUp(info.ifiFlags));
    }

    method UpdateInterfaceState(dev: string, up: bool, lowerUp: bool)
      requires Valid()
      modifies devs.Values, world
      ensures Valid() && Current() == Act(old(Current()), LinkChanged(dev, up, lowerUp))
    {
      if dev !in devs {
        return;
      }
      ghost var before := Current();
      ApplyLinkState(devs[dev], up, lowerUp);
      assert Devices() == before.devs[dev := devs[dev].State()];
      OneDeviceActs(before, LinkChanged(dev, up, lowerUp), OnLinkEvent(before.devs[dev], up, lowerUp), Current());
    }

    /** The part of UpdateInterfaceState that concerns the device that was found. */
    method ApplyLinkState(devState: DevInterfaceState, up: bool, lowerUp: bool)
      requires devState.world == world
      modifies devState`linkUp, devState`lowerUp, devState`dhcpReqState, devState`connLinkState, world
      ensures devState.Became(old(world.trace), OnLinkEvent(old(devState.State()), up, lowerUp))
    {
      devState.linkUp := up;
      devState.lowerUp := lowerUp;
      ghost var d0, trace := devState.State(), world.trace;
      var mode := if devState.ifcfg.None? then STATIC else devState.ifcfg.value.mode;
      var dhcpReqState := devState.dhcpReqState;
      if lowerUp {
        devState.RemoteUpdateNetSupplierInfo();
        ghost var (d1, sent) := SendSupplierInfo(d0);
        if mode == DHCP && !dhcpReqState {
          world.Send(DhcpStarted(devState.devName));
          devState.dhcpReqState := true;
          Regroup(trace, sent, [DhcpStarted(d0.name)]);
        } else {
          devState.RemoteUpdateNetLinkInfo();
          Regroup(trace, sent, SendLinkInfo(d1));
        }
      } else {
        ghost var stop := [];
        if mode == DHCP && dhcpReqState {
          world.Send(DhcpStopped(devState.devName));
          devState.dhcpReqState := false;
          stop := [DhcpStopped(d0.name)];
        }
        assert world.trace == trace + stop;
        ghost var d1 := devState.State();
        devState.RemoteUpdateNetSupplierInfo();
        Regroup(trace, stop, SendSupplierInfo(d1).1);
      }
    }

    method UpdateDevInterfaceState(iface: string, cfg: InterfaceConfiguration) returns (ok: bool)
      requires Valid()
      modifies devs.Values, world
      ensures Valid() && Current() == Act(old(Current()), Configured(iface, cfg))
      ensures ok <==> iface in devs && old(devs[iface].linkUp)
    {
      if iface !in devs {
        return false;
      }
      if !devs[iface].linkUp {
        return false;
      }
      devs[iface].SetIfcfg(cfg);
      return true;
    }

    method UpdateDevInterfaceLinkInfo(iface: string, result: DhcpResult) returns (ok: bool)
      requires Valid()
      modifies devs.Values, world
      ensures Valid() && Current() == Act(old(Current()), DhcpAnswered(iface, result))
      ensures ok <==> iface in devs && old(devs[iface].linkUp)
    {
      if iface !in devs {
        return false;
      }
      if !devs[iface].linkUp {
        return false;
      }
      devs[iface].UpdateLinkInfo(iface, result);
      devs[iface].RemoteUpdateNetLinkInfo();
      return true;
    }
  }
}
