/** The value types of the connection manager: addresses, routes and link information. */
module LinkTypes {
  import opened Machine

  datatype INetAddr = INetAddr(
    addrType: Byte, family: Byte, prefixlen: Byte, address: string, netMask: string, hostName: string)

  datatype Route = Route(iface: string, destination: INetAddr, gateway: INetAddr)

  datatype NetLinkInfo = NetLinkInfo(
    ifaceName: string,
    domain: string,
    netAddrList: seq<INetAddr>,
    dnsList: seq<INetAddr>,
    routeList: seq<Route>,
    mtu: UInt16)

  /** A default-constructed NetLinkInfo. */
  const NO_LINK_INFO := NetLinkInfo("", "", [], [], [], 0)

  /** INetAddr::operator== */
  predicate SameAddr(a: INetAddr, b: INetAddr) {
    && a.addrType == b.addrType && a.family == b.family && a.prefixlen == b.prefixlen
    && a.address == b.address && a.netMask == b.netMask && a.hostName == b.hostName
  }

  /** Route::operator== */
  predicate SameRoute(a: Route, b: Route) {
    a.iface == b.iface && SameAddr(a.destination, b.destination) && SameAddr(a.gateway, b.gateway)
  }
}
