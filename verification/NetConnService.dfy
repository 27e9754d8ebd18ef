/** The registry of suppliers, networks and services (net_conn_service.cpp). */
module Registry {
  import opened Machine
  import opened Network
  import opened NetService

  const CAP_INTERNET: nat := 1
  const CAP_MMS: nat := 2

  predicate HasInternet(capabilities: nat) {
    capabilities % 2 == 1
  }

  predicate HasMms(capabilities: nat) {
    capabilities / 2 % 2 == 1
  }

  predicate SameSupplier(a: NetSupplier, b: NetSupplier) {
    a.supplierId == b.supplierId && a.netType == b.netType && a.ident == b.ident
  }

  /** Network::operator== */
  predicate SameNetwork(a: Network, b: Network) {
    SameSupplier(a.supplier, b.supplier) && a.netId == b.netId
  }

  function FindSupplier(l: seq<NetSupplier>, id: UInt32): NetSupplier? {
    if l == [] then null else if l[0].supplierId == id then l[0] else FindSupplier(l[1..], id)
  }

  function FindByName(l: seq<NetSupplier>, netType: nat, ident: string): NetSupplier? {
    if l == [] then null
    else if l[0].netType == netType && l[0].ident == ident then l[0]
    else FindByName(l[1..], netType, ident)
  }

  function FindNetwork(l: seq<Network>, id: UInt32): Network? {
    if l == [] then null else if l[0].supplier.supplierId == id then l[0] else FindNetwork(l[1..], id)
  }

  function WithoutSupplier(l: seq<NetSupplier>, id: UInt32): seq<NetSupplier> {
    if l == [] then [] else if l[0].supplierId == id then l[1..] else [l[0]] + WithoutSupplier(l[1..], id)
  }

  function WithoutNetwork(l: seq<Network>, id: UInt32): seq<Network> {
    if l == [] then [] else if l[0].supplier.supplierId == id then l[1..] else [l[0]] + WithoutNetwork(l[1..], id)
  }

  /** The services whose network is not (equal to) the given one: identity and order are kept. */
  function ServicesOffNetwork(l: seq<NetService>, n: Network): seq<NetService> {
    if l == [] then []
    else (if SameNetwork(l[0].network, n) then [] else [l[0]]) + ServicesOffNetwork(l[1..], n)
  }

  predicate IsService(v: NetService, netId: int, cap: nat) {
    v.network.netId == netId && v.netCapability == cap
  }

  predicate HasService(l: seq<NetService>, netId: int, cap: nat) {
    exists i :: 0 <= i < |l| && IsService(l[i], netId, cap)
  }

  function WithoutService(l: seq<NetService>, netId: int, cap: nat): seq<NetService> {
    if l == [] then []
    else if IsService(l[0], netId, cap) then l[1..]
    else [l[0]] + WithoutService(l[1..], netId, cap)
  }

  /** The three lists correspond. */
  ghost predicate Corresponding(suppliers: seq<NetSupplier>, networks: seq<Network>, services: seq<NetService>) {
    && |networks| == |suppliers|
    && (forall i :: 0 <= i < |networks| ==> networks[i].supplier == suppliers[i])
    && DistinctSuppliers(suppliers)
    && (forall v :: v in services ==> ServiceFits(v, networks))
    && OneServiceEach(services)
  }

  predicate DistinctSuppliers(suppliers: seq<NetSupplier>) {
    && (forall i, j :: 0 <= i < j < |suppliers| ==> suppliers[i].supplierId != suppliers[j].supplierId)
    && (forall i, j :: 0 <= i < j < |suppliers| ==>
          suppliers[i].netType != suppliers[j].netType || suppliers[i].ident != suppliers[j].ident)
  }

  predicate ServiceFits(v: NetService, networks: seq<Network>) {
    && v.network in networks
    && v.networkType == v.network.supplier.netType
    && v.ident == v.network.supplier.ident
    && (v.netCapability == CAP_INTERNET || v.netCapability == CAP_MMS)
  }

  /** At most one service for a network and a capability. */
  predicate OneServiceEach(services: seq<NetService>) {
    forall i, j :: 0 <= i < j < |services| ==>
      services[i].network != services[j].network || services[i].netCapability != services[j].netCapability
  }

  predicate DistinctNetIds(networks: seq<Network>) {
    forall i, j :: 0 <= i < j < |networks| ==> networks[i].netId != networks[j].netId
  }

  // Lookups

  lemma {:induction false} FindSupplierMeans(l: seq<NetSupplier>, id: UInt32)
    ensures FindSupplier(l, id) == null <==> forall i :: 0 <= i < |l| ==> l[i].supplierId != id
    ensures FindSupplier(l, id) != null ==> FindSupplier(l, id) in l && FindSupplier(l, id).supplierId == id
  {
    if l != [] {
      FindSupplierMeans(l[1..], id);
    }
  }

  lemma {:induction false} FindByNameMeans(l: seq<NetSupplier>, netType: nat, ident: string)
    ensures FindByName(l, netType, ident) == null <==>
      forall i :: 0 <= i < |l| ==> l[i].netType != netType || l[i].ident != ident
    ensures FindByName(l, netType, ident) != null ==>
      var s := FindByName(l, netType, ident); s in l && s.netType == netType && s.ident == ident
  {
    if l != [] {
      FindByNameMeans(l[1..], netType, ident);
    }
  }

  /** Where the lists correspond, a supplier that is found has its network at the same position. */
  lemma {:induction false} FindTogether(suppliers: seq<NetSupplier>, networks: seq<Network>, id: UInt32)
    requires |networks| == |suppliers|
    requires forall i :: 0 <= i < |networks| ==> networks[i].supplier == suppliers[i]
    ensures FindNetwork(networks, id) == null <==> FindSupplier(suppliers, id) == null
    ensures FindNetwork(networks, id) != null ==>
      FindNetwork(networks, id) in networks && FindNetwork(networks, id).supplier == FindSupplier(suppliers, id)
  {
    if suppliers != [] {
      FindTogether(suppliers[1..], networks[1..], id);
    }
  }

  // Removal

  /** The position of a supplier that is found, where the removals cut both lists. */
  lemma {:induction false} CutTogether(suppliers: seq<NetSupplier>, networks: seq<Network>, id: UInt32) returns (k: nat)
    requires |networks| == |suppliers|
    requires forall i :: 0 <= i < |networks| ==> networks[i].supplier == suppliers[i]
    requires FindSupplier(suppliers, id) != null
    ensures k < |suppliers| && suppliers[k] == FindSupplier(suppliers, id) && suppliers[k].supplierId == id
    ensures networks[k] == FindNetwork(networks, id)
    ensures WithoutSupplier(suppliers, id) == suppliers[..k] + suppliers[k + 1..]
    ensures WithoutNetwork(networks, id) == networks[..k] + networks[k + 1..]
  {
    if suppliers[0].supplierId == id {
      k := 0;
    } else {
      var j := CutTogether(suppliers[1..], networks[1..], id);
      k := j + 1;
      CutBehindHead(suppliers, j);
      CutBehindHead(networks, j);
    }
  }

  lemma CutBehindHead<T>(l: seq<T>, j: nat)
    requires j + 1 < |l|
    ensures [l[0]] + (l[1..][..j] + l[1..][j + 1..]) == l[..j + 1] + l[j + 2..]
  {
  }

  /** The deletion by network is a filter: it treats every service on its own and keeps the order. */
  lemma {:induction false} OffNetworkFilters(a: seq<NetService>, b: seq<NetService>, v: NetService, n: Network)
    ensures ServicesOffNetwork(a + b, n) == ServicesOffNetwork(a, n) + ServicesOffNetwork(b, n)
    ensures ServicesOffNetwork([v], n)
         == if v.network.netId == n.netId && SameSupplier(v.network.supplier, n.supplier) then [] else [v]
  {
    assert [v][1..] == [];
    if a == [] {
      assert a + b == b;
    } else {
      OffNetworkFilters(a[1..], b, v, n);
      assert (a + b)[1..] == a[1..] + b;
      var head := if SameNetwork(a[0].network, n) then [] else [a[0]];
      Regroup(head, ServicesOffNetwork(a[1..], n), ServicesOffNetwork(b, n));
    }
  }

  /** The deletion by capability removes the first match, and nothing else moves. */
  lemma {:induction false} WithoutServiceCuts(l: seq<NetService>, netId: int, cap: nat) returns (k: nat)
    ensures k <= |l| && forall j :: 0 <= j < k ==> l[j].network.netId != netId || l[j].netCapability != cap
    ensures if k == |l| then WithoutService(l, netId, cap) == l
            else l[k].network.netId == netId && l[k].netCapability == cap
                 && WithoutService(l, netId, cap) == l[..k] + l[k + 1..]
  {
    if l == [] || IsService(l[0], netId, cap) {
      k := 0;
    } else {
      var j := WithoutServiceCuts(l[1..], netId, cap);
      k := j + 1;
      assert [l[0]] + l[1..] == l;
      if j + 1 < |l| {
        CutBehindHead(l, j);
      }
    }
  }

  lemma {:induction false} OffNetworkKeeps(l: seq<NetService>, n: Network)
    requires OneServiceEach(l)
    ensures forall v :: v in ServicesOffNetwork(l, n) ==> v in l && !SameNetwork(v.network, n)
    ensures forall v :: v in l && !SameNetwork(v.network, n) ==> v in ServicesOffNetwork(l, n)
    ensures OneServiceEach(ServicesOffNetwork(l, n))
  {
    if l != [] {
      OffNetworkKeeps(l[1..], n);
      var rest := ServicesOffNetwork(l[1..], n);
      assert forall v :: v in l <==> v == l[0] || v in l[1..];
      forall j | 0 <= j < |rest|
        ensures rest[j].network != l[0].network || rest[j].netCapability != l[0].netCapability
      {
        assert rest[j] in rest;
        assert rest[j] in l[1..];
        var m :| 0 <= m < |l[1..]| && l[1..][m] == rest[j];
        assert l[m + 1] == rest[j];
      }
    }
  }

  lemma {:induction false} WithoutServiceKeeps(l: seq<NetService>, netId: int, cap: nat)
    requires OneServiceEach(l)
    ensures forall v :: v in WithoutService(l, netId, cap) ==> v in l
    ensures OneServiceEach(WithoutService(l, netId, cap))
  {
    if l != [] && !IsService(l[0], netId, cap) {
      WithoutServiceKeeps(l[1..], netId, cap);
      var rest := WithoutService(l[1..], netId, cap);
      assert forall v :: v in l <==> v == l[0] || v in l[1..];
      forall j | 0 <= j < |rest|
        ensures rest[j].network != l[0].network || rest[j].netCapability != l[0].netCapability
      {
        assert rest[j] in rest;
        assert rest[j] in l[1..];
        var m :| 0 <= m < |l[1..]| && l[1..][m] == rest[j];
        assert l[m + 1] == rest[j];
      }
    }
  }

  /** Networks that are listed are equal only if they are the same. */
  lemma ListedNetworksDiffer(suppliers: seq<NetSupplier>, networks: seq<Network>, services: seq<NetService>, a: Network,
                             b: Network)
    requires Corresponding(suppliers, networks, services) && a in networks && b in networks
    ensures SameNetwork(a, b) <==> a == b
    ensures a.supplier.supplierId == b.supplier.supplierId ==> a == b
  {
    var i :| 0 <= i < |networks| && networks[i] == a;
    var j :| 0 <= j < |networks| && networks[j] == b;
    assert a.supplier == suppliers[i] && b.supplier == suppliers[j];
  }

  /** Unregistering keeps the correspondence, and removes exactly the services of the supplier's network. */
  lemma UnregisterKeeps(suppliers: seq<NetSupplier>, networks: seq<Network>, services: seq<NetService>, id: UInt32)
    requires Corresponding(suppliers, networks, services) && FindSupplier(suppliers, id) != null
    requires FindNetwork(networks, id) != null
    ensures var n := FindNetwork(networks, id);
      && Corresponding(WithoutSupplier(suppliers, id), WithoutNetwork(networks, id), ServicesOffNetwork(services, n))
      && (forall v :: v in ServicesOffNetwork(services, n) <==> v in services && v.network != n)
      && FindSupplier(WithoutSupplier(suppliers, id), id) == null
  {
    var k := CutTogether(suppliers, networks, id);
    CutKeeps(suppliers, networks, k);
    CutServices(suppliers, networks, services, k);
    FindSupplierMeans(WithoutSupplier(suppliers, id), id);
  }

  lemma CutServices(suppliers: seq<NetSupplier>, networks: seq<Network>, services: seq<NetService>, k: nat)
    requires Corresponding(suppliers, networks, services) && k < |networks|
    ensures var after := ServicesOffNetwork(services, networks[k]);
      && (forall v :: v in after <==> v in services && v.network != networks[k])
      && (forall v :: v in after ==> ServiceFits(v, networks[..k] + networks[k + 1..]))
      && OneServiceEach(after)
  {
    OffNetworkKeeps(services, networks[k]);
    forall v | v in services
      ensures SameNetwork(v.network, networks[k]) <==> v.network == networks[k]
      ensures v.network != networks[k] ==> ServiceFits(v, networks[..k] + networks[k + 1..])
    {
      assert ServiceFits(v, networks);
      ListedNetworksDiffer(suppliers, networks, services, v.network, networks[k]);
      if v.network != networks[k] {
        StillListed(networks, k, v.network);
      }
    }
  }

  lemma CutKeeps(suppliers: seq<NetSupplier>, networks: seq<Network>, k: nat)
    requires k < |networks| == |suppliers| && DistinctSuppliers(suppliers)
    requires forall i :: 0 <= i < |networks| ==> networks[i].supplier == suppliers[i]
    ensures var ss, ns := suppliers[..k] + suppliers[k + 1..], networks[..k] + networks[k + 1..];
      && DistinctSuppliers(ss)
      && |ns| == |ss|
      && (forall i :: 0 <= i < |ns| ==> ns[i].supplier == ss[i])
      && (forall i :: 0 <= i < |ss| ==> ss[i].supplierId != suppliers[k].supplierId)
  {
    var ss := suppliers[..k] + suppliers[k + 1..];
    assert forall i :: 0 <= i < |ss| ==> ss[i] == if i < k then suppliers[i] else suppliers[i + 1];
  }

  lemma StillListed(networks: seq<Network>, k: nat, n: Network)
    requires k < |networks| && n in networks && n != networks[k]
    ensures n in networks[..k] + networks[k + 1..]
  {
    var i :| 0 <= i < |networks| && networks[i] == n;
    if i < k {
      assert networks[..k][i] == n;
    } else {
      assert networks[k + 1..][i - k - 1] == n;
    }
  }

  // Registration

  /** The capabilities a registration creates services for, in order. */
  function CapsOf(capabilities: nat): seq<nat> {
    (if HasInternet(capabilities) then [CAP_INTERNET] else []) + (if HasMms(capabilities) then [CAP_MMS] else [])
  }

  predicate ServicesFor(vs: seq<NetService>, n: Network, capabilities: nat) {
    && |vs| == |CapsOf(capabilities)|
    && forall i :: 0 <= i < |vs| ==>
         && vs[i].network == n
         && vs[i].networkType == n.supplier.netType
         && vs[i].ident == n.supplier.ident
         && vs[i].netCapability == CapsOf(capabilities)[i]
  }

  /** The capability word with the two lowest bits given. */
  function Word(k: nat, internet: bool, mms: bool): nat {
    4 * k + (if mms then 2 else 0) + (if internet then 1 else 0)
  }

  /** Whatever the other bits are, bit 0 asks for INTERNET and bit 1 for MMS, in this order. */
  lemma CapsOfWord(k: nat, internet: bool, mms: bool)
    ensures CapsOf(Word(k, internet, mms))
         == (if internet && mms then [1, 2] else if internet then [1] else if mms then [2] else [])
    ensures (HasInternet(Word(k, internet, mms)) <==> internet) && (HasMms(Word(k, internet, mms)) <==> mms)
  {
    var w := Word(k, internet, mms);
    assert w / 2 == 2 * k + (if mms then 1 else 0);
    assert w == 2 * (w / 2) + (if internet then 1 else 0);
  }

  /** Among the services of network n there is one for capability 1 iff bit 0 is set, and one for 2 iff bit 1 is. */
  ghost predicate HasExactly(l: seq<NetService>, n: Network, internet: bool, mms: bool) {
    && ((exists v :: v in l && v.network == n && v.netCapability == 1) <==> internet)
    && ((exists v :: v in l && v.network == n && v.netCapability == 2) <==> mms)
  }

  /** The services that a registration with a word creates. */
  lemma ServicesOfWord(vs: seq<NetService>, n: Network, k: nat, internet: bool, mms: bool)
    requires ServicesFor(vs, n, Word(k, internet, mms))
    ensures |vs| == (if internet then 1 else 0) + (if mms then 1 else 0)
    ensures HasExactly(vs, n, internet, mms)
  {
    CapsOfWord(k, internet, mms);
    if internet {
      assert vs[0] in vs && vs[0].netCapability == 1;
    }
    if mms {
      assert vs[|vs| - 1] in vs && vs[|vs| - 1].netCapability == 2;
    }
  }

  lemma AddedExactly(l: seq<NetService>, vs: seq<NetService>, n: Network, internet: bool, mms: bool)
    requires HasExactly(vs, n, internet, mms) && forall v :: v in l ==> v.network != n
    ensures HasExactly(l + vs, n, internet, mms)
  {
    assert forall v :: v in l + vs <==> v in l || v in vs;
  }

  /** The services of the network after an exact update with a word. */
  lemma UpdatedToWord(l: seq<NetService>, after: seq<NetService>, n: Network, k: nat, internet: bool, mms: bool)
    requires CapsUpdated(l, after, n, Word(k, internet, mms))
    ensures HasExactly(after, n, internet, mms)
  {
    CapsOfWord(k, internet, mms);
  }

  lemma RegisterKeeps(suppliers: seq<NetSupplier>, networks: seq<Network>, services: seq<NetService>, n: Network,
                      vs: seq<NetService>, capabilities: nat)
    requires Corresponding(suppliers, networks, services) && ServicesFor(vs, n, capabilities)
    requires FindByName(suppliers, n.supplier.netType, n.supplier.ident) == null
    requires FindSupplier(suppliers, n.supplier.supplierId) == null
    ensures Corresponding(suppliers + [n.supplier], networks + [n], services + vs)
  {
    FindByNameMeans(suppliers, n.supplier.netType, n.supplier.ident);
    FindSupplierMeans(suppliers, n.supplier.supplierId);
    var all := services + vs;
    forall v | v in all
      ensures ServiceFits(v, networks + [n])
    {
      if v in services {
        assert ServiceFits(v, networks);
      }
      assert n in networks + [n];
    }
    forall i, j | 0 <= i < j < |all|
      ensures all[i].network != all[j].network || all[i].netCapability != all[j].netCapability
    {
      if i < |services| <= j {
        assert all[i] in services;
        var k :| 0 <= k < |networks| && networks[k] == all[i].network;
        assert networks[k].supplier == suppliers[k];
      }
    }
  }

  /** Registering a fresh supplier and unregistering it again restores all three lists. */
  lemma RegisterThenUnregister(suppliers: seq<NetSupplier>, networks: seq<Network>, services: seq<NetService>,
                               n: Network, vs: seq<NetService>, capabilities: nat)
    requires Corresponding(suppliers, networks, services) && ServicesFor(vs, n, capabilities)
    requires FindSupplier(suppliers, n.supplier.supplierId) == null
    ensures var id := n.supplier.supplierId;
      && FindNetwork(networks + [n], id) == n
      && WithoutSupplier(suppliers + [n.supplier], id) == suppliers
      && WithoutNetwork(networks + [n], id) == networks
      && ServicesOffNetwork(services + vs, n) == services
  {
    FindSupplierMeans(suppliers, n.supplier.supplierId);
    AppendedIsCut(suppliers, networks, n);
    forall v | v in services
      ensures !SameNetwork(v.network, n)
    {
      assert ServiceFits(v, networks);
      var k :| 0 <= k < |networks| && networks[k] == v.network;
      assert networks[k].supplier == suppliers[k];
    }
    OffNetworkAppended(services, vs, n);
  }

  lemma {:induction false} AppendedIsCut(suppliers: seq<NetSupplier>, networks: seq<Network>, n: Network)
    requires |networks| == |suppliers|
    requires forall i :: 0 <= i < |networks| ==> networks[i].supplier == suppliers[i]
    requires forall i :: 0 <= i < |suppliers| ==> suppliers[i].supplierId != n.supplier.supplierId
    ensures FindNetwork(networks + [n], n.supplier.supplierId) == n
    ensures WithoutSupplier(suppliers + [n.supplier], n.supplier.supplierId) == suppliers
    ensures WithoutNetwork(networks + [n], n.supplier.supplierId) == networks
  {
    if suppliers != [] {
      AppendedIsCut(suppliers[1..], networks[1..], n);
      assert (suppliers + [n.supplier])[1..] == suppliers[1..] + [n.supplier];
      assert (networks + [n])[1..] == networks[1..] + [n];
    }
  }

  lemma {:induction false} OffNetworkAppended(services: seq<NetService>, vs: seq<NetService>, n: Network)
    requires forall v :: v in services ==> !SameNetwork(v.network, n)
    requires forall v :: v in vs ==> v.network == n
    ensures ServicesOffNetwork(services + vs, n) == services
  {
    if services != [] {
      OffNetworkAppended(services[1..], vs, n);
      assert (services + vs)[1..] == services[1..] + vs;
    } else if vs != [] {
      OffNetworkAppended([], vs[1..], n);
      assert [] + vs == vs && [] + vs[1..] == vs[1..];
    }
  }

  // Capability updates

  /** The list after one capability of network n is asked for or not; vs holds the service to add, if any. */
  function AfterCap(l: seq<NetService>, n: Network, cap: nat, wanted: bool, vs: seq<NetService>): seq<NetService> {
    if HasService(l, n.netId, cap) then (if wanted then l else WithoutService(l, n.netId, cap))
    else if wanted then l + vs else l
  }

  predicate Supplied(l: seq<NetService>, n: Network, cap: nat, wanted: bool, vs: seq<NetService>) {
    wanted && !HasService(l, n.netId, cap) ==> |vs| == 1 && FitsCap(vs[0], n, cap)
  }

  ghost predicate HasOn(l: seq<NetService>, n: Network, cap: nat) {
    exists v :: v in l && v.network == n && v.netCapability == cap
  }

  /** The services of all other networks, in order. */
  function OnOthers(l: seq<NetService>, n: Network): seq<NetService> {
    if l == [] then [] else (if l[0].network == n then [] else [l[0]]) + OnOthers(l[1..], n)
  }

  predicate FitsCap(v: NetService, n: Network, cap: nat) {
    && v.network == n && v.netCapability == cap && (cap == CAP_INTERNET || cap == CAP_MMS)
    && v.networkType == n.supplier.netType && v.ident == n.supplier.ident
  }

  lemma CapKeeps(suppliers: seq<NetSupplier>, networks: seq<Network>, services: seq<NetService>, n: Network, cap: nat,
                 wanted: bool, vs: seq<NetService>)
    requires Corresponding(suppliers, networks, services) && n in networks && Supplied(services, n, cap, wanted, vs)
    ensures Corresponding(suppliers, networks, AfterCap(services, n, cap, wanted, vs))
  {
    WithoutServiceKeeps(services, n.netId, cap);
    if wanted && !HasService(services, n.netId, cap) {
      forall i | 0 <= i < |services|
        ensures services[i].network != n || services[i].netCapability != cap
      {
        assert !IsService(services[i], n.netId, cap);
      }
    }
  }

  lemma {:induction false} OnOthersWith(l: seq<NetService>, n: Network, v: NetService)
    requires v.network == n
    ensures OnOthers(l + [v], n) == OnOthers(l, n)
  {
    if l != [] {
      OnOthersWith(l[1..], n, v);
      assert (l + [v])[1..] == l[1..] + [v];
    } else {
      assert OnOthers([v], n) == [] + OnOthers([v][1..], n);
    }
  }

  /** The service that IsServiceInList and the deletion meet first. */
  function FirstService(l: seq<NetService>, netId: int, cap: nat): NetService? {
    if l == [] then null else if IsService(l[0], netId, cap) then l[0] else FirstService(l[1..], netId, cap)
  }

  lemma {:induction false} FirstServiceMeans(l: seq<NetService>, netId: int, cap: nat)
    ensures FirstService(l, netId, cap) == null <==> !HasService(l, netId, cap)
    ensures FirstService(l, netId, cap) != null ==>
      FirstService(l, netId, cap) in l && IsService(FirstService(l, netId, cap), netId, cap)
  {
    if l != [] {
      FirstServiceMeans(l[1..], netId, cap);
      if i :| 0 <= i < |l[1..]| && IsService(l[1..][i], netId, cap) {
        assert IsService(l[i + 1], netId, cap);
      }
      if i :| 0 <= i < |l| && IsService(l[i], netId, cap) {
        assert i > 0 ==> IsService(l[1..][i - 1], netId, cap);
      }
    }
  }

  lemma NoServiceNoneOn(l: seq<NetService>, n: Network, cap: nat)
    ensures HasOn(l, n, cap) ==> FirstService(l, n.netId, cap) != null
  {
    FirstServiceMeans(l, n.netId, cap);
    if v :| v in l && v.network == n && v.netCapability == cap {
      var i :| 0 <= i < |l| && l[i] == v;
      assert IsService(l[i], n.netId, cap);
    }
  }

  /** One capability was updated exactly: network n has it iff wanted, and nobody else is affected. */
  ghost predicate ExactlyUpdated(services: seq<NetService>, after: seq<NetService>, n: Network, cap: nat,
                                 wanted: bool)
  {
    (HasOn(after, n, cap) <==> wanted) && OnOthers(after, n) == OnOthers(services, n)
  }

  /**
   What the list must be like for one call to be exact. Asking for a capability, the search must not stop at
   another network's service unless n has its own; clearing it, the service met first must be on n.
   */
  ghost predicate Ready(l: seq<NetService>, n: Network, cap: nat, wanted: bool) {
    var first := FirstService(l, n.netId, cap);
    first == null || (if wanted then HasOn(l, n, cap) else first.network == n)
  }

  /** Deleting the first service: of network n it is its only one for the capability; of another it is missed there. */
  lemma {:induction false} FirstRemoved(l: seq<NetService>, n: Network, cap: nat)
    requires OneServiceEach(l) && FirstService(l, n.netId, cap) != null
    ensures var f, after := FirstService(l, n.netId, cap), WithoutService(l, n.netId, cap);
      if f.network == n then OnOthers(after, n) == OnOthers(l, n) && !HasOn(after, n, cap)
      else |OnOthers(after, n)| < |OnOthers(l, n)|
  {
    var rest := l[1..];
    if IsService(l[0], n.netId, cap) {
      forall v | v in rest && l[0].network == n
        ensures v.network != n || v.netCapability != cap
      {
        var i :| 0 <= i < |rest| && rest[i] == v;
        assert l[i + 1] == v;
      }
    } else {
      FirstRemoved(rest, n, cap);
      var after := WithoutService(rest, n.netId, cap);
      assert WithoutService(l, n.netId, cap)[1..] == after;
      assert forall v :: v in [l[0]] + after <==> v == l[0] || v in after;
    }
  }

  /**
   Whatever the net ids: one step is exact iff the list is ready for it; a list that is ready and already as it
   is wanted does not change.
   */
  lemma CapExactIff(services: seq<NetService>, n: Network, cap: nat, wanted: bool, vs: seq<NetService>)
    requires OneServiceEach(services) && Supplied(services, n, cap, wanted, vs)
    ensures var after := AfterCap(services, n, cap, wanted, vs);
      && (ExactlyUpdated(services, after, n, cap, wanted) <==> Ready(services, n, cap, wanted))
      && (Ready(services, n, cap, wanted) && HasOn(services, n, cap) == wanted ==> after == services)
  {
    var first := FirstService(services, n.netId, cap);
    FirstServiceMeans(services, n.netId, cap);
    NoServiceNoneOn(services, n, cap);
    if first == null && wanted {
      OnOthersWith(services, n, vs[0]);
      assert vs == [vs[0]];
      assert vs[0] in services + vs;
    } else if first != null && !wanted {
      FirstRemoved(services, n, cap);
    }
  }

  /** A deletion for one capability leaves the other one alone, and can only take from other networks. */
  lemma {:induction false} WithoutLeaves(l: seq<NetService>, n: Network, cap: nat, other: nat)
    requires other != cap
    ensures var after := WithoutService(l, n.netId, cap);
      && FirstService(after, n.netId, other) == FirstService(l, n.netId, other)
      && (HasOn(after, n, other) <==> HasOn(l, n, other))
      && (OnOthers(after, n) == OnOthers(l, n) || |OnOthers(after, n)| < |OnOthers(l, n)|)
  {
    if l != [] {
      assert forall v :: v in l <==> v == l[0] || v in l[1..];
      if !IsService(l[0], n.netId, cap) {
        WithoutLeaves(l[1..], n, cap, other);
        var rest := WithoutService(l[1..], n.netId, cap);
        assert WithoutService(l, n.netId, cap)[1..] == rest;
        assert forall v :: v in [l[0]] + rest <==> v == l[0] || v in rest;
      }
    }
  }

  lemma {:induction false} AddedLeaves(l: seq<NetService>, netId: int, v: NetService, other: nat)
    requires v.netCapability != other
    ensures FirstService(l + [v], netId, other) == FirstService(l, netId, other)
  {
    if l == [] {
      assert l + [v] == [v] && [v][1..] == [];
    } else {
      AddedLeaves(l[1..], netId, v, other);
      assert (l + [v])[1..] == l[1..] + [v];
    }
  }

  /** The same for the whole step of one capability. */
  lemma CapLeaves(services: seq<NetService>, n: Network, cap: nat, other: nat, wanted: bool, vs: seq<NetService>)
    requires other != cap && Supplied(services, n, cap, wanted, vs)
    ensures var after := AfterCap(services, n, cap, wanted, vs);
      && FirstService(after, n.netId, other) == FirstService(services, n.netId, other)
      && (HasOn(after, n, other) <==> HasOn(services, n, other))
      && (OnOthers(after, n) == OnOthers(services, n) || |OnOthers(after, n)| < |OnOthers(services, n)|)
  {
    WithoutLeaves(services, n, cap, other);
    if wanted && !HasService(services, n.netId, cap) {
      assert vs == [vs[0]];
      AddedLeaves(services, n.netId, vs[0], other);
      OnOthersWith(services, n, vs[0]);
      assert forall u :: u in services + vs <==> u in services || u == vs[0];
    }
  }

  /** How many listed services have the net id and the capability, be it on one network or on several. */
  function Matches(l: seq<NetService>, netId: int, cap: nat): nat {
    if l == [] then 0 else (if IsService(l[0], netId, cap) then 1 else 0) + Matches(l[1..], netId, cap)
  }

  lemma {:induction false} MatchesMeans(l: seq<NetService>, netId: int, cap: nat)
    ensures Matches(l, netId, cap) > 0 <==> HasService(l, netId, cap)
  {
    if l != [] {
      MatchesMeans(l[1..], netId, cap);
      if i :| 0 <= i < |l[1..]| && IsService(l[1..][i], netId, cap) {
        assert IsService(l[i + 1], netId, cap);
      }
      if i :| 0 <= i < |l| && IsService(l[i], netId, cap) {
        assert i > 0 ==> IsService(l[1..][i - 1], netId, cap);
      }
    }
  }

  /** A deletion takes one service, a match, if there is one. */
  lemma {:induction false} WithoutOne(l: seq<NetService>, netId: int, cap: nat, other: nat)
    requires other != cap
    ensures var after, one := WithoutService(l, netId, cap), (if Matches(l, netId, cap) > 0 then 1 else 0);
      && |after| == |l| - one
      && Matches(after, netId, cap) == Matches(l, netId, cap) - one
      && Matches(after, netId, other) == Matches(l, netId, other)
      && (one == 0 ==> after == l)
  {
    if l != [] && !IsService(l[0], netId, cap) {
      WithoutOne(l[1..], netId, cap, other);
      assert WithoutService(l, netId, cap)[1..] == WithoutService(l[1..], netId, cap);
      assert [l[0]] + l[1..] == l;
    }
  }

  lemma {:induction false} MatchesAdded(l: seq<NetService>, v: NetService, netId: int, cap: nat)
    ensures Matches(l + [v], netId, cap) == Matches(l, netId, cap) + (if IsService(v, netId, cap) then 1 else 0)
  {
    if l == [] {
      assert l + [v] == [v] && [v][1..] == [];
    } else {
      MatchesAdded(l[1..], v, netId, cap);
      assert (l + [v])[1..] == l[1..] + [v];
    }
  }

  /** What a step does to the numbers of matches; it changes nothing iff there is a match iff one is wanted. */
  lemma StepCounts(services: seq<NetService>, n: Network, cap: nat, other: nat, wanted: bool, vs: seq<NetService>)
    requires other != cap && Supplied(services, n, cap, wanted, vs)
    ensures var after, m := AfterCap(services, n, cap, wanted, vs), Matches(services, n.netId, cap);
      && Matches(after, n.netId, other) == Matches(services, n.netId, other)
      && Matches(after, n.netId, cap) == (if wanted then (if m == 0 then 1 else m) else if m == 0 then 0 else m - 1)
      && |after| == |services| + (if wanted && m == 0 then 1 else if !wanted && m > 0 then -1 else 0)
      && (after == services <==> (wanted <==> m > 0))
  {
    MatchesMeans(services, n.netId, cap);
    WithoutOne(services, n.netId, cap, other);
    if wanted && !HasService(services, n.netId, cap) {
      assert vs == [vs[0]];
      MatchesAdded(services, vs[0], n.netId, cap);
      MatchesAdded(services, vs[0], n.netId, other);
    }
  }

  /** Repeating a step changes nothing iff it asks, or the list had at most one match. */
  lemma CapRepeated(services: seq<NetService>, n: Network, cap: nat, wanted: bool, vs: seq<NetService>,
                    again: seq<NetService>)
    requires Supplied(services, n, cap, wanted, vs)
    requires Supplied(AfterCap(services, n, cap, wanted, vs), n, cap, wanted, again)
    ensures var once := AfterCap(services, n, cap, wanted, vs);
      AfterCap(once, n, cap, wanted, again) == once <==> wanted || Matches(services, n.netId, cap) <= 1
  {
    StepCounts(services, n, cap, cap + 1, wanted, vs);
    StepCounts(AfterCap(services, n, cap, wanted, vs), n, cap, cap + 1, wanted, again);
  }

  /** For each capability there is a match iff its bit is set. */
  predicate NothingToDo(l: seq<NetService>, n: Network, capabilities: nat) {
    && (HasInternet(capabilities) <==> Matches(l, n.netId, CAP_INTERNET) > 0)
    && (HasMms(capabilities) <==> Matches(l, n.netId, CAP_MMS) > 0)
  }

  /** Every capability that is cleared has at most one match. */
  predicate FewToClear(l: seq<NetService>, n: Network, capabilities: nat) {
    && (HasInternet(capabilities) || Matches(l, n.netId, CAP_INTERNET) <= 1)
    && (HasMms(capabilities) || Matches(l, n.netId, CAP_MMS) <= 1)
  }

  /** The list after UpdateNetCapabilities. */
  function AfterCaps(l: seq<NetService>, n: Network, capabilities: nat, internet: seq<NetService>,
                     mms: seq<NetService>): seq<NetService>
  {
    AfterCap(AfterCap(l, n, CAP_INTERNET, HasInternet(capabilities), internet), n, CAP_MMS, HasMms(capabilities), mms)
  }

  predicate SuppliedCaps(l: seq<NetService>, n: Network, capabilities: nat, internet: seq<NetService>,
                         mms: seq<NetService>)
  {
    var l1 := AfterCap(l, n, CAP_INTERNET, HasInternet(capabilities), internet);
    && Supplied(l, n, CAP_INTERNET, HasInternet(capabilities), internet)
    && Supplied(l1, n, CAP_MMS, HasMms(capabilities), mms)
  }

  /** The network has a service for each capability iff its bit is set, and all others keep theirs in order. */
  ghost predicate CapsUpdated(l: seq<NetService>, after: seq<NetService>, n: Network, capabilities: nat) {
    && (HasOn(after, n, CAP_INTERNET) <==> HasInternet(capabilities))
    && (HasOn(after, n, CAP_MMS) <==> HasMms(capabilities))
    && OnOthers(after, n) == OnOthers(l, n)
  }

  ghost predicate CapsReady(l: seq<NetService>, n: Network, capabilities: nat) {
    Ready(l, n, CAP_INTERNET, HasInternet(capabilities)) && Ready(l, n, CAP_MMS, HasMms(capabilities))
  }

  /** A whole UpdateNetCapabilities is exact iff the list is ready for both of its steps. */
  lemma CapsExactIff(suppliers: seq<NetSupplier>, networks: seq<Network>, services: seq<NetService>, n: Network,
                     capabilities: nat, internet: seq<NetService>, mms: seq<NetService>)
    requires Corresponding(suppliers, networks, services) && n in networks
    requires SuppliedCaps(services, n, capabilities, internet, mms)
    ensures var after := AfterCaps(services, n, capabilities, internet, mms);
      && (CapsUpdated(services, after, n, capabilities) <==> CapsReady(services, n, capabilities))
      && (CapsReady(services, n, capabilities) && CapsUpdated(services, services, n, capabilities) ==>
            after == services)
  {
    var first, second := HasInternet(capabilities), HasMms(capabilities);
    var l1 := AfterCap(services, n, CAP_INTERNET, first, internet);
    CapKeeps(suppliers, networks, services, n, CAP_INTERNET, first, internet);
    CapExactIff(services, n, CAP_INTERNET, first, internet);
    CapLeaves(services, n, CAP_INTERNET, CAP_MMS, first, internet);
    CapExactIff(l1, n, CAP_MMS, second, mms);
    CapLeaves(l1, n, CAP_MMS, CAP_INTERNET, second, mms);
  }

  /** An update changes nothing iff nothing is to be done; afterwards that is so iff there was little to clear. */
  lemma CapsUnchangedIff(services: seq<NetService>, n: Network, capabilities: nat, internet: seq<NetService>,
                         mms: seq<NetService>)
    requires SuppliedCaps(services, n, capabilities, internet, mms)
    ensures var after := AfterCaps(services, n, capabilities, internet, mms);
      && (after == services <==> NothingToDo(services, n, capabilities))
      && (NothingToDo(after, n, capabilities) <==> FewToClear(services, n, capabilities))
  {
    var l1 := AfterCap(services, n, CAP_INTERNET, HasInternet(capabilities), internet);
    StepCounts(services, n, CAP_INTERNET, CAP_MMS, HasInternet(capabilities), internet);
    StepCounts(l1, n, CAP_MMS, CAP_INTERNET, HasMms(capabilities), mms);
  }

  /** Whatever the net ids: repeating an update changes nothing iff every capability it clears had at most one match. */
  lemma CapsRepeated(services: seq<NetService>, n: Network, capabilities: nat, internet: seq<NetService>,
                     mms: seq<NetService>, internet': seq<NetService>, mms': seq<NetService>)
    requires SuppliedCaps(services, n, capabilities, internet, mms)
    requires SuppliedCaps(AfterCaps(services, n, capabilities, internet, mms), n, capabilities, internet', mms')
    ensures var once := AfterCaps(services, n, capabilities, internet, mms);
      AfterCaps(once, n, capabilities, internet', mms') == once <==> FewToClear(services, n, capabilities)
  {
    CapsUnchangedIff(services, n, capabilities, internet, mms);
    CapsUnchangedIff(AfterCaps(services, n, capabilities, internet, mms), n, capabilities, internet', mms');
  }

  /**
   An exact update whose repetition is not: of two networks with one net id both offer INTERNET. Clearing it for
   the first, which is listed first, is exact; clearing it once more takes the service of the second.
   */
  lemma ClearedTwice(v: NetService, w: NetService, internet: seq<NetService>, mms: seq<NetService>)
    requires v.network != w.network && v.network.netId == w.network.netId
    requires v.netCapability == CAP_INTERNET && w.netCapability == CAP_INTERNET
    ensures var n := v.network;
      && CapsReady([v, w], n, 0)
      && AfterCaps([v, w], n, 0, internet, mms) == [w] && CapsUpdated([v, w], [w], n, 0)
      && AfterCaps([w], n, 0, internet, mms) == []
      && HasOn([w], w.network, CAP_INTERNET) && !HasOn([], w.network, CAP_INTERNET)
  {
    var n := v.network;
    assert IsService([v, w][0], n.netId, CAP_INTERNET) && IsService([w][0], n.netId, CAP_INTERNET);
    assert [v, w][1..] == [w] && [w][1..] == [];
    assert FirstService([w], n.netId, CAP_MMS) == FirstService([], n.netId, CAP_MMS) == null;
    assert OnOthers([w], n) == [w] + OnOthers([], n);
    assert OnOthers([v, w], n) == [] + OnOthers([w], n);
    assert w in [w];
  }

  /** Where live net ids are distinct every list is ready. */
  lemma DistinctAreReady(suppliers: seq<NetSupplier>, networks: seq<Network>, services: seq<NetService>, n: Network,
                         cap: nat, wanted: bool)
    requires Corresponding(suppliers, networks, services) && n in networks && DistinctNetIds(networks)
    ensures Ready(services, n, cap, wanted)
  {
    var first := FirstService(services, n.netId, cap);
    FirstServiceMeans(services, n.netId, cap);
    if first != null {
      assert ServiceFits(first, networks);
      var i :| 0 <= i < |networks| && networks[i] == first.network;
      var j :| 0 <= j < |networks| && networks[j] == n;
    }
  }

  lemma {:induction false} SingleMatch(l: seq<NetService>, n: Network, cap: nat)
    requires OneServiceEach(l)
    requires forall v :: v in l && IsService(v, n.netId, cap) ==> v.network == n
    ensures Matches(l, n.netId, cap) <= 1
  {
    if l != [] {
      SingleMatch(l[1..], n, cap);
      MatchesMeans(l[1..], n.netId, cap);
      if IsService(l[0], n.netId, cap) {
        forall i | 0 <= i < |l[1..]|
          ensures !IsService(l[1..][i], n.netId, cap)
        {
          assert l[1..][i] == l[i + 1] && l[i + 1] in l;
        }
      }
    }
  }

  /** Where live net ids are distinct a capability never has more than one match. */
  lemma DistinctAreSingle(suppliers: seq<NetSupplier>, networks: seq<Network>, services: seq<NetService>, n: Network,
                          cap: nat)
    requires Corresponding(suppliers, networks, services) && n in networks && DistinctNetIds(networks)
    ensures Matches(services, n.netId, cap) <= 1
  {
    forall v | v in services && IsService(v, n.netId, cap)
      ensures v.network == n
    {
      assert ServiceFits(v, networks);
      var i :| 0 <= i < |networks| && networks[i] == v.network;
      var j :| 0 <= j < |networks| && networks[j] == n;
    }
    SingleMatch(services, n, cap);
  }

  /** While live net ids are distinct, one capability is updated exactly and nothing else changes. */
  lemma CapExact(suppliers: seq<NetSupplier>, networks: seq<Network>, services: seq<NetService>, n: Network, cap: nat,
                 other: nat, wanted: bool, vs: seq<NetService>)
    requires Corresponding(suppliers, networks, services) && n in networks && Supplied(services, n, cap, wanted, vs)
    requires DistinctNetIds(networks) && other != cap
    ensures var after := AfterCap(services, n, cap, wanted, vs);
      && (HasOn(after, n, cap) <==> wanted)
      && (HasOn(after, n, other) <==> HasOn(services, n, other))
      && OnOthers(after, n) == OnOthers(services, n)
      && (HasOn(services, n, cap) == wanted ==> after == services)
  {
    DistinctAreReady(suppliers, networks, services, n, cap, wanted);
    CapExactIff(services, n, cap, wanted, vs);
    CapLeaves(services, n, cap, other, wanted, vs);
  }
}

module NetConnService {
  import opened Machine
  import opened NetIds
  import opened NetIdManager
  import opened Network
  import opened NetService
  import opened ServiceStates
  import opened Registry

  const ERR_NO_SUPPLIER := -10
  const ERR_NO_NETWORK := -11
  const FIRST_SUPPLIER_ID := 0x03EB
  const IDS := 0x1_0000_0000

  lemma ModularIdsDiffer(a: nat, b: nat)
    requires a < b < IDS
    ensures ToUInt32(FIRST_SUPPLIER_ID + a) != ToUInt32(FIRST_SUPPLIER_ID + b)
  {
  }

  ghost predicate Numbered(suppliers: seq<NetSupplier>, created: nat) {
    forall i :: 0 <= i < |suppliers| ==>
      suppliers[i].serial < created && suppliers[i].supplierId == ToUInt32(FIRST_SUPPLIER_ID + suppliers[i].serial)
  }

  /** Net ids are never released, so the network created n-th has the n-th id, and MAX_NET_ID from there on. */
  ghost predicate NumberedNetworks(networks: seq<Network>) {
    forall n :: n in networks ==> n.netId == IdOf(n.supplier.serial)
  }

  /** At most one listed network was created when the ids had run out, or with the last of them. */
  ghost predicate AtMostOneLate(networks: seq<Network>) {
    forall i, j :: 0 <= i < j < |networks| ==>
      networks[i].supplier.serial < MAX_NET_ID || networks[j].supplier.serial < MAX_NET_ID
  }

  /** Live net ids are distinct iff at most one listed network is late. */
  lemma DistinctIffFewLate(suppliers: seq<NetSupplier>, networks: seq<Network>, services: seq<NetService>,
                           created: nat)
    requires Corresponding(suppliers, networks, services) && Numbered(suppliers, created) && NumberedNetworks(networks)
    ensures DistinctNetIds(networks) <==> AtMostOneLate(networks)
    ensures created <= MAX_NET_ID + 1 ==> DistinctNetIds(networks)
  {
    forall i, j | 0 <= i < j < |networks|
      ensures networks[i].supplier.serial != networks[j].supplier.serial
      ensures networks[i].netId == IdOf(networks[i].supplier.serial)
      ensures networks[j].netId == IdOf(networks[j].supplier.serial)
      ensures networks[i].supplier.serial < created && networks[j].supplier.serial < created
    {
      assert networks[i] in networks && networks[j] in networks;
      assert networks[i].supplier == suppliers[i] && networks[j].supplier == suppliers[j];
    }
  }

  lemma {:induction false} WithoutNetworkKeeps(networks: seq<Network>, id: UInt32)
    ensures forall n :: n in WithoutNetwork(networks, id) ==> n in networks
  {
    if networks != [] {
      WithoutNetworkKeeps(networks[1..], id);
    }
  }

  /** What an unregistration keeps. */
  lemma UnregisterNumbered(suppliers: seq<NetSupplier>, networks: seq<Network>, services: seq<NetService>, id: UInt32,
                           created: nat)
    requires Corresponding(suppliers, networks, services) && Numbered(suppliers, created)
    requires FindSupplier(suppliers, id) != null
    ensures FindNetwork(networks, id) != null
    ensures Corresponding(WithoutSupplier(suppliers, id), WithoutNetwork(networks, id),
                          ServicesOffNetwork(services, FindNetwork(networks, id)))
    ensures Numbered(WithoutSupplier(suppliers, id), created)
  {
    FindTogether(suppliers, networks, id);
    UnregisterKeeps(suppliers, networks, services, id);
    var k := CutTogether(suppliers, networks, id);
    CutNumbered(suppliers, k, created);
  }

  lemma CutNumbered(suppliers: seq<NetSupplier>, k: nat, created: nat)
    requires k < |suppliers| && Numbered(suppliers, created)
    ensures Numbered(suppliers[..k] + suppliers[k + 1..], created)
  {
    var ss := suppliers[..k] + suppliers[k + 1..];
    assert forall i :: 0 <= i < |ss| ==> ss[i] == suppliers[if i < k then i else i + 1];
  }

  lemma NextId(created: nat)
    ensures ToUInt32(ToUInt32(FIRST_SUPPLIER_ID + created) + 1) == ToUInt32(FIRST_SUPPLIER_ID + (created + 1))
  {
  }

  /** What a registration keeps. */
  lemma RegisterNumbered(suppliers: seq<NetSupplier>, supplier: NetSupplier, created: nat)
    requires Numbered(suppliers, created)
    requires supplier.serial == created && supplier.supplierId == ToUInt32(FIRST_SUPPLIER_ID + created)
    ensures Numbered(suppliers + [supplier], created + 1)
  {
  }

  lemma AddedNumbered(networks: seq<Network>, n: Network)
    requires NumberedNetworks(networks) && n.netId == IdOf(n.supplier.serial)
    ensures NumberedNetworks(networks + [n])
  {
  }

  /** What a call on the default service did, and what it announced. */
  ghost predicate Went(d: NetService, o: Outcome, broadcasts: seq<ServiceState>)
    reads d, d.network
  {
    d.state == o.state && d.network.CurrentLatch() == o.latch && d.broadcasts == broadcasts + o.word
  }

  class NetConnService {
    var netServices: seq<NetService>
    var networks: seq<Network>
    var netSupplier: seq<NetSupplier>
    var defaultNetService: NetService?
    var nextNetSupplierId: UInt32        // the process-wide g_nextNetSupplierId
    const idManager: NetIdManager
    const netd: Netd
    ghost var created: nat               // suppliers, and so networks, created so far
    ghost var scheduled: nat             // one-shot reconnections that reConnectTimer_ was asked for

    /** The supplier ids in use are distinct as long as at most 2^32 suppliers have been created. */
    ghost predicate Valid()
      reads `netServices, `networks, `netSupplier, `nextNetSupplierId, `created, idManager
    {
      && idManager.Valid()
      && HandedOut(idManager.lastNetId, idManager.netIdInUse.Keys, created)
      && NumberedNetworks(networks)
      && nextNetSupplierId == ToUInt32(FIRST_SUPPLIER_ID + created)
      && (created <= IDS ==> Consistent())
    }

    ghost predicate Consistent()
      reads `netServices, `networks, `netSupplier, `created
    {
      Corresponding(netSupplier, networks, netServices) && Numbered(netSupplier, created)
    }

    /** Net ids repeat as soon as two listed networks are late, and not before. */
    lemma LiveNetIdsDistinct()
      requires Valid() && created <= IDS
      ensures DistinctNetIds(networks) <==> AtMostOneLate(networks)
      ensures created <= MAX_NET_ID + 1 ==> DistinctNetIds(networks)
    {
      DistinctIffFewLate(netSupplier, networks, netServices, created);
    }

    constructor ()
      ensures Valid() && fresh(idManager) && fresh(netd)
      ensures netServices == [] && networks == [] && netSupplier == []
      ensures defaultNetService == null && created == 0 && scheduled == 0
    {
      netServices, networks, netSupplier, defaultNetService := [], [], [], null;
      nextNetSupplierId := FIRST_SUPPLIER_ID;
      idManager := new NetIdManager();
      netd := new Netd();
      created, scheduled := 0, 0;
    }

    method GetNetSupplierFromListById(supplierId: UInt32) returns (supplier: NetSupplier?)
      ensures supplier == FindSupplier(netSupplier, supplierId)
    {
      var it := 0;
      while it < |netSupplier|
        invariant 0 <= it <= |netSupplier|
        invariant FindSupplier(netSupplier, supplierId) == FindSupplier(netSupplier[it..], supplierId)
      {
        if netSupplier[it].supplierId == supplierId {
          return netSupplier[it];
        }
        assert netSupplier[it..][1..] == netSupplier[it + 1..];
        it := it + 1;
      }
      return null;
    }

    method GetNetSupplierFromList(netType: nat, ident: string) returns (supplier: NetSupplier?)
      ensures supplier == FindByName(netSupplier, netType, ident)
    {
      var it := 0;
      while it < |netSupplier|
        invariant 0 <= it <= |netSupplier|
        invariant FindByName(netSupplier, netType, ident) == FindByName(netSupplier[it..], netType, ident)
      {
        if netSupplier[it].netType == netType && netSupplier[it].ident == ident {
          return netSupplier[it];
        }
        assert netSupplier[it..][1..] == netSupplier[it + 1..];
        it := it + 1;
      }
      return null;
    }

    method GetNetworkFromListBySupplierId(supplierId: UInt32) returns (network: Network?)
      ensures network == FindNetwork(networks, supplierId)
    {
      var it := 0;
      while it < |networks|
        invariant 0 <= it <= |networks|
        invariant FindNetwork(networks, supplierId) == FindNetwork(networks[it..], supplierId)
      {
        if networks[it].supplier.supplierId == supplierId {
          return networks[it];
        }
        assert networks[it..][1..] == networks[it + 1..];
        it := it + 1;
      }
      return null;
    }

    method IsServiceInList(netId: int, netCapability: nat) returns (found: bool)
      ensures found <==> HasService(netServices, netId, netCapability)
    {
      var it := 0;
      while it < |netServices|
        invariant 0 <= it <= |netServices|
        invariant forall i :: 0 <= i < it ==> !IsService(netServices[i], netId, netCapability)
      {
        if IsService(netServices[it], netId, netCapability) {
          return true;
        }
        it := it + 1;
      }
      return false;
    }

    method DeleteSupplierFromListById(supplierId: UInt32)
      modifies this`netSupplier
      ensures netSupplier == WithoutSupplier(old(netSupplier), supplierId)
    {
      var it := 0;
      while it < |netSupplier|
        invariant 0 <= it <= |netSupplier| && netSupplier == old(netSupplier)
        invariant WithoutSupplier(netSupplier, supplierId)
               == netSupplier[..it] + WithoutSupplier(netSupplier[it..], supplierId)
      {
        Around(netSupplier, it);
        if netSupplier[it].supplierId == supplierId {
          netSupplier := netSupplier[..it] + netSupplier[it + 1..];
          return;
        }
        Regroup(netSupplier[..it], [netSupplier[it]], WithoutSupplier(netSupplier[it + 1..], supplierId));
        it := it + 1;
      }
    }

    method DeleteNetworkFromListBySupplierId(supplierId: UInt32)
      modifies this`networks
      ensures networks == WithoutNetwork(old(networks), supplierId)
    {
      var it := 0;
      while it < |networks|
        invariant 0 <= it <= |networks| && networks == old(networks)
        invariant WithoutNetwork(networks, supplierId) == networks[..it] + WithoutNetwork(networks[it..], supplierId)
      {
        Around(networks, it);
        if networks[it].supplier.supplierId == supplierId {
          networks := networks[..it] + networks[it + 1..];
          return;
        }
        Regroup(networks[..it], [networks[it]], WithoutNetwork(networks[it + 1..], supplierId));
        it := it + 1;
      }
    }

    method DeleteServiceFromListByNet(network: Network)
      modifies this`netServices
      ensures netServices == ServicesOffNetwork(old(netServices), network)
    {
      var it := 0;
      while it < |netServices|
        invariant 0 <= it <= |netServices|
        invariant netServices[..it] + ServicesOffNetwork(netServices[it..], network)
               == ServicesOffNetwork(old(netServices), network)
        decreases |netServices| - it
      {
        ghost var before := netServices;
        assert before[it..][1..] == before[it + 1..];
        if SameNetwork(netServices[it].network, network) {
          netServices := netServices[..it] + netServices[it + 1..];
          assert netServices[..it] == before[..it] && netServices[it..] == before[it + 1..];
        } else {
          assert before[..it + 1] == before[..it] + [before[it]];
          it := it + 1;
        }
      }
      assert netServices[..it] == netServices;
    }

    method DeleteServiceFromListByCap(netId: int, netCapability: nat) returns (deleted: bool)
      modifies this`netServices
      ensures netServices == WithoutService(old(netServices), netId, netCapability)
      ensures deleted <==> HasService(old(netServices), netId, netCapability)
    {
      var it := 0;
      while it < |netServices|
        invariant 0 <= it <= |netServices| && netServices == old(netServices)
        invariant WithoutService(netServices, netId, netCapability)
               == netServices[..it] + WithoutService(netServices[it..], netId, netCapability)
        invariant forall i :: 0 <= i < it ==> !IsService(netServices[i], netId, netCapability)
      {
        Around(netServices, it);
        if IsService(netServices[it], netId, netCapability) {
          netServices := netServices[..it] + netServices[it + 1..];
          return true;
        }
        Regroup(netServices[..it], [netServices[it]], WithoutService(netServices[it + 1..], netId, netCapability));
        it := it + 1;
      }
      return false;
    }

    /** Everything but the registry's own fields that a registration or reconnection may touch. */
    ghost function DefaultService(): set<object>
      reads this
    {
      if defaultNetService == null then {} else {defaultNetService, defaultNetService.network}
    }

    /** The last entries of the lists are a new supplier, its network and one service per capability. */
    ghost predicate Registered(suppliers: seq<NetSupplier>, nets: seq<Network>, services: seq<NetService>,
                               netType: nat, ident: string, netCapabilities: nat, code: int)
      reads `netServices, `networks, `netSupplier, `created
    {
      && created > 0 && |networks| == |nets| + 1 && |netServices| >= |services|
      && networks == nets + [networks[|nets|]]
      && netSupplier == suppliers + [networks[|nets|].supplier]
      && netServices == services + netServices[|services|..]
      && ServicesFor(netServices[|services|..], networks[|nets|], netCapabilities)
      && networks[|nets|].supplier.netType == netType
      && networks[|nets|].supplier.ident == ident
      && networks[|nets|].supplier.serial == created - 1
      && networks[|nets|].supplier.supplierId == ToUInt32(1003 + (created - 1))
      && networks[|nets|].netId == IdOf(created - 1)
      && code == ToInt32(networks[|nets|].supplier.supplierId)
    }

    predicate Refused(netType: nat) {
      netType >= NET_TYPE_MAX || netType <= NET_TYPE_UNKNOWN
    }

    /** Cellular and Ethernet networks, the types 1 and 2, are all that is accepted. */
    lemma RefusedMeans(netType: nat)
      ensures Refused(netType) <==> netType != 1 && netType != 2
    {
    }

    /**
     A fresh cellular or Ethernet supplier is appended to all lists, and the default service, which may be its
     own, is connected; anything else changes nothing.
     */
    method RegisterNetSupplier(netType: nat, ident: string, netCapabilities: nat, answers: Answers) returns (code: int)
      requires Valid()
      modifies this, idManager, netd`caches, DefaultService()
      ensures Valid()
      ensures created == old(created) + (if Refused(netType) || FindByName(old(netSupplier), netType, ident) != null
                                         then 0 else 1)
      ensures created == old(created) ==>
        && netSupplier == old(netSupplier) && networks == old(networks) && netServices == old(netServices)
        && defaultNetService == old(defaultNetService) && scheduled == old(scheduled)
        && (defaultNetService != null ==> unchanged(defaultNetService) && unchanged(defaultNetService.network))
        && code == (if Refused(netType) then ERR_INVALID_NETORK_TYPE
                    else ToInt32(FindByName(old(netSupplier), netType, ident).supplierId))
      ensures created != old(created) ==>
        && Registered(old(netSupplier), old(networks), old(netServices), netType, ident, netCapabilities, code)
        && code == ToInt32(ToUInt32(1003 + old(created)))
        && fresh(networks[|old(networks)|])
        && fresh(DefaultService() - old(DefaultService()))
        && netd.caches == old(netd.caches) + {networks[|old(networks)|].netId}
      ensures created != old(created) && HasInternet(netCapabilities) ==>
        var o := Connect(netType, IDLE, Latch(false, false), answers);
        && defaultNetService == netServices[|old(netServices)|]
        && Went(defaultNetService, o, [])
        && scheduled == old(scheduled) + (if o.code == ERR_SERVICE_REQUEST_SUCCESS then 0 else 1)
      ensures created != old(created) && !HasInternet(netCapabilities) ==>
        && defaultNetService == old(defaultNetService)
        && (defaultNetService == null ==> scheduled == old(scheduled))
      ensures created != old(created) && !HasInternet(netCapabilities) && old(defaultNetService) != null ==>
        var o := old(Connect(defaultNetService.networkType, defaultNetService.state,
                             defaultNetService.network.CurrentLatch(), answers));
        && Went(defaultNetService, o, old(defaultNetService.broadcasts))
        && scheduled == old(scheduled) + (if o.code == ERR_SERVICE_REQUEST_SUCCESS then 0 else 1)
    {
      if Refused(netType) {
        return ERR_INVALID_NETORK_TYPE;
      }
      var known := GetNetSupplierFromList(netType, ident);
      if known != null {
        return ToInt32(known.supplierId);
      }
      code := RegisterNew(netType, ident, netCapabilities);
      ConnectDefault(answers);
    }

    /** The supplier that is not in the list yet. */
    method RegisterNew(netType: nat, ident: string, netCapabilities: nat) returns (code: int)
      requires Valid() && FindByName(netSupplier, netType, ident) == null
      modifies this, idManager, netd`caches
      ensures Valid() && created == old(created) + 1 && scheduled == old(scheduled)
      ensures Registered(old(netSupplier), old(networks), old(netServices), netType, ident, netCapabilities, code)
      ensures fresh(networks[|old(networks)|])
      ensures netd.caches == old(netd.caches) + {networks[|old(networks)|].netId}
      ensures if HasInternet(netCapabilities)
              then defaultNetService == netServices[|old(netServices)|] && defaultNetService.networkType == netType
                   && fresh(defaultNetService) && fresh(defaultNetService.network)
                   && defaultNetService.state == IDLE && defaultNetService.broadcasts == []
                   && defaultNetService.network.CurrentLatch() == Latch(false, false)
              else defaultNetService == old(defaultNetService)
    {
      var supplier := new NetSupplier(nextNetSupplierId, netType, ident, created);
      Append(supplier, netCapabilities);
      return ToInt32(supplier.supplierId);
    }

    /** The part of a registration that changes the registry. */
    method Append(supplier: NetSupplier, netCapabilities: nat)
      requires Valid() && supplier.supplierId == nextNetSupplierId && supplier.serial == created
      requires FindByName(netSupplier, supplier.netType, supplier.ident) == null
      modifies this, idManager, netd`caches
      ensures Valid() && created == old(created) + 1 && scheduled == old(scheduled)
      ensures Registered(old(netSupplier), old(networks), old(netServices), supplier.netType, supplier.ident,
                         netCapabilities, ToInt32(supplier.supplierId))
      ensures fresh(networks[|old(networks)|])
      ensures netd.caches == old(netd.caches) + {networks[|old(networks)|].netId}
      ensures if HasInternet(netCapabilities)
              then defaultNetService == netServices[|old(netServices)|]
                   && fresh(defaultNetService) && fresh(defaultNetService.network)
                   && defaultNetService.state == IDLE && defaultNetService.broadcasts == []
                   && defaultNetService.network.CurrentLatch() == Latch(false, false)
              else defaultNetService == old(defaultNetService)
    {
      if created < IDS {
        SupplierIdIsNew(supplier);
      }
      NextId(created);
      nextNetSupplierId := ToUInt32(nextNetSupplierId + 1);
      var network := CreateNetwork(supplier);
      AddedNumbered(networks, network);
      ghost var suppliers, nets, services := netSupplier, networks, netServices;
      Enlist(network, netCapabilities);
      if created < IDS {
        RegisterKeeps(suppliers, nets, services, network, netServices[|services|..], netCapabilities);
        RegisterNumbered(suppliers, supplier, created);
      }
      created := created + 1;
    }

    /** The services of a new network, its supplier and the network itself are appended to the lists. */
    method Enlist(network: Network, netCapabilities: nat)
      modifies `netServices, `networks, `netSupplier, `defaultNetService
      ensures netSupplier == old(netSupplier) + [network.supplier] && networks == old(networks) + [network]
      ensures |netServices| >= |old(netServices)|
      ensures netServices == old(netServices) + netServices[|old(netServices)|..]
      ensures ServicesFor(netServices[|old(netServices)|..], network, netCapabilities)
      ensures if HasInternet(netCapabilities)
              then defaultNetService == netServices[|old(netServices)|] && defaultNetService.network == network
                   && fresh(defaultNetService)
                   && defaultNetService.state == IDLE && defaultNetService.broadcasts == []
              else defaultNetService == old(defaultNetService)
    {
      ghost var services := netServices;
      CreateServices(network, netCapabilities);
      assert netServices == services + netServices[|services|..];
      netSupplier := netSupplier + [network.supplier];
      networks := networks + [network];
    }

    /** Connects the default service, if there is one; unless that succeeds, a reconnection is scheduled. */
    method ConnectDefault(answers: Answers)
      modifies this`scheduled, DefaultService()
      ensures defaultNetService == null ==> scheduled == old(scheduled)
      ensures defaultNetService != null ==>
        var o := old(Connect(defaultNetService.networkType, defaultNetService.state,
                             defaultNetService.network.CurrentLatch(), answers));
        && Went(defaultNetService, o, old(defaultNetService.broadcasts))
        && scheduled == old(scheduled) + (if o.code == ERR_SERVICE_REQUEST_SUCCESS then 0 else 1)
    {
      if defaultNetService != null {
        var result := defaultNetService.ServiceConnect(answers);
        if result != ERR_SERVICE_REQUEST_SUCCESS {
          scheduled := scheduled + 1;
        }
      }
    }

    lemma SupplierIdIsNew(supplier: NetSupplier)
      requires created < IDS && Consistent()
      requires supplier.supplierId == ToUInt32(FIRST_SUPPLIER_ID + created)
      ensures FindSupplier(netSupplier, supplier.supplierId) == null
    {
      forall i | 0 <= i < |netSupplier|
        ensures netSupplier[i].supplierId != supplier.supplierId
      {
        ModularIdsDiffer(netSupplier[i].serial, created);
      }
      FindSupplierMeans(netSupplier, supplier.supplierId);
    }

    /** The constructor of Network: it reserves a net id and has a cache created for it. */
    method CreateNetwork(supplier: NetSupplier) returns (network: Network)
      requires idManager.Valid() && HandedOut(idManager.lastNetId, idManager.netIdInUse.Keys, created)
      modifies idManager, netd`caches
      ensures fresh(network) && network.supplier == supplier && network.CurrentLatch() == Latch(false, false)
      ensures idManager.Valid() && HandedOut(idManager.lastNetId, idManager.netIdInUse.Keys, created + 1)
      ensures network.netId == IdOf(created) && netd.caches == old(netd.caches) + {network.netId}
    {
      NextHandedOut(idManager.lastNetId, idManager.netIdInUse.Keys, created);
      var netId := idManager.ReserveNetId();
      network := new Network(supplier, netId, netd);
    }

    /** One service per requested capability; the INTERNET service becomes the default one. */
    method CreateServices(network: Network, netCapabilities: nat)
      modifies this`netServices, this`defaultNetService
      ensures |netServices| >= |old(netServices)| && netServices[..|old(netServices)|] == old(netServices)
      ensures ServicesFor(netServices[|old(netServices)|..], network, netCapabilities)
      ensures if HasInternet(netCapabilities)
              then defaultNetService == netServices[|old(netServices)|] && fresh(defaultNetService)
                   && defaultNetService.state == IDLE && defaultNetService.broadcasts == []
              else defaultNetService == old(defaultNetService)
    {
      var ident, netType := network.supplier.ident, network.supplier.netType;
      if HasInternet(netCapabilities) {
        var service := new NetService(ident, netType, CAP_INTERNET, network);
        netServices := netServices + [service];
        defaultNetService := service;
      }
      if HasMms(netCapabilities) {
        var service := new NetService(ident, netType, CAP_MMS, network);
        netServices := netServices + [service];
      }
    }

    /** The branch "supplier but no network" is unreachable while supplier ids are distinct. */
    method UnregisterNetSupplier(supplierId: UInt32) returns (code: int)
      requires Valid()
      modifies this`netSupplier, this`networks, this`netServices
      ensures Valid()
      ensures FindSupplier(old(netSupplier), supplierId) == null ==>
        && code == ERR_NO_SUPPLIER
        && netSupplier == old(netSupplier) && networks == old(networks) && netServices == old(netServices)
      ensures created <= IDS && FindSupplier(old(netSupplier), supplierId) != null ==>
        && code == ERR_NONE
        && FindNetwork(old(networks), supplierId) != null
        && netSupplier == WithoutSupplier(old(netSupplier), supplierId)
        && networks == WithoutNetwork(old(networks), supplierId)
        && netServices == ServicesOffNetwork(old(netServices), FindNetwork(old(networks), supplierId))
    {
      var supplier := GetNetSupplierFromListById(supplierId);
      if supplier == null {
        return ERR_NO_SUPPLIER;
      }
      var network := GetNetworkFromListBySupplierId(supplierId);
      if created <= IDS {
        UnregisterNumbered(netSupplier, networks, netServices, supplierId, created);
      }
      if network == null {
        DeleteSupplierFromListById(supplierId);
        return ERR_NO_NETWORK;
      }
      DeleteServiceFromListByNet(network);
      WithoutNetworkKeeps(networks, supplierId);
      DeleteNetworkFromListBySupplierId(supplierId);
      DeleteSupplierFromListById(supplierId);
      return ERR_NONE;
    }

    /**
     The list afterwards, for all net ids; `internet` and `mms` are the services created. The update is exact
     iff the list was ready for it. It changes nothing iff nothing is to be done, which holds afterwards, so that
     a repetition changes nothing, iff each capability cleared had at most one match. While live net ids are
     distinct the list is ready and no capability has more than one match.
     */
    method UpdateNetCapabilities(supplierId: UInt32, netCapabilities: nat)
      returns (code: int, ghost internet: seq<NetService>, ghost mms: seq<NetService>)
      requires Valid()
      modifies this`netServices
      ensures Valid()
      ensures code == (if FindSupplier(netSupplier, supplierId) == null then ERR_NO_SUPPLIER
                       else if FindNetwork(networks, supplierId) == null then ERR_NO_NETWORK else ERR_NONE)
      ensures code != ERR_NONE ==> netServices == old(netServices)
      ensures code == ERR_NONE ==>
        netServices == AfterCaps(old(netServices), FindNetwork(networks, supplierId), netCapabilities, internet, mms)
      ensures created <= IDS ==> code != ERR_NO_NETWORK
      ensures created <= IDS && code == ERR_NONE ==>
        var n := FindNetwork(networks, supplierId);
        && SuppliedCaps(old(netServices), n, netCapabilities, internet, mms)
        && (CapsUpdated(old(netServices), netServices, n, netCapabilities) <==>
              CapsReady(old(netServices), n, netCapabilities))
        && (netServices == old(netServices) <==> NothingToDo(old(netServices), n, netCapabilities))
        && (NothingToDo(netServices, n, netCapabilities) <==> FewToClear(old(netServices), n, netCapabilities))
        && (DistinctNetIds(networks) ==>
              CapsReady(old(netServices), n, netCapabilities) && FewToClear(old(netServices), n, netCapabilities))
        && (CapsReady(old(netServices), n, netCapabilities) ==>
              CapsUpdated(old(netServices), old(netServices), n, netCapabilities) ==> netServices == old(netServices))
    {
      internet, mms := [], [];
      var supplier := GetNetSupplierFromListById(supplierId);
      if supplier == null {
        return ERR_NO_SUPPLIER, [], [];
      }
      FindSupplierMeans(netSupplier, supplierId);
      var network := GetNetworkFromListBySupplierId(supplier.supplierId);
      if created <= IDS {
        FindTogether(netSupplier, networks, supplierId);
      }
      if network == null {
        return ERR_NO_NETWORK, [], [];
      }
      internet := UpdateCapability(supplier, network, CAP_INTERNET, HasInternet(netCapabilities));
      mms := UpdateCapability(supplier, network, CAP_MMS, HasMms(netCapabilities));
      if created <= IDS {
        CapsExactIff(netSupplier, networks, old(netServices), network, netCapabilities, internet, mms);
        CapsUnchangedIff(old(netServices), network, netCapabilities, internet, mms);
        if DistinctNetIds(networks) {
          ghost var services, first, second := old(netServices), HasInternet(netCapabilities), HasMms(netCapabilities);
          DistinctAreReady(netSupplier, networks, services, network, CAP_INTERNET, first);
          DistinctAreReady(netSupplier, networks, services, network, CAP_MMS, second);
          DistinctAreSingle(netSupplier, networks, services, network, CAP_INTERNET);
          DistinctAreSingle(netSupplier, networks, services, network, CAP_MMS);
        }
      }
      code := ERR_NONE;
    }

    /** The add-or-delete step for one capability of a found supplier's network. */
    method UpdateCapability(supplier: NetSupplier, network: Network, cap: nat, wanted: bool)
      returns (ghost added: seq<NetService>)
      requires Valid() && (cap == CAP_INTERNET || cap == CAP_MMS)
      requires created <= IDS ==> network in networks && network.supplier == supplier
      modifies this`netServices
      ensures Valid()
      ensures netServices == AfterCap(old(netServices), network, cap, wanted, added)
      ensures wanted && !HasService(old(netServices), network.netId, cap) ==> netServices == old(netServices) + added
      ensures created <= IDS ==>
        && Supplied(old(netServices), network, cap, wanted, added)
        && (ExactlyUpdated(old(netServices), netServices, network, cap, wanted) <==>
              Ready(old(netServices), network, cap, wanted))
        && (Ready(old(netServices), network, cap, wanted) && HasOn(old(netServices), network, cap) == wanted ==>
              netServices == old(netServices))
    {
      var found := IsServiceInList(network.netId, cap);
      var services := [];
      if wanted && !found {
        var service := new NetService(supplier.ident, supplier.netType, cap, network);
        services := [service];
      }
      added := services;
      if created <= IDS {
        CapKeeps(netSupplier, networks, netServices, network, cap, wanted, added);
        CapExactIff(netServices, network, cap, wanted, added);
      }
      if wanted {
        if !found {
          netServices := netServices + services;
        }
      } else if found {
        var _ := DeleteServiceFromListByCap(network.netId, cap);
      }
    }

    /** The timer task: what it returns and does to the default service is Reconnect. */
    method ReConnectService(answer: bool, answers: Answers) returns (code: int)
      modifies DefaultService()
      ensures defaultNetService == null ==> code == ERR_SERVICE_NULL_PTR
      ensures defaultNetService != null ==>
        var d := defaultNetService;
        var o := Reconnect(d.networkType, old(d.state), old(d.network.CurrentLatch()), answer, answers);
        code == o.code && d.state == o.state && d.network.CurrentLatch() == o.latch
        && d.broadcasts == old(d.broadcasts) + o.word
    {
      if defaultNetService == null {
        return ERR_SERVICE_NULL_PTR;
      }
      var d := defaultNetService;
      if IsUp(d.state) || Connecting(d.state, d.network.CurrentLatch()) {
        code := DisconnectThenConnect(d, answer, answers);
      } else {
        code := d.ServiceConnect(answers);
      }
    }
  }

  method DisconnectThenConnect(d: NetService, answer: bool, answers: Answers) returns (code: int)
    modifies d, d.network
    ensures var o := BothCalls(d.networkType, old(d.state), old(d.network.CurrentLatch()), answer, answers);
      code == o.code && Went(d, o, old(d.broadcasts))
  {
    ghost var broadcasts, o := d.broadcasts, Disconnect(d.state, d.network.CurrentLatch(), answer);
    var _ := d.ServiceDisConnect(answer);
    code := d.ServiceConnect(answers);
    Regroup(broadcasts, o.word, Connect(d.networkType, o.state, o.latch, answers).word);
  }

  datatype Request =
    | Register(netType: nat, ident: string, capabilities: nat, answers: Answers)
    | Unregister(supplierId: UInt32)
    | UpdateCapabilities(supplierId: UInt32, capabilities: nat)
    | ReConnect(answer: bool, answers: Answers)

  /**
   After any run of at most 2^32 requests the three lists correspond, and live net ids are distinct iff at
   most one listed network was created late.
   */
  method Serve(requests: seq<Request>) returns (service: NetConnService)
    ensures service.Valid() && service.created <= |requests|
    ensures |requests| <= IDS ==>
      && Corresponding(service.netSupplier, service.networks, service.netServices)
      && (DistinctNetIds(service.networks) <==> AtMostOneLate(service.networks))
    ensures |requests| <= MAX_NET_ID + 1 ==> DistinctNetIds(service.networks)
  {
    service := new NetConnService();
    var i := 0;
    while i < |requests|
      invariant 0 <= i <= |requests| && service.created <= i
      invariant service.Valid()
      invariant fresh(service) && fresh(service.idManager) && fresh(service.netd) && fresh(service.DefaultService())
    {
      match requests[i] {
        case Register(netType, ident, capabilities, answers) =>
          var _ := service.RegisterNetSupplier(netType, ident, capabilities, answers);
        case Unregister(supplierId) =>
          var _ := service.UnregisterNetSupplier(supplierId);
        case UpdateCapabilities(supplierId, capabilities) =>
          var _, _, _ := service.UpdateNetCapabilities(supplierId, capabilities);
        case ReConnect(answer, answers) =>
          var _ := service.ReConnectService(answer, answers);
      }
      i := i + 1;
    }
    if service.created <= IDS {
      service.LiveNetIdsDistinct();
    }
  }

  lemma SameUnsigned(id: UInt32)
    ensures ToUInt32(ToInt32(id)) == id
  {
  }

  /** In corresponding lists the network of a listed supplier is found by the supplier's id. */
  lemma FoundById(suppliers: seq<NetSupplier>, networks: seq<Network>, services: seq<NetService>, n: Network)
    requires Corresponding(suppliers, networks, services) && n in networks
    ensures FindSupplier(suppliers, n.supplier.supplierId) == n.supplier
    ensures FindNetwork(networks, n.supplier.supplierId) == n
  {
    var id := n.supplier.supplierId;
    var i :| 0 <= i < |networks| && networks[i] == n;
    assert suppliers[i] == n.supplier;
    FindSupplierMeans(suppliers, id);
    FindTogether(suppliers, networks, id);
    ListedNetworksDiffer(suppliers, networks, services, n, FindNetwork(networks, id));
  }

  /** Below 2^32 suppliers, unregistering under the code that a registration returned restores all three lists. */
  method RegisterBriefly(service: NetConnService, netType: nat, ident: string, netCapabilities: nat, answers: Answers)
    requires service.Valid() && service.created < IDS
    requires !service.Refused(netType) && FindByName(service.netSupplier, netType, ident) == null
    modifies service, service.idManager, service.netd`caches, service.DefaultService()
    ensures service.Valid()
    ensures service.netSupplier == old(service.netSupplier)
    ensures service.networks == old(service.networks)
    ensures service.netServices == old(service.netServices)
  {
    ghost var suppliers, networks, services := service.netSupplier, service.networks, service.netServices;
    var code := service.RegisterNetSupplier(netType, ident, netCapabilities, answers);
    ghost var n, vs := service.networks[|networks|], service.netServices[|services|..];
    SameUnsigned(n.supplier.supplierId);
    FoundById(service.netSupplier, service.networks, service.netServices, n);
    LastIsNew(suppliers, n.supplier);
    Registry.RegisterThenUnregister(suppliers, networks, services, n, vs, netCapabilities);
    var _ := service.UnregisterNetSupplier(ToUInt32(code));
  }

  lemma LastIsNew(suppliers: seq<NetSupplier>, supplier: NetSupplier)
    requires DistinctSuppliers(suppliers + [supplier])
    ensures FindSupplier(suppliers, supplier.supplierId) == null
  {
    var all := suppliers + [supplier];
    forall i | 0 <= i < |suppliers|
      ensures suppliers[i].supplierId != supplier.supplierId
    {
      assert all[i] == suppliers[i] && all[|suppliers|] == supplier;
    }
    FindSupplierMeans(suppliers, supplier.supplierId);
  }

  /** The i-th of some distinct identifiers. */
  function Name(i: nat): (s: string)
    ensures |s| == i
  {
    seq(i, _ => 'x')
  }

  /** The suppliers Name(0), Name(1), ... are listed with networks of the same serials. */
  ghost predicate NamedInOrder(networks: seq<Network>) {
    forall i :: 0 <= i < |networks| ==>
      && networks[i].supplier.serial == i && networks[i].netId == IdOf(i)
      && networks[i].supplier.netType == NET_TYPE_CELLULAR && networks[i].supplier.ident == Name(i)
  }

  /**
   What the capability words mean to the callers: after a registration with one word, and, if live net ids are
   distinct, after an update with another, the supplier's network has exactly the services of its two lowest bits.
   */
  method RegisterAndUpdate(service: NetConnService, netType: nat, ident: string, k: nat, internet: bool, mms: bool,
                           k': nat, internet': bool, mms': bool, answers: Answers)
    returns (ghost n: Network, ghost first: seq<NetService>)
    requires service.Valid() && service.created < IDS
    requires (netType == 1 || netType == 2) && FindByName(service.netSupplier, netType, ident) == null
    modifies service, service.idManager, service.netd`caches, service.DefaultService()
    ensures service.Valid() && n in service.networks && n.supplier.netType == netType && n.supplier.ident == ident
    ensures HasExactly(first, n, internet, mms)
    ensures DistinctNetIds(service.networks) ==> HasExactly(service.netServices, n, internet', mms')
  {
    ghost var networks, services := service.networks, service.netServices;
    assert forall v :: v in services ==> ServiceFits(v, networks);
    var code := service.RegisterNetSupplier(netType, ident, Word(k, internet, mms), answers);
    n, first := service.networks[|networks|], service.netServices;
    ServicesOfWord(first[|services|..], n, k, internet, mms);
    AddedExactly(services, first[|services|..], n, internet, mms);
    SameUnsigned(n.supplier.supplierId);
    FoundById(service.netSupplier, service.networks, service.netServices, n);
    var _, _, _ := service.UpdateNetCapabilities(ToUInt32(code), Word(k', internet', mms'));
    if DistinctNetIds(service.networks) {
      UpdatedToWord(first, service.netServices, n, k', internet', mms');
    }
  }

  lemma NextNameIsNew(suppliers: seq<NetSupplier>, networks: seq<Network>, services: seq<NetService>)
    requires Corresponding(suppliers, networks, services) && NamedInOrder(networks)
    ensures FindByName(suppliers, NET_TYPE_CELLULAR, Name(|networks|)) == null
  {
    FindByNameMeans(suppliers, NET_TYPE_CELLULAR, Name(|networks|));
    forall i | 0 <= i < |suppliers|
      ensures suppliers[i].ident != Name(|networks|)
    {
      assert suppliers[i] == networks[i].supplier;
      assert |Name(i)| != |Name(|networks|)|;
    }
  }

  /** Which of the suppliers offer INTERNET: the one that gets the last net id and, if `both`, the one after it. */
  predicate Offers(i: nat, both: bool) {
    i == MAX_NET_ID || (both && i == MAX_NET_ID + 1)
  }

  function OfferCount(n: nat, both: bool): nat {
    if n <= MAX_NET_ID then 0 else if both && n > MAX_NET_ID + 1 then 2 else 1
  }

  /** One INTERNET service for each network that offers it, in order. */
  ghost predicate OnlyOffers(networks: seq<Network>, services: seq<NetService>, both: bool) {
    && |services| == OfferCount(|networks|, both)
    && forall k :: 0 <= k < |services| ==>
         services[k].network == networks[MAX_NET_ID + k] && services[k].netCapability == CAP_INTERNET
  }

  ghost predicate Prepared(service: NetConnService, both: bool)
    reads service, service.idManager
  {
    && service.Valid() && |service.networks| == service.created <= MAX_NET_ID + 2
    && NamedInOrder(service.networks) && OnlyOffers(service.networks, service.netServices, both)
  }

  lemma OneMoreNamed(networks: seq<Network>, services: seq<NetService>, n: Network, vs: seq<NetService>, both: bool)
    requires NamedInOrder(networks) && OnlyOffers(networks, services, both) && |networks| < MAX_NET_ID + 2
    requires n.supplier.serial == |networks| && n.netId == IdOf(|networks|)
    requires n.supplier.netType == NET_TYPE_CELLULAR && n.supplier.ident == Name(|networks|)
    requires ServicesFor(vs, n, if Offers(|networks|, both) then CAP_INTERNET else 0)
    ensures NamedInOrder(networks + [n]) && OnlyOffers(networks + [n], services + vs, both)
  {
    if Offers(|networks|, both) {
      assert CapsOf(CAP_INTERNET) == [CAP_INTERNET];
    } else {
      assert CapsOf(0) == [] && services + vs == services;
    }
  }

  method RegisterNamed(service: NetConnService, both: bool)
    requires Prepared(service, both) && service.created < MAX_NET_ID + 2
    modifies service, service.idManager, service.netd`caches, service.DefaultService()
    ensures Prepared(service, both) && service.created == old(service.created) + 1
    ensures fresh(service.DefaultService() - old(service.DefaultService()))
  {
    ghost var networks, services := service.networks, service.netServices;
    NextNameIsNew(service.netSupplier, networks, services);
    var i := |service.networks|;
    var capabilities := if Offers(i, both) then CAP_INTERNET else 0;
    var _ := service.RegisterNetSupplier(NET_TYPE_CELLULAR, Name(i), capabilities, Answers(false, false));
    OneMoreNamed(networks, services, service.networks[i], service.netServices[|services|..], both);
  }

  /**
   The run after which net ids repeat: of MAX_NET_ID + 2 suppliers, all listed, the last two have the same net
   id. The first of these, or both of them, offer INTERNET.
   */
  method UseUpNetIds(both: bool) returns (service: NetConnService)
    ensures fresh(service) && fresh(service.idManager)
    ensures Prepared(service, both) && service.created == MAX_NET_ID + 2
  {
    service := new NetConnService();
    while |service.networks| < MAX_NET_ID + 2
      invariant Prepared(service, both)
      invariant fresh(service) && fresh(service.idManager) && fresh(service.netd) && fresh(service.DefaultService())
    {
      RegisterNamed(service, both);
    }
  }

  /** Another network's service under the same net id hides that n has none. */
  lemma AskedInVain(v: NetService, n: Network, internet: seq<NetService>, mms: seq<NetService>)
    requires v.network != n && v.network.netId == n.netId && v.netCapability == CAP_INTERNET
    ensures AfterCaps([v], n, CAP_INTERNET, internet, mms) == [v]
    ensures HasOn([v], v.network, CAP_INTERNET) && !HasOn([v], n, CAP_INTERNET)
  {
    assert IsService([v][0], n.netId, CAP_INTERNET);
    assert v in [v];
  }

  /** When only the first of two networks with one id offers INTERNET, asking it of the other has no effect. */
  method SharedNetId() returns (service: NetConnService, a: Network, b: Network, code: int)
    ensures service.Valid() && a in service.networks && b in service.networks
    ensures a != b && a.netId == b.netId == MAX_NET_ID
    ensures code == ERR_NONE && HasOn(service.netServices, a, CAP_INTERNET)
    ensures !HasOn(service.netServices, b, CAP_INTERNET)
  {
    service := UseUpNetIds(false);
    a, b := service.networks[MAX_NET_ID], service.networks[MAX_NET_ID + 1];
    FoundById(service.netSupplier, service.networks, service.netServices, b);
    ghost var v := service.netServices[0];
    assert service.netServices == [v];
    var result, internet, mms := service.UpdateNetCapabilities(b.supplier.supplierId, CAP_INTERNET);
    code := result;
    AskedInVain(v, b, internet, mms);
  }

  /**
   When both offer it, clearing INTERNET of the first is exact, and the same call once more takes the service
   of the second.
   */
  method ClearTwice() returns (service: NetConnService, a: Network, b: Network, ghost once: seq<NetService>)
    ensures service.Valid() && a in service.networks && b in service.networks
    ensures a != b && a.netId == b.netId == MAX_NET_ID
    ensures !HasOn(once, a, CAP_INTERNET) && HasOn(once, b, CAP_INTERNET)
    ensures service.netServices == []
  {
    service := UseUpNetIds(true);
    a, b := service.networks[MAX_NET_ID], service.networks[MAX_NET_ID + 1];
    FoundById(service.netSupplier, service.networks, service.netServices, a);
    ghost var v, w := service.netServices[0], service.netServices[1];
    assert service.netServices == [v, w];
    var _, internet, mms := service.UpdateNetCapabilities(a.supplier.supplierId, 0);
    ClearedTwice(v, w, internet, mms);
    once := service.netServices;
    var _, internet', mms' := service.UpdateNetCapabilities(a.supplier.supplierId, 0);
    ClearedTwice(v, w, internet', mms');
  }
}
