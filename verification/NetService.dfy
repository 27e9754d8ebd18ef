/** The connection state machine of a network service (net_service.cpp). */
module ServiceStates {
  import opened Network

  datatype ServiceState =
    | UNKNOWN | IDLE | CONNECTING | READY | CONNECTED | DISCONNECTING | DISCONNECTED | FAILURE

  const NET_TYPE_UNKNOWN: nat := 0
  const NET_TYPE_CELLULAR: nat := 1
  const NET_TYPE_MAX: nat := 3

  const ERR_SERVICE_REQUEST_SUCCESS := -1
  const ERR_SERVICE_REQUEST_CONNECT_FAIL := -2
  const ERR_SERVICE_CONNECTING := -4
  const ERR_SERVICE_CONNECTED := -5
  const ERR_SERVICE_DISCONNECTED_FAIL := -6
  const ERR_SERVICE_DISCONNECTING := -7
  const ERR_SERVICE_DISCONNECTED_SUCCESS := -8
  const ERR_SERVICE_NULL_PTR := -9
  const ERR_INVALID_NETORK_TYPE := -13
  const ERR_NO_REGISTERED := -20
  const ERR_NONE := 0

  /** What one call does: the new state and latch, the states announced, and the return code. */
  datatype Outcome = Outcome(state: ServiceState, latch: Latch, word: seq<ServiceState>, code: int)

  /** The two answers are the supplier's, to the connect request and to the clean-up after a failure. */
  datatype Answers = Answers(connect: bool, cleanUp: bool)

  predicate Connecting(state: ServiceState, l: Latch) {
    match state
    case UNKNOWN | FAILURE | IDLE => l.isConnecting
    case CONNECTING => true
    case _ => false
  }

  predicate IsUp(state: ServiceState) {
    state == READY || state == CONNECTED
  }

  function Connect(netType: nat, state: ServiceState, l: Latch, a: Answers): Outcome {
    if Connecting(state, l) then Outcome(state, l, [], ERR_SERVICE_CONNECTING)
    else if IsUp(state) then Outcome(state, l, [], ERR_SERVICE_CONNECTED)
    else if netType != NET_TYPE_CELLULAR then Outcome(state, l, [], ERR_INVALID_NETORK_TYPE)
    else
      var (l', ok) := Connected(l, a.connect);
      if ok then Outcome(READY, l', [IDLE, CONNECTING, READY], ERR_SERVICE_REQUEST_SUCCESS)
      else Outcome(IDLE, l', [IDLE, CONNECTING, FAILURE, DISCONNECTED, IDLE], ERR_SERVICE_REQUEST_CONNECT_FAIL)
  }

  function Disconnect(state: ServiceState, l: Latch, answer: bool): Outcome {
    if state == DISCONNECTING then Outcome(state, l, [], ERR_SERVICE_DISCONNECTING)
    else if state == DISCONNECTED then Outcome(state, l, [], ERR_SERVICE_DISCONNECTED_SUCCESS)
    else if DisconnectAnswer(l, answer) then
      Outcome(IDLE, l, [DISCONNECTING, DISCONNECTED, IDLE], ERR_SERVICE_DISCONNECTED_SUCCESS)
    else
      Outcome(FAILURE, l, [DISCONNECTING, FAILURE], ERR_SERVICE_DISCONNECTED_FAIL)
  }

  /** The services on one network and what they have announced so far. */
  datatype Service = Service(netType: nat, state: ServiceState, said: seq<ServiceState>)
  datatype System = System(latch: Latch, services: seq<Service>, announced: seq<ServiceState>)

  datatype Call =
    | DoConnect(i: nat, answers: Answers)
    | DoDisconnect(i: nat, answer: bool)
    | AddService(netType: nat)               // a service is created on the network
    | DropService(i: nat)                    // a service is deleted from the list

  function OutcomeOf(s: System, c: Call): Outcome
    requires (c.DoConnect? || c.DoDisconnect?) && c.i < |s.services|
  {
    var v := s.services[c.i];
    if c.DoConnect? then Connect(v.netType, v.state, s.latch, c.answers) else Disconnect(v.state, s.latch, c.answer)
  }

  function Run1(s: System, c: Call): System {
    match c
    case AddService(t) => s.(services := s.services + [Service(t, IDLE, [])])
    case DropService(i) => if i < |s.services| then s.(services := s.services[..i] + s.services[i + 1..]) else s
    case _ =>
      if c.i < |s.services| then
        var o := OutcomeOf(s, c);
        var v := s.services[c.i];
        System(o.latch, s.services[c.i := v.(state := o.state, said := v.said + o.word)], s.announced + o.word)
      else s
  }

  function Run(s: System, calls: seq<Call>): System
    decreases |calls|
  {
    if calls == [] then s else Run(Run1(s, calls[0]), calls[1..])
  }

  const NEW_SYSTEM := System(Latch(false, false), [], [])

  function Count(word: seq<ServiceState>, x: ServiceState): nat {
    if word == [] then 0 else (if word[0] == x then 1 else 0) + Count(word[1..], x)
  }

  predicate Settled(state: ServiceState) {
    state == IDLE || state == READY || state == FAILURE
  }

  predicate SystemInv(s: System) {
    && s.latch.isConnecting == s.latch.isConnected
    && (forall i :: 0 <= i < |s.services| ==>
          Settled(s.services[i].state) && (s.services[i].state == READY ==> s.latch.isConnected))
    && Count(s.announced, READY) == (if s.latch.isConnected then 1 else 0)
  }

  lemma {:induction false} CountConcat(a: seq<ServiceState>, b: seq<ServiceState>, x: ServiceState)
    ensures Count(a + b, x) == Count(a, x) + Count(b, x)
  {
    if a == [] {
      assert a + b == b;
    } else {
      CountConcat(a[1..], b, x);
      assert (a + b)[1..] == a[1..] + b;
    }
  }

  /**
   The words a connect can announce. With the latch set, and for every type but cellular, a connect
   announces nothing; otherwise the supplier's answer picks the word.
   */
  lemma ConnectWords(s: System, i: nat, a: Answers)
    requires SystemInv(s) && i < |s.services|
    ensures var o, v := OutcomeOf(s, DoConnect(i, a)), s.services[i];
      if s.latch.isConnected then
        && o.word == [] && o.latch == s.latch && o.state == v.state
        && o.code == (if v.state == READY then ERR_SERVICE_CONNECTED else ERR_SERVICE_CONNECTING)
      else if v.netType != NET_TYPE_CELLULAR then
        o.word == [] && o.latch == s.latch && o.state == v.state && o.code == ERR_INVALID_NETORK_TYPE
      else if a.connect then
        && o.word == [IDLE, CONNECTING, READY] && o.latch == Latch(true, true) && o.state == READY
        && o.code == ERR_SERVICE_REQUEST_SUCCESS
      else
        && o.word == [IDLE, CONNECTING, FAILURE, DISCONNECTED, IDLE] && o.latch == s.latch && o.state == IDLE
        && o.code == ERR_SERVICE_REQUEST_CONNECT_FAIL
  {
    assert Settled(s.services[i].state);
  }

  lemma DisconnectWords(s: System, i: nat, answer: bool)
    requires SystemInv(s) && i < |s.services|
    ensures var o := OutcomeOf(s, DoDisconnect(i, answer));
      && o.latch == s.latch
      && (if s.latch.isConnected && answer then
            && o.word == [DISCONNECTING, DISCONNECTED, IDLE] && o.state == IDLE
            && o.code == ERR_SERVICE_DISCONNECTED_SUCCESS
          else
            o.word == [DISCONNECTING, FAILURE] && o.state == FAILURE && o.code == ERR_SERVICE_DISCONNECTED_FAIL)
  {
    assert Settled(s.services[i].state);
  }

  /** The last state of a word, or the given one if nothing was said. */
  function LastSaid(word: seq<ServiceState>, otherwise: ServiceState): ServiceState {
    if word == [] then otherwise else word[|word| - 1]
  }

  /** In any state, a call leaves the service in the state it announced last. */
  lemma StateIsSaid(netType: nat, state: ServiceState, l: Latch, a: Answers, answer: bool)
    ensures Connect(netType, state, l, a).state == LastSaid(Connect(netType, state, l, a).word, state)
    ensures Disconnect(state, l, answer).state == LastSaid(Disconnect(state, l, answer).word, state)
  {
  }

  predicate TruthfulServices(s: System) {
    forall i :: 0 <= i < |s.services| ==> s.services[i].state == LastSaid(s.services[i].said, IDLE)
  }

  /** Over any run the state of each service is the last that it announced, and IDLE while it announced none. */
  lemma {:induction false} RunTruthful(s: System, calls: seq<Call>)
    requires TruthfulServices(s)
    ensures TruthfulServices(Run(s, calls))
    decreases |calls|
  {
    if calls != [] {
      var c := calls[0];
      if (c.DoConnect? || c.DoDisconnect?) && c.i < |s.services| {
        var v := s.services[c.i];
        if c.DoConnect? {
          StateIsSaid(v.netType, v.state, s.latch, c.answers, false);
        } else {
          StateIsSaid(v.netType, v.state, s.latch, Answers(false, false), c.answer);
        }
      }
      RunTruthful(Run1(s, c), calls[1..]);
    }
  }

  lemma InvPreserved(s: System, c: Call)
    requires SystemInv(s)
    ensures SystemInv(Run1(s, c))
    ensures s.latch.isConnected ==> Run1(s, c).latch.isConnected
    ensures s.latch.isConnected ==> Count(Run1(s, c).announced, CONNECTING) == Count(s.announced, CONNECTING)
  {
    if (c.DoConnect? || c.DoDisconnect?) && c.i < |s.services| {
      OutcomeKeeps(s, c);
      CountConcat(s.announced, OutcomeOf(s, c).word, READY);
      CountConcat(s.announced, OutcomeOf(s, c).word, CONNECTING);
    }
  }

  /** What one call by one service contributes to the invariant. */
  lemma OutcomeKeeps(s: System, c: Call)
    requires SystemInv(s) && (c.DoConnect? || c.DoDisconnect?) && c.i < |s.services|
    ensures var o := OutcomeOf(s, c);
      && o.latch.isConnecting == o.latch.isConnected
      && (s.latch.isConnected ==> o.latch.isConnected && Count(o.word, CONNECTING) == 0)
      && Settled(o.state) && (o.state == READY ==> o.latch.isConnected)
      && Count(o.word, READY) == (if o.latch.isConnected && !s.latch.isConnected then 1 else 0)
  {
    if c.DoConnect? {
      ConnectWords(s, c.i, c.answers);
      ConnectAnnounces(s, c.i, c.answers);
    } else {
      DisconnectWords(s, c.i, c.answer);
      DisconnectAnnounces(s, c.i, c.answer);
    }
  }

  lemma ConnectAnnounces(s: System, i: nat, a: Answers)
    requires SystemInv(s) && i < |s.services|
    ensures var o := OutcomeOf(s, DoConnect(i, a));
      && (s.latch.isConnected ==> Count(o.word, CONNECTING) == 0)
      && Count(o.word, READY) == (if o.latch.isConnected && !s.latch.isConnected then 1 else 0)
  {
    ConnectWords(s, i, a);
    CountShort(OutcomeOf(s, DoConnect(i, a)).word, READY);
    CountShort(OutcomeOf(s, DoConnect(i, a)).word, CONNECTING);
  }

  lemma DisconnectAnnounces(s: System, i: nat, answer: bool)
    requires SystemInv(s) && i < |s.services|
    ensures Count(OutcomeOf(s, DoDisconnect(i, answer)).word, READY) == 0
    ensures Count(OutcomeOf(s, DoDisconnect(i, answer)).word, CONNECTING) == 0
  {
    DisconnectWords(s, i, answer);
    CountShort(OutcomeOf(s, DoDisconnect(i, answer)).word, READY);
    CountShort(OutcomeOf(s, DoDisconnect(i, answer)).word, CONNECTING);
  }

  function IsAt(word: seq<ServiceState>, i: nat, x: ServiceState): nat {
    if i < |word| && word[i] == x then 1 else 0
  }

  lemma {:induction false} CountShort(word: seq<ServiceState>, x: ServiceState)
    ensures |word| <= 5 ==>
      Count(word, x) == IsAt(word, 0, x) + IsAt(word, 1, x) + IsAt(word, 2, x) + IsAt(word, 3, x) + IsAt(word, 4, x)
  {
    if word != [] {
      CountShort(word[1..], x);
    }
  }

  /**
   Over any run of calls, by any number of services that come and go on one network, and for any
   answers of the supplier: the state invariant holds between calls, and READY has been announced
   exactly once if the network is connected and never otherwise.
   */
  lemma {:induction false} RunInv(s: System, calls: seq<Call>)
    requires SystemInv(s)
    ensures SystemInv(Run(s, calls))
    ensures Count(Run(s, calls).announced, READY) <= 1
    ensures s.latch.isConnected ==>
      && Run(s, calls).latch.isConnected
      && Count(Run(s, calls).announced, CONNECTING) == Count(s.announced, CONNECTING)
    decreases |calls|
  {
    if calls != [] {
      InvPreserved(s, calls[0]);
      RunInv(Run1(s, calls[0]), calls[1..]);
    }
  }

  lemma NewSystemRuns(calls: seq<Call>)
    ensures SystemInv(Run(NEW_SYSTEM, calls))
    ensures Count(Run(NEW_SYSTEM, calls).announced, READY)
         == (if Run(NEW_SYSTEM, calls).latch.isConnected then 1 else 0)
    ensures TruthfulServices(Run(NEW_SYSTEM, calls))
  {
    RunInv(NEW_SYSTEM, calls);
    RunTruthful(NEW_SYSTEM, calls);
  }

  /** A disconnect and a connect, one after the other. */
  function BothCalls(netType: nat, state: ServiceState, l: Latch, answer: bool, a: Answers): Outcome {
    var d := Disconnect(state, l, answer);
    var c := Connect(netType, d.state, d.latch, a);
    c.(word := d.word + c.word)
  }

  /** ReConnectService: disconnect when connecting or connected, then connect. */
  function Reconnect(netType: nat, state: ServiceState, l: Latch, answer: bool, a: Answers): Outcome {
    if IsUp(state) || Connecting(state, l) then BothCalls(netType, state, l, answer, a)
    else Connect(netType, state, l, a)
  }

  /**
   The latch is never cleared, so in every reachable state a reconnection succeeds iff the network
   has never been connected, the service is cellular and the supplier agrees; on a network that has
   been connected it only disconnects.
   */
  lemma ReconnectSucceeds(s: System, i: nat, answer: bool, a: Answers)
    requires SystemInv(s) && i < |s.services|
    ensures var v := s.services[i];
      var o := Reconnect(v.netType, v.state, s.latch, answer, a);
      && (o.code == ERR_SERVICE_REQUEST_SUCCESS <==>
            !s.latch.isConnected && v.netType == NET_TYPE_CELLULAR && a.connect)
      && (s.latch.isConnected ==>
            && o.code == ERR_SERVICE_CONNECTING && !IsUp(o.state) && o.latch == s.latch
            && o.word == (if answer then [DISCONNECTING, DISCONNECTED, IDLE] else [DISCONNECTING, FAILURE])
            && o.state == (if answer then IDLE else FAILURE))
  {
    assert Settled(s.services[i].state);
  }

  /**
   When a further supplier without INTERNET registers, the default service is connected again. If it was up,
   that changes nothing but does not report success, so a reconnection is scheduled, and this takes it down.
   */
  lemma FurtherSupplierDisconnects(s: System, i: nat, a: Answers, answer: bool, again: Answers)
    requires SystemInv(s) && i < |s.services| && s.services[i].state == READY
    ensures var v := s.services[i];
      var o := Connect(v.netType, v.state, s.latch, a);
      && o.state == READY && o.word == [] && o.latch == s.latch && o.code != ERR_SERVICE_REQUEST_SUCCESS
      && !IsUp(Reconnect(v.netType, o.state, o.latch, answer, again).state)
  {
    ReconnectSucceeds(s, i, answer, again);
  }
}

module NetService {
  import opened Machine
  import opened Network
  import opened ServiceStates

  /** Every registered callback is called once per announced state, in registration order. */
  function Notified(callbacks: seq<nat>, word: seq<ServiceState>): seq<(nat, ServiceState)> {
    if word == [] then [] else NotifiedOnce(callbacks, word[0]) + Notified(callbacks, word[1..])
  }

  function NotifiedOnce(callbacks: seq<nat>, s: ServiceState): seq<(nat, ServiceState)> {
    if callbacks == [] then [] else [(callbacks[0], s)] + NotifiedOnce(callbacks[1..], s)
  }

  lemma {:induction false} NotifiedConcat(callbacks: seq<nat>, a: seq<ServiceState>, b: seq<ServiceState>)
    ensures Notified(callbacks, a + b) == Notified(callbacks, a) + Notified(callbacks, b)
  {
    if a == [] {
      assert a + b == b;
    } else {
      NotifiedConcat(callbacks, a[1..], b);
      assert (a + b)[1..] == a[1..] + b;
      Regroup(NotifiedOnce(callbacks, a[0]), Notified(callbacks, a[1..]), Notified(callbacks, b));
    }
  }

  /** Announcing one more state extends the announced word. */
  lemma OneMore(base: seq<(nat, ServiceState)>, callbacks: seq<nat>, word: seq<ServiceState>, next: ServiceState)
    ensures base + Notified(callbacks, word) + NotifiedOnce(callbacks, next)
         == base + Notified(callbacks, word + [next])
  {
    NotifiedConcat(callbacks, word, [next]);
    assert Notified(callbacks, [next]) == NotifiedOnce(callbacks, next) + [];
    Regroup(base, Notified(callbacks, word), NotifiedOnce(callbacks, next));
  }

  function HeardBy(log: seq<(nat, ServiceState)>, callback: nat): seq<ServiceState> {
    if log == [] then [] else (if log[0].0 == callback then [log[0].1] else []) + HeardBy(log[1..], callback)
  }

  lemma HeardCons(call: (nat, ServiceState), rest: seq<(nat, ServiceState)>, callback: nat)
    ensures HeardBy([call] + rest, callback)
         == (if call.0 == callback then [call.1] else []) + HeardBy(rest, callback)
  {
    assert ([call] + rest)[1..] == rest;
  }

  lemma {:induction false} HeardConcat(a: seq<(nat, ServiceState)>, b: seq<(nat, ServiceState)>, callback: nat)
    ensures HeardBy(a + b, callback) == HeardBy(a, callback) + HeardBy(b, callback)
  {
    if a == [] {
      assert a + b == b;
    } else {
      var call, rest := a[0], a[1..];
      HeardConcat(rest, b, callback);
      Regroup([call], rest, b);
      assert a == [call] + rest;
      HeardCons(call, rest + b, callback);
      HeardCons(call, rest, callback);
      Regroup(if call.0 == callback then [call.1] else [], HeardBy(rest, callback), HeardBy(b, callback));
    }
  }

  /** One announcement calls the callbacks in the order of their registration. */
  lemma {:induction false} NotifiedInOrder(callbacks: seq<nat>, s: ServiceState, i: nat)
    requires i < |callbacks|
    ensures |NotifiedOnce(callbacks, s)| == |callbacks| && NotifiedOnce(callbacks, s)[i] == (callbacks[i], s)
  {
    if |callbacks| > 1 {
      NotifiedInOrder(callbacks[1..], s, if i == 0 then 0 else i - 1);
    }
  }

  predicate Distinct(callbacks: seq<nat>) {
    forall i, j :: 0 <= i < j < |callbacks| ==> callbacks[i] != callbacks[j]
  }

  lemma {:induction false} HeardOnce(callbacks: seq<nat>, s: ServiceState, callback: nat)
    requires Distinct(callbacks)
    ensures HeardBy(NotifiedOnce(callbacks, s), callback) == if callback in callbacks then [s] else []
  {
    if callbacks != [] {
      HeardOnce(callbacks[1..], s, callback);
      assert NotifiedOnce(callbacks, s)[1..] == NotifiedOnce(callbacks[1..], s);
    }
  }

  /** A registered callback hears exactly the announced word; any other hears nothing. */
  lemma {:induction false} CallbackHears(callbacks: seq<nat>, word: seq<ServiceState>, callback: nat)
    requires Distinct(callbacks)
    ensures HeardBy(Notified(callbacks, word), callback) == if callback in callbacks then word else []
  {
    if word != [] {
      CallbackHears(callbacks, word[1..], callback);
      HeardOnce(callbacks, word[0], callback);
      HeardConcat(NotifiedOnce(callbacks, word[0]), Notified(callbacks, word[1..]), callback);
    }
  }

  /** The broadcasts and callback calls made so far. */
  datatype History = History(broadcasts: seq<ServiceState>, log: seq<(nat, ServiceState)>)

  class NetService {
    const ident: string
    const networkType: nat
    const netCapability: nat
    const network: Network
    var state: ServiceState
    var netConnCallback: seq<nat>
    ghost var broadcasts: seq<ServiceState>
    ghost var log: seq<(nat, ServiceState)>

    constructor (ident: string, networkType: nat, netCapability: nat, network: Network)
      ensures this.ident == ident && this.networkType == networkType
      ensures this.netCapability == netCapability && this.network == network
      ensures state == IDLE && netConnCallback == [] && broadcasts == [] && log == [] && Truthful()
    {
      this.ident, this.networkType, this.netCapability, this.network := ident, networkType, netCapability, network;
      state, netConnCallback := IDLE, [];
      broadcasts, log := [], [];
    }

    /** Everything announced since `past` is `word`, and the present callbacks have heard it. */
    ghost predicate Announced(past: History, word: seq<ServiceState>)
      reads this
    {
      broadcasts == past.broadcasts + word && log == past.log + Notified(netConnCallback, word)
    }

    /** The state is the last that was broadcast. */
    ghost predicate Truthful()
      reads this
    {
      state == LastSaid(broadcasts, IDLE)
    }

    ghost function Now(): History
      reads this
    {
      History(broadcasts, log)
    }

    /** `said` is what the calling method has announced since `past`. */
    method UpdateServiceState(serviceState: ServiceState, ghost past: History, ghost said: seq<ServiceState>)
      requires Announced(past, said)
      modifies this`state, this`broadcasts, this`log
      ensures state == if serviceState == UNKNOWN then FAILURE else serviceState
      ensures Announced(past, said + [serviceState])
    {
      match serviceState {
        case UNKNOWN => state := FAILURE;
        case _ => state := serviceState;
      }
      broadcasts := broadcasts + [serviceState];
      OneMore(past.log, netConnCallback, said, serviceState);
      NotifyNetConnStateChanged(serviceState);
    }

    method NotifyNetConnStateChanged(serviceState: ServiceState)
      modifies this`log
      ensures log == old(log) + NotifiedOnce(netConnCallback, serviceState)
    {
      var it := 0;
      while it < |netConnCallback|
        invariant 0 <= it <= |netConnCallback|
        invariant log + NotifiedOnce(netConnCallback[it..], serviceState)
               == old(log) + NotifiedOnce(netConnCallback, serviceState)
      {
        assert netConnCallback[it..][1..] == netConnCallback[it + 1..];
        log := log + [(netConnCallback[it], serviceState)];
        it := it + 1;
      }
    }

    method NetworkConnect(answer: bool, ghost past: History, ghost said: seq<ServiceState>) returns (retCode: int)
      requires Announced(past, said)
      modifies this`state, this`broadcasts, this`log, network`isConnecting, network`isConnected
      ensures state == CONNECTING && Announced(past, said + [CONNECTING])
      ensures (network.CurrentLatch(), retCode >= 0) == Connected(old(network.CurrentLatch()), answer)
    {
      retCode := -1;
      UpdateServiceState(CONNECTING, past, said);
      var ok := network.NetworkConnect(answer);
      if ok {
        retCode := 0;
      }
    }

    method NetworkDisConnect(answer: bool) returns (retCode: int)
      ensures retCode >= 0 <==> DisconnectAnswer(network.CurrentLatch(), answer)
    {
      retCode := -1;
      var ok := network.NetworkDisconnect(answer);
      if ok {
        retCode := 0;
      }
    }

    method ServiceConnect(answers: Answers) returns (code: int)
      modifies this`state, this`broadcasts, this`log, network`isConnecting, network`isConnected
      ensures var o := Connect(networkType, old(state), old(network.CurrentLatch()), answers);
        code == o.code && state == o.state && network.CurrentLatch() == o.latch && Announced(old(Now()), o.word)
      ensures old(Truthful()) ==> Truthful()
    {
      StateIsSaid(networkType, state, network.CurrentLatch(), answers, false);
      ghost var past := Now();
      if Connecting(state, network.CurrentLatch()) {
        return ERR_SERVICE_CONNECTING;
      }
      if IsUp(state) {
        return ERR_SERVICE_CONNECTED;
      }
      if networkType != NET_TYPE_CELLULAR {
        return ERR_INVALID_NETORK_TYPE;
      }
      UpdateServiceState(IDLE, past, []);
      assert [] + [IDLE] == [IDLE];
      var ret := NetworkConnect(answers.connect, past, [IDLE]);
      assert [IDLE] + [CONNECTING] == [IDLE, CONNECTING];
      if ret < 0 {
        UpdateServiceState(FAILURE, past, [IDLE, CONNECTING]);
        assert [IDLE, CONNECTING] + [FAILURE] == [IDLE, CONNECTING, FAILURE];
        var _ := NetworkDisConnect(answers.cleanUp);
        UpdateServiceState(DISCONNECTED, past, [IDLE, CONNECTING, FAILURE]);
        assert [IDLE, CONNECTING, FAILURE] + [DISCONNECTED] == [IDLE, CONNECTING, FAILURE, DISCONNECTED];
        UpdateServiceState(IDLE, past, [IDLE, CONNECTING, FAILURE, DISCONNECTED]);
        assert [IDLE, CONNECTING, FAILURE, DISCONNECTED] + [IDLE] == [IDLE, CONNECTING, FAILURE, DISCONNECTED, IDLE];
        return ERR_SERVICE_REQUEST_CONNECT_FAIL;
      }
      UpdateServiceState(READY, past, [IDLE, CONNECTING]);
      assert [IDLE, CONNECTING] + [READY] == [IDLE, CONNECTING, READY];
      return ERR_SERVICE_REQUEST_SUCCESS;
    }

    method ServiceDisConnect(answer: bool) returns (code: int)
      modifies this`state, this`broadcasts, this`log
      ensures var o := Disconnect(old(state), network.CurrentLatch(), answer);
        code == o.code && state == o.state && Announced(old(Now()), o.word)
      ensures old(Truthful()) ==> Truthful()
    {
      StateIsSaid(networkType, state, network.CurrentLatch(), Answers(false, false), answer);
      ghost var past := Now();
      if state == DISCONNECTING {
        return ERR_SERVICE_DISCONNECTING;
      }
      if state == DISCONNECTED {
        return ERR_SERVICE_DISCONNECTED_SUCCESS;
      }
      UpdateServiceState(DISCONNECTING, past, []);
      assert [] + [DISCONNECTING] == [DISCONNECTING];
      var ret := NetworkDisConnect(answer);
      if ret < 0 {
        UpdateServiceState(FAILURE, past, [DISCONNECTING]);
        assert [DISCONNECTING] + [FAILURE] == [DISCONNECTING, FAILURE];
        return ERR_SERVICE_DISCONNECTED_FAIL;
      }
      UpdateServiceState(DISCONNECTED, past, [DISCONNECTING]);
      assert [DISCONNECTING] + [DISCONNECTED] == [DISCONNECTING, DISCONNECTED];
      UpdateServiceState(IDLE, past, [DISCONNECTING, DISCONNECTED]);
      assert [DISCONNECTING, DISCONNECTED] + [IDLE] == [DISCONNECTING, DISCONNECTED, IDLE];
      return ERR_SERVICE_DISCONNECTED_SUCCESS;
    }

    /** Registering keeps the list free of duplicates; null and a callback already there are not added. */
    method RegisterNetConnCallback(callback: Option<nat>)
      modifies this`netConnCallback
      ensures netConnCallback == old(netConnCallback)
        + (if callback.None? || callback.value in old(netConnCallback) then [] else [callback.value])
      ensures Distinct(old(netConnCallback)) ==> Distinct(netConnCallback)
    {
      if callback.None? {
        return;
      }
      var iter := 0;
      while iter < |netConnCallback|
        invariant 0 <= iter <= |netConnCallback|
        invariant callback.value !in netConnCallback[..iter]
      {
        if netConnCallback[iter] == callback.value {
          return;
        }
        iter := iter + 1;
      }
      netConnCallback := netConnCallback + [callback.value];
    }

    /** Unregistering removes the first occurrence, the only one of a duplicate-free list, and keeps the order. */
    method UnregisterNetConnCallback(callback: Option<nat>) returns (code: int)
      modifies this`netConnCallback
      ensures code == if callback.None? then ERR_SERVICE_NULL_PTR
                      else if callback.value in old(netConnCallback) then ERR_NONE else ERR_NO_REGISTERED
      ensures code != ERR_NONE ==> netConnCallback == old(netConnCallback)
      ensures code == ERR_NONE ==> exists a, b ::
        old(netConnCallback) == a + [callback.value] + b && netConnCallback == a + b && callback.value !in a
      ensures code == ERR_NONE && Distinct(old(netConnCallback)) ==>
        Distinct(netConnCallback) && callback.value !in netConnCallback
    {
      if callback.None? {
        return ERR_SERVICE_NULL_PTR;
      }
      var iter := 0;
      while iter < |netConnCallback|
        invariant 0 <= iter <= |netConnCallback|
        invariant netConnCallback == old(netConnCallback)
        invariant callback.value !in netConnCallback[..iter]
      {
        if netConnCallback[iter] == callback.value {
          ghost var a, b := netConnCallback[..iter], netConnCallback[iter + 1..];
          assert netConnCallback == a + [callback.value] + b;
          netConnCallback := netConnCallback[..iter] + netConnCallback[iter + 1..];
          return ERR_NONE;
        }
        iter := iter + 1;
      }
      return ERR_NO_REGISTERED;
    }
  }
}
