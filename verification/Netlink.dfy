/**
 The Netlink link-message parser of netLink_rtnl.cpp.

 A receive buffer is a byte sequence. Both callers clear the buffer before they read into it,
 so a byte at or past the end of the received data reads as zero.
 */
module NetlinkMacros {
  import opened Machine

  const NLMSG_HDRLEN: nat := 16      // sizeof(nlmsghdr), already aligned
  const IFINFOMSG_LEN: nat := 16     // sizeof(ifinfomsg), already aligned
  const RTA_HDRLEN: nat := 4         // sizeof(rtattr)
  const RTM_NEWLINK: UInt16 := 16
  const RTM_DELLINK: UInt16 := 17
  const ARPHRD_ETHER: UInt16 := 1
  const IFLA_IFNAME: UInt16 := 3
  const IFLA_MAX: UInt16 := 55       // only IFLA_IFNAME <= IFLA_MAX matters below

  function At(b: seq<Byte>, i: nat): Byte {
    if i < |b| then b[i] else 0
  }

  function U16At(b: seq<Byte>, i: nat): UInt16 {
    At(b, i) + 0x100 * At(b, i + 1)
  }

  function U32At(b: seq<Byte>, i: nat): UInt32 {
    At(b, i) + 0x100 * At(b, i + 1) + 0x1_0000 * At(b, i + 2) + 0x100_0000 * At(b, i + 3)
  }

  /** NLMSG_ALIGN and RTA_ALIGN: `(n + 3) & ~3` in unsigned arithmetic. */
  function Align4(n: UInt32): UInt32 {
    ToUInt32(n + 3) / 4 * 4
  }

  /** NLMSG_OK(nh, len) */
  predicate NlmsgOk(b: seq<Byte>, nh: nat, len: Int32) {
    len >= NLMSG_HDRLEN && U32At(b, nh) >= NLMSG_HDRLEN && U32At(b, nh) <= len
  }

  /** The two effects of NLMSG_NEXT(nh, len): the new pointer and the new remaining length. */
  function NlmsgNext(b: seq<Byte>, nh: nat): nat {
    nh + Align4(U32At(b, nh))
  }

  function NlmsgRest(b: seq<Byte>, nh: nat, len: Int32): Int32 {
    ToInt32(len - Align4(U32At(b, nh)))
  }

  /** RTA_OK(attr, len) */
  predicate RtaOk(b: seq<Byte>, attr: nat, len: Int32) {
    len >= RTA_HDRLEN && U16At(b, attr) >= RTA_HDRLEN && U16At(b, attr) <= len
  }

  function RtaNext(b: seq<Byte>, attr: nat): nat {
    attr + Align4(U16At(b, attr))
  }

  function RtaRest(b: seq<Byte>, attr: nat, len: Int32): Int32 {
    ToInt32(len - Align4(U16At(b, attr)))
  }

  /** Padding an accepted size and subtracting it from the remaining length stays within 32 bits. */
  lemma PaddedStep(n: nat, len: Int32)
    requires n <= len
    ensures n <= Align4(n) <= n + 3 && Align4(n) % 4 == 0
    ensures ToInt32(len - Align4(n)) == len - Align4(n) >= -3
  {
  }

  /** An accepted message shortens the remaining length by the padded size; the result is never below -3. */
  lemma MessageStep(b: seq<Byte>, nh: nat, len: Int32)
    requires NlmsgOk(b, nh, len)
    ensures NlmsgNext(b, nh) - nh == len - NlmsgRest(b, nh, len)
    ensures U32At(b, nh) <= NlmsgNext(b, nh) - nh <= U32At(b, nh) + 3
    ensures (NlmsgNext(b, nh) - nh) % 4 == 0
    ensures -3 <= NlmsgRest(b, nh, len) <= len - NLMSG_HDRLEN
  {
    PaddedStep(U32At(b, nh), len);
  }

  lemma AttributeStep(b: seq<Byte>, attr: nat, len: Int32)
    requires RtaOk(b, attr, len)
    ensures RtaNext(b, attr) - attr == len - RtaRest(b, attr, len)
    ensures U16At(b, attr) <= RtaNext(b, attr) - attr <= U16At(b, attr) + 3
    ensures (RtaNext(b, attr) - attr) % 4 == 0
    ensures -3 <= RtaRest(b, attr, len) <= len - RTA_HDRLEN
  {
    PaddedStep(U16At(b, attr), len);
  }

  /** Offsets of the messages the loop `for (; NLMSG_OK; NLMSG_NEXT)` visits. */
  function MessageOffsets(b: seq<Byte>, nh: nat, len: Int32): seq<nat>
    decreases len
  {
    if !NlmsgOk(b, nh, len) then []
    else
      MessageStep(b, nh, len);
      [nh] + MessageOffsets(b, NlmsgNext(b, nh), NlmsgRest(b, nh, len))
  }

  /** Offsets of the attributes the loop `for (; RTA_OK; RTA_NEXT)` visits. */
  function AttributeOffsets(b: seq<Byte>, attr: nat, len: Int32): seq<nat>
    decreases len
  {
    if !RtaOk(b, attr, len) then []
    else
      AttributeStep(b, attr, len);
      [attr] + AttributeOffsets(b, RtaNext(b, attr), RtaRest(b, attr, len))
  }

  /** The message at p lies whole within the len bytes from `from`, at an aligned distance. */
  predicate MessageInside(b: seq<Byte>, p: nat, from: nat, len: int) {
    from <= p && NLMSG_HDRLEN <= U32At(b, p) && p + U32At(b, p) <= from + len && (p - from) % 4 == 0
  }

  predicate AttributeInside(b: seq<Byte>, p: nat, from: nat, len: int) {
    from <= p && RTA_HDRLEN <= U16At(b, p) && p + U16At(b, p) <= from + len && (p - from) % 4 == 0
  }

  lemma InsideExtends(b: seq<Byte>, p: nat, from: nat, next: nat, len: int)
    requires from <= next && (next - from) % 4 == 0
    ensures MessageInside(b, p, next, len - (next - from)) ==> MessageInside(b, p, from, len)
    ensures AttributeInside(b, p, next, len - (next - from)) ==> AttributeInside(b, p, from, len)
  {
  }

  /**
   Every header the message walk accepts lies, with its whole message, inside the `len` bytes that
   remain, at a distance that is a multiple of four. The bytes and `len` are arbitrary.
   */
  lemma {:induction false} MessagesInside(b: seq<Byte>, nh: nat, len: Int32, i: nat)
    requires i < |MessageOffsets(b, nh, len)|
    ensures MessageInside(b, MessageOffsets(b, nh, len)[i], nh, len)
    decreases i
  {
    MessageStep(b, nh, len);
    if 0 < i {
      MessagesInside(b, NlmsgNext(b, nh), NlmsgRest(b, nh, len), i - 1);
      InsideExtends(b, MessageOffsets(b, nh, len)[i], nh, NlmsgNext(b, nh), len);
    }
  }

  /** Accepted messages do not overlap. */
  lemma {:induction false} MessagesDisjoint(b: seq<Byte>, nh: nat, len: Int32, i: nat, j: nat)
    requires i < j < |MessageOffsets(b, nh, len)|
    ensures MessageOffsets(b, nh, len)[i] + U32At(b, MessageOffsets(b, nh, len)[i]) <= MessageOffsets(b, nh, len)[j]
    decreases i
  {
    MessageStep(b, nh, len);
    if 0 < i {
      MessagesDisjoint(b, NlmsgNext(b, nh), NlmsgRest(b, nh, len), i - 1, j - 1);
    } else {
      MessagesInside(b, NlmsgNext(b, nh), NlmsgRest(b, nh, len), j - 1);
    }
  }

  /** The same for the attribute walk. */
  lemma {:induction false} AttributesInside(b: seq<Byte>, attr: nat, len: Int32, i: nat)
    requires i < |AttributeOffsets(b, attr, len)|
    ensures AttributeInside(b, AttributeOffsets(b, attr, len)[i], attr, len)
    decreases i
  {
    AttributeStep(b, attr, len);
    if 0 < i {
      AttributesInside(b, RtaNext(b, attr), RtaRest(b, attr, len), i - 1);
      InsideExtends(b, AttributeOffsets(b, attr, len)[i], attr, RtaNext(b, attr), len);
    }
  }

  lemma {:induction false} AttributesDisjoint(b: seq<Byte>, attr: nat, len: Int32, i: nat, j: nat)
    requires i < j < |AttributeOffsets(b, attr, len)|
    ensures AttributeOffsets(b, attr, len)[i] + U16At(b, AttributeOffsets(b, attr, len)[i])
         <= AttributeOffsets(b, attr, len)[j]
    decreases i
  {
    AttributeStep(b, attr, len);
    if 0 < i {
      AttributesDisjoint(b, RtaNext(b, attr), RtaRest(b, attr, len), i - 1, j - 1);
    } else {
      AttributesInside(b, RtaNext(b, attr), RtaRest(b, attr, len), j - 1);
    }
  }
}

/** What the parser must extract, stated on offsets. */
module NetlinkSpec {
  import opened Machine
  import opened NetlinkMacros

  datatype NlkEventInfo = NlkEventInfo(iface: seq<Byte>, ifiFlags: UInt32)

  /** A default-constructed NlkEventInfo. */
  const NO_INFO := NlkEventInfo([], 0)

  /** The C string that starts at i. */
  function CString(b: seq<Byte>, i: nat): seq<Byte>
    decreases |b| - i
  {
    if At(b, i) == 0 then [] else [b[i]] + CString(b, i + 1)
  }

  predicate IsLinkMessage(b: seq<Byte>, nh: nat) {
    U16At(b, nh + 4) == RTM_NEWLINK || U16At(b, nh + 4) == RTM_DELLINK
  }

  predicate IsEthernet(b: seq<Byte>, nh: nat) {
    U16At(b, nh + NLMSG_HDRLEN + 2) == ARPHRD_ETHER
  }

  function LinkFlags(b: seq<Byte>, nh: nat): UInt32 {
    U32At(b, nh + NLMSG_HDRLEN + 8)
  }

  /** `nlmsg_len - NLMSG_SPACE(sizeof(ifinfomsg))` stored into an int32_t. */
  function LinkAttributeLength(b: seq<Byte>, nh: nat): Int32 {
    ToInt32(U32At(b, nh) - (NLMSG_HDRLEN + IFINFOMSG_LEN))
  }

  function LinkAttributes(b: seq<Byte>, nh: nat): seq<nat> {
    AttributeOffsets(b, nh + NLMSG_HDRLEN + IFINFOMSG_LEN, LinkAttributeLength(b, nh))
  }

  /** The attribute of type t that occurs last. */
  function LastOfType(b: seq<Byte>, attrs: seq<nat>, t: UInt16): Option<nat> {
    if attrs == [] then None
    else
      var later := LastOfType(b, attrs[1..], t);
      if later.Some? then later
      else if U16At(b, attrs[0] + 2) == t then Some(attrs[0])
      else None
  }

  function LinkInfo(b: seq<Byte>, nh: nat): NlkEventInfo {
    if !IsEthernet(b, nh) then NO_INFO
    else
      var name := LastOfType(b, LinkAttributes(b, nh), IFLA_IFNAME);
      NlkEventInfo(if name.Some? then CString(b, name.value + RTA_HDRLEN) else [], LinkFlags(b, nh))
  }

  /** One info per link message: what ProcessReadMsg collects. */
  function CollectedInfos(b: seq<Byte>, msgs: seq<nat>): seq<NlkEventInfo> {
    if msgs == [] then []
    else (if IsLinkMessage(b, msgs[0]) then [LinkInfo(b, msgs[0])] else []) + CollectedInfos(b, msgs[1..])
  }

  /** One event per Ethernet link message: what ProcessLinkEventMsg announces. */
  function AnnouncedEvents(b: seq<Byte>, msgs: seq<nat>): seq<NlkEventInfo> {
    if msgs == [] then []
    else (if IsLinkMessage(b, msgs[0]) && IsEthernet(b, msgs[0]) then [LinkInfo(b, msgs[0])] else [])
         + AnnouncedEvents(b, msgs[1..])
  }

  function Named(infos: seq<NlkEventInfo>): seq<NlkEventInfo> {
    if infos == [] then []
    else (if infos[0].iface != [] then [infos[0]] else []) + Named(infos[1..])
  }

  /** The handler calls one event causes: every registered handler in registration order. */
  function CallsFor(handles: seq<nat>, e: NlkEventInfo): seq<(nat, NlkEventInfo)> {
    if handles == [] then [] else [(handles[0], e)] + CallsFor(handles[1..], e)
  }

  function CallsForAll(handles: seq<nat>, es: seq<NlkEventInfo>): seq<(nat, NlkEventInfo)> {
    if es == [] then [] else CallsFor(handles, es[0]) + CallsForAll(handles, es[1..])
  }

  /** The events handler h received in a log of calls. */
  function ReceivedBy(calls: seq<(nat, NlkEventInfo)>, h: nat): seq<NlkEventInfo> {
    if calls == [] then []
    else (if calls[0].0 == h then [calls[0].1] else []) + ReceivedBy(calls[1..], h)
  }

  /** For a link message that holds a whole ifinfomsg, every attribute lies inside that message. */
  lemma LinkAttributesInside(b: seq<Byte>, nh: nat)
    requires U32At(b, nh) < 0x8000_0000
    ensures U32At(b, nh) < 32 ==> LinkAttributes(b, nh) == []
    ensures forall i :: 0 <= i < |LinkAttributes(b, nh)| ==>
      AttributeInside(b, LinkAttributes(b, nh)[i], nh + 32, U32At(b, nh) - 32)
  {
    forall i: nat | i < |LinkAttributes(b, nh)|
      ensures AttributeInside(b, LinkAttributes(b, nh)[i], nh + 32, U32At(b, nh) - 32)
    {
      AttributesInside(b, nh + NLMSG_HDRLEN + IFINFOMSG_LEN, LinkAttributeLength(b, nh), i);
    }
  }

  /** A C string ends at the first zero byte, wherever that is. */
  lemma {:induction false} CStringEnds(b: seq<Byte>, p: nat)
    ensures At(b, p + |CString(b, p)|) == 0
    ensures forall i: nat :: p <= i < p + |CString(b, p)| ==> At(b, i) != 0
    decreases |b| - p
  {
    if At(b, p) != 0 {
      CStringEnds(b, p + 1);
      assert |CString(b, p)| == 1 + |CString(b, p + 1)|;
    }
  }

  /**
   The name of an attribute, with its terminating zero, lies inside the attribute iff the payload holds a
   zero byte; the parser does not look for one, and otherwise reads on behind the attribute.
   */
  lemma NameInside(b: seq<Byte>, attr: nat)
    ensures attr + RTA_HDRLEN + |CString(b, attr + RTA_HDRLEN)| < attr + U16At(b, attr)
       <==> exists i: nat :: attr + RTA_HDRLEN <= i < attr + U16At(b, attr) && At(b, i) == 0
  {
    CStringEnds(b, attr + RTA_HDRLEN);
  }

  predicate IsLastOfType(b: seq<Byte>, attrs: seq<nat>, t: UInt16, i: int) {
    && 0 <= i < |attrs|
    && U16At(b, attrs[i] + 2) == t
    && forall j :: i < j < |attrs| ==> U16At(b, attrs[j] + 2) != t
  }

  lemma {:induction false} LastOfTypeIsLast(b: seq<Byte>, attrs: seq<nat>, t: UInt16)
    ensures LastOfType(b, attrs, t).None? <==> forall i :: 0 <= i < |attrs| ==> U16At(b, attrs[i] + 2) != t
    ensures LastOfType(b, attrs, t).Some? ==>
      exists i :: IsLastOfType(b, attrs, t, i) && attrs[i] == LastOfType(b, attrs, t).value
  {
    if attrs != [] {
      LastOfTypeIsLast(b, attrs[1..], t);
      var later := LastOfType(b, attrs[1..], t);
      assert forall i :: 0 < i < |attrs| ==> attrs[i] == attrs[1..][i - 1];
      if later.Some? {
        var k :| IsLastOfType(b, attrs[1..], t, k) && attrs[1..][k] == later.value;
        assert IsLastOfType(b, attrs, t, k + 1);
      } else if U16At(b, attrs[0] + 2) == t {
        assert IsLastOfType(b, attrs, t, 0);
      }
    }
  }

  lemma NamedCons(e: NlkEventInfo, rest: seq<NlkEventInfo>)
    ensures Named([e] + rest) == (if e.iface != [] then [e] else []) + Named(rest)
  {
    assert ([e] + rest)[1..] == rest;
  }

  lemma {:induction false} NamedConcat(a: seq<NlkEventInfo>, c: seq<NlkEventInfo>)
    ensures Named(a + c) == Named(a) + Named(c)
  {
    if a == [] {
      assert a + c == c;
    } else {
      var e, rest := a[0], a[1..];
      NamedConcat(rest, c);
      Regroup([e], rest, c);
      assert a == [e] + rest;
      NamedCons(e, rest + c);
      NamedCons(e, rest);
      Regroup(if e.iface != [] then [e] else [], Named(rest), Named(c));
    }
  }

  /**
   The two parse paths agree on every walk: after dropping nameless entries, what one collects is
   what the other announces.
   */
  lemma {:induction false} PathsAgree(b: seq<Byte>, msgs: seq<nat>)
    ensures Named(CollectedInfos(b, msgs)) == Named(AnnouncedEvents(b, msgs))
  {
    if msgs != [] {
      PathsAgree(b, msgs[1..]);
      var m := msgs[0];
      var one := if IsLinkMessage(b, m) then [LinkInfo(b, m)] else [];
      var two := if IsLinkMessage(b, m) && IsEthernet(b, m) then [LinkInfo(b, m)] else [];
      NamedConcat(one, CollectedInfos(b, msgs[1..]));
      NamedConcat(two, AnnouncedEvents(b, msgs[1..]));
      assert Named(one) == Named(two);
    }
  }

  lemma ReceivedCons(call: (nat, NlkEventInfo), rest: seq<(nat, NlkEventInfo)>, h: nat)
    ensures ReceivedBy([call] + rest, h) == (if call.0 == h then [call.1] else []) + ReceivedBy(rest, h)
  {
    assert ([call] + rest)[1..] == rest;
  }

  lemma {:induction false} ReceivedConcat(a: seq<(nat, NlkEventInfo)>, c: seq<(nat, NlkEventInfo)>, h: nat)
    ensures ReceivedBy(a + c, h) == ReceivedBy(a, h) + ReceivedBy(c, h)
  {
    if a == [] {
      assert a + c == c;
    } else {
      var call, rest := a[0], a[1..];
      ReceivedConcat(rest, c, h);
      Regroup([call], rest, c);
      assert a == [call] + rest;
      ReceivedCons(call, rest + c, h);
      ReceivedCons(call, rest, h);
      Regroup(if call.0 == h then [call.1] else [], ReceivedBy(rest, h), ReceivedBy(c, h));
    }
  }

  /** A message that is accepted is the first of its walk. */
  lemma FirstOfWalk(b: seq<Byte>, nh: nat, len: Int32)
    requires NlmsgOk(b, nh, len)
    ensures NlmsgRest(b, nh, len) < len
    ensures MessageOffsets(b, nh, len) == [nh] + MessageOffsets(b, NlmsgNext(b, nh), NlmsgRest(b, nh, len))
  {
    MessageStep(b, nh, len);
  }

  function FirstCalls(b: seq<Byte>, m: nat, handles: seq<nat>): seq<(nat, NlkEventInfo)> {
    if IsLinkMessage(b, m) && IsEthernet(b, m) then CallsFor(handles, LinkInfo(b, m)) else []
  }

  lemma CallsOfFirst(b: seq<Byte>, m: nat, msgs: seq<nat>, handles: seq<nat>)
    ensures CallsForAll(handles, AnnouncedEvents(b, [m] + msgs))
         == FirstCalls(b, m, handles) + CallsForAll(handles, AnnouncedEvents(b, msgs))
  {
    assert ([m] + msgs)[1..] == msgs;
    var rest := AnnouncedEvents(b, msgs);
    if IsLinkMessage(b, m) && IsEthernet(b, m) {
      var e := LinkInfo(b, m);
      assert AnnouncedEvents(b, [m] + msgs) == [e] + rest;
      assert ([e] + rest)[1..] == rest;
    } else {
      assert AnnouncedEvents(b, [m] + msgs) == rest;
    }
  }

  /** How often h is registered: a handler that registers twice is called twice. */
  function Registrations(handles: seq<nat>, h: nat): nat {
    if handles == [] then 0 else (if handles[0] == h then 1 else 0) + Registrations(handles[1..], h)
  }

  function Copies(e: NlkEventInfo, n: nat): seq<NlkEventInfo> {
    seq(n, _ => e)
  }

  function EachCopied(es: seq<NlkEventInfo>, n: nat): seq<NlkEventInfo> {
    if es == [] then [] else Copies(es[0], n) + EachCopied(es[1..], n)
  }

  lemma {:induction false} ReceivedOfOne(handles: seq<nat>, e: NlkEventInfo, h: nat)
    ensures ReceivedBy(CallsFor(handles, e), h) == Copies(e, Registrations(handles, h))
  {
    if handles != [] {
      ReceivedOfOne(handles[1..], e, h);
      assert CallsFor(handles, e)[1..] == CallsFor(handles[1..], e);
    }
  }

  /** One event calls the handlers in the order of their registration. */
  lemma {:induction false} CalledInOrder(handles: seq<nat>, e: NlkEventInfo, i: nat)
    requires i < |handles|
    ensures |CallsFor(handles, e)| == |handles| && CallsFor(handles, e)[i] == (handles[i], e)
  {
    if |handles| > 1 {
      CalledInOrder(handles[1..], e, if i == 0 then 0 else i - 1);
    }
  }

  /** Every handler receives the events in order, once per registration. */
  lemma {:induction false} EveryHandlerReceives(handles: seq<nat>, es: seq<NlkEventInfo>, h: nat)
    ensures ReceivedBy(CallsForAll(handles, es), h) == EachCopied(es, Registrations(handles, h))
    ensures Registrations(handles, h) == 1 ==> ReceivedBy(CallsForAll(handles, es), h) == es
  {
    if es != [] {
      EveryHandlerReceives(handles, es[1..], h);
      ReceivedOfOne(handles, es[0], h);
      ReceivedConcat(CallsFor(handles, es[0]), CallsForAll(handles, es[1..]), h);
      if Registrations(handles, h) == 1 {
        assert Copies(es[0], 1) == [es[0]];
      }
    }
  }

  /**
   On every buffer, whatever its bytes: the named infos that the dump reader collects are the named events
   that a handler registered once receives, in the same order.
   */
  lemma HandlersAgreeWithDump(b: seq<Byte>, msgs: seq<nat>, handles: seq<nat>, h: nat)
    requires Registrations(handles, h) == 1
    ensures Named(ReceivedBy(CallsForAll(handles, AnnouncedEvents(b, msgs)), h)) == Named(CollectedInfos(b, msgs))
  {
    EveryHandlerReceives(handles, AnnouncedEvents(b, msgs), h);
    PathsAgree(b, msgs);
  }
}

/** netLink_rtnl.cpp: the walks themselves. */
module NetLinkRtnl {
  import opened Machine
  import opened NetlinkMacros
  import opened NetlinkSpec

  /** The `tb` table of one attribute walk: for each type, the attribute that came last. */
  method FillAttributeTable(b: seq<Byte>, nh: nat) returns (tb: array<Option<nat>>)
    ensures fresh(tb) && tb.Length == IFLA_MAX as nat + 1
    ensures forall t :: 0 <= t <= IFLA_MAX as nat ==> tb[t] == LastOfType(b, LinkAttributes(b, nh), t)
  {
    tb := new Option<nat>[IFLA_MAX + 1](_ => None);
    var len := LinkAttributeLength(b, nh);
    var attr: nat := nh + NLMSG_HDRLEN + IFINFOMSG_LEN;
    while RtaOk(b, attr, len)
      invariant forall t :: 0 <= t <= IFLA_MAX as nat ==>
        LastOfType(b, LinkAttributes(b, nh), t) ==
          var later := LastOfType(b, AttributeOffsets(b, attr, len), t); if later.Some? then later else tb[t]
      decreases len
    {
      AttributeStep(b, attr, len);
      var rtaType := U16At(b, attr + 2);
      if rtaType <= IFLA_MAX {
        tb[rtaType] := Some(attr);
      }
      attr, len := RtaNext(b, attr), RtaRest(b, attr, len);
    }
  }

  method ProcessLinkMsg(b: seq<Byte>, nh: nat) returns (info: NlkEventInfo)
    ensures info == LinkInfo(b, nh)
  {
    info := NO_INFO;
    if !IsEthernet(b, nh) {
      return;
    }
    var tb := FillAttributeTable(b, nh);
    if tb[IFLA_IFNAME].Some? {
      info := info.(iface := CString(b, tb[IFLA_IFNAME].value + RTA_HDRLEN));
    }
    info := info.(ifiFlags := LinkFlags(b, nh));
  }

  /** The dump reader: appends one info per link message, whatever the bytes and the length. */
  method ProcessReadMsg(pBuff: array?<Byte>, readLen: Int32, infos: seq<NlkEventInfo>)
    returns (infos': seq<NlkEventInfo>)
    ensures pBuff == null ==> infos' == infos
    ensures pBuff != null ==> infos' == infos + CollectedInfos(pBuff[..], MessageOffsets(pBuff[..], 0, readLen))
  {
    infos' := infos;
    if pBuff == null {
      return;
    }
    var b := pBuff[..];
    var nh: nat, len: Int32 := 0, readLen;
    while NlmsgOk(b, nh, len)
      invariant infos' + CollectedInfos(b, MessageOffsets(b, nh, len))
             == infos + CollectedInfos(b, MessageOffsets(b, 0, readLen))
      decreases len
    {
      MessageStep(b, nh, len);
      assert MessageOffsets(b, nh, len)[1..] == MessageOffsets(b, NlmsgNext(b, nh), NlmsgRest(b, nh, len));
      if IsLinkMessage(b, nh) {
        var info := ProcessLinkMsg(b, nh);
        infos' := infos' + [info];
      }
      nh, len := NlmsgNext(b, nh), NlmsgRest(b, nh, len);
    }
  }

  /** The event listener. A handler is an identity; `calls` logs every `Handle` invocation in order. */
  class NetLinkRtnl {
    var nlkHandles: seq<nat>
    ghost var calls: seq<(nat, NlkEventInfo)>

    constructor ()
      ensures nlkHandles == [] && calls == []
    {
      nlkHandles, calls := [], [];
    }

    method RegisterHandle(h: nat)
      modifies this
      ensures nlkHandles == old(nlkHandles) + [h] && calls == old(calls)
    {
      nlkHandles := nlkHandles + [h];
    }

    /** `(*it)->Handle(info)` of a handler outside the model. */
    method Handle(h: nat, info: NlkEventInfo)
      modifies this`calls
      ensures calls == old(calls) + [(h, info)]
    {
      calls := calls + [(h, info)];
    }

    method ProcessIfInfoMsg(b: seq<Byte>, nh: nat)
      modifies this`calls
      ensures calls == old(calls) + if IsEthernet(b, nh) then CallsFor(nlkHandles, LinkInfo(b, nh)) else []
    {
      if !IsEthernet(b, nh) {
        return;
      }
      var tb := FillAttributeTable(b, nh);
      var info := NO_INFO;
      if tb[IFLA_IFNAME].Some? {
        info := info.(iface := CString(b, tb[IFLA_IFNAME].value + RTA_HDRLEN));
      }
      info := info.(ifiFlags := LinkFlags(b, nh));
      var it := 0;
      while it < |nlkHandles|
        invariant 0 <= it <= |nlkHandles|
        invariant calls + CallsFor(nlkHandles[it..], info) == old(calls) + CallsFor(nlkHandles, info)
      {
        assert nlkHandles[it..][1..] == nlkHandles[it + 1..];
        Handle(nlkHandles[it], info);
        it := it + 1;
      }
    }

    /** The switch on nlmsg_type. */
    method ProcessMsg(b: seq<Byte>, nh: nat)
      modifies this`calls
      ensures calls == old(calls) + FirstCalls(b, nh, nlkHandles)
    {
      if IsLinkMessage(b, nh) {
        ProcessIfInfoMsg(b, nh);
      }
    }

    method ProcessLinkEventMsg(pBuff: array?<Byte>, readLen: Int32)
      modifies this`calls
      ensures pBuff == null ==> calls == old(calls)
      ensures pBuff != null ==> 
        calls == old(calls) + CallsForAll(nlkHandles, AnnouncedEvents(pBuff[..], MessageOffsets(pBuff[..], 0, readLen)))
    {
      if pBuff == null {
        return;
      }
      var b := pBuff[..];
      var nh: nat, len: Int32 := 0, readLen;
      ghost var pending := CallsForAll(nlkHandles, AnnouncedEvents(b, MessageOffsets(b, 0, readLen)));
      ghost var goal := calls + pending;
      while NlmsgOk(b, nh, len)
        invariant pending == CallsForAll(nlkHandles, AnnouncedEvents(b, MessageOffsets(b, nh, len)))
        invariant calls + pending == goal
        decreases len
      {
        FirstOfWalk(b, nh, len);
        ghost var msgs := MessageOffsets(b, NlmsgNext(b, nh), NlmsgRest(b, nh, len));
        CallsOfFirst(b, nh, msgs, nlkHandles);
        ghost var before := calls;
        ProcessMsg(b, nh);
        pending := CallsForAll(nlkHandles, AnnouncedEvents(b, msgs));
        Regroup(before, FirstCalls(b, nh, nlkHandles), pending);
        nh, len := NlmsgNext(b, nh), NlmsgRest(b, nh, len);
      }
    }
  }
}
