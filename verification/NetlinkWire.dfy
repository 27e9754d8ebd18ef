/**
 The wire layout of Netlink link messages (sections 2.2, 2.3.2 and 2.3.3.1 of RFC 3549) as a
 serialiser, and the proof that the parser inverts it.
 */
module NetlinkWire {
  import opened Machine
  import opened NetlinkMacros
  import opened NetlinkSpec

  // The numbers of the wire format, independent of the parser's.
  const WIRE_HEADER: nat := 16         // length, type, flags, sequence number, port id
  const WIRE_ATTRIBUTE_HEADER: nat := 4
  const WIRE_NEWLINK: UInt16 := 16
  const WIRE_DELLINK: UInt16 := 17
  const WIRE_ETHER: UInt16 := 1
  const WIRE_IFNAME: UInt16 := 3

  /** A routing attribute. Padding bytes are arbitrary. */
  datatype Attribute = Attribute(attrType: UInt16, payload: seq<Byte>, pad: seq<Byte>)

  datatype Body =
    | Link(family: Byte, reserved: Byte, ifType: UInt16, index: UInt32, flags: UInt32, change: UInt32,
           attrs: seq<Attribute>)
    | Other(data: seq<Byte>)

  datatype Message = Message(msgType: UInt16, msgFlags: UInt16, seqNo: UInt32, pid: UInt32, body: Body, pad: seq<Byte>)

  function PadLength(n: nat): nat {
    (4 - n % 4) % 4
  }

  function EncodeAttribute(a: Attribute): seq<Byte>
    requires |a.payload| + WIRE_ATTRIBUTE_HEADER < 0x1_0000
  {
    Bytes16(|a.payload| + WIRE_ATTRIBUTE_HEADER) + (Bytes16(a.attrType) + (a.payload + a.pad))
  }

  predicate WellFormedAttribute(a: Attribute) {
    && |a.payload| + WIRE_ATTRIBUTE_HEADER < 0x1_0000
    && |a.pad| == PadLength(|a.payload|)
    && (a.attrType == WIRE_IFNAME ==> 0 in a.payload)
  }

  predicate WellFormedAttributes(attrs: seq<Attribute>) {
    forall i :: 0 <= i < |attrs| ==> WellFormedAttribute(attrs[i])
  }

  function EncodeAttributes(attrs: seq<Attribute>): seq<Byte>
    requires WellFormedAttributes(attrs)
  {
    if attrs == [] then [] else EncodeAttribute(attrs[0]) + EncodeAttributes(attrs[1..])
  }

  predicate WellFormedBody(body: Body) {
    body.Link? ==> WellFormedAttributes(body.attrs)
  }

  function EncodeBody(body: Body): seq<Byte>
    requires WellFormedBody(body)
  {
    match body
    case Other(data) => data
    case Link(family, reserved, ifType, index, flags, change, attrs) =>
      [family, reserved] + (Bytes16(ifType) + (Bytes32(index) + (Bytes32(flags) + (Bytes32(change)
      + EncodeAttributes(attrs)))))
  }

  predicate WellFormedMessage(m: Message) {
    && WellFormedBody(m.body)
    && (m.body.Link? <==> m.msgType == WIRE_NEWLINK || m.msgType == WIRE_DELLINK)
    && WIRE_HEADER + |EncodeBody(m.body)| < 0x8000_0000
    && |m.pad| == PadLength(|EncodeBody(m.body)|)
  }

  function EncodeMessage(m: Message): seq<Byte>
    requires WellFormedMessage(m)
  {
    Bytes32(WIRE_HEADER + |EncodeBody(m.body)|) + (Bytes16(m.msgType) + (Bytes16(m.msgFlags)
    + (Bytes32(m.seqNo) + (Bytes32(m.pid) + (EncodeBody(m.body) + m.pad)))))
  }

  predicate WellFormed(ms: seq<Message>) {
    forall i :: 0 <= i < |ms| ==> WellFormedMessage(ms[i])
  }

  function Encode(ms: seq<Message>): seq<Byte>
    requires WellFormed(ms)
  {
    if ms == [] then [] else EncodeMessage(ms[0]) + Encode(ms[1..])
  }

  /** What the messages say, without any reference to bytes or offsets. */
  function UpToNul(s: seq<Byte>): seq<Byte>
    requires 0 in s
  {
    if s[0] == 0 then [] else [s[0]] + UpToNul(s[1..])
  }

  function LastName(attrs: seq<Attribute>): Option<seq<Byte>>
    requires WellFormedAttributes(attrs)
  {
    if attrs == [] then None
    else
      var later := LastName(attrs[1..]);
      if later.Some? then later
      else if attrs[0].attrType == WIRE_IFNAME then Some(UpToNul(attrs[0].payload))
      else None
  }

  function InfoOf(body: Body): NlkEventInfo
    requires WellFormedBody(body) && body.Link?
  {
    if body.ifType != WIRE_ETHER then NlkEventInfo([], 0)
    else
      var name := LastName(body.attrs);
      NlkEventInfo(if name.Some? then name.value else [], body.flags)
  }

  function InfosOf(ms: seq<Message>): seq<NlkEventInfo>
    requires WellFormed(ms)
  {
    if ms == [] then []
    else (if ms[0].body.Link? then [InfoOf(ms[0].body)] else []) + InfosOf(ms[1..])
  }

  /** What the listener is to announce: the Ethernet interfaces among them, named or not. */
  function EventsOf(ms: seq<Message>): seq<NlkEventInfo>
    requires WellFormed(ms)
  {
    if ms == [] then []
    else
      (if ms[0].body.Link? && ms[0].body.ifType == WIRE_ETHER then [InfoOf(ms[0].body)] else []) + EventsOf(ms[1..])
  }

  /** s is found in b at offset p. */
  predicate Holds(b: seq<Byte>, p: nat, s: seq<Byte>) {
    p + |s| <= |b| && b[p..p + |s|] == s
  }

  lemma HoldsParts(b: seq<Byte>, p: nat, s: seq<Byte>, t: seq<Byte>)
    requires Holds(b, p, s + t)
    ensures Holds(b, p, s) && Holds(b, p + |s|, t)
  {
    assert b[p..p + |s|] == (s + t)[..|s|] == s;
    assert b[p + |s|..p + |s| + |t|] == (s + t)[|s|..] == t;
  }

  lemma HoldsFields(b: seq<Byte>, p: nat, s0: seq<Byte>, s1: seq<Byte>, s2: seq<Byte>, s3: seq<Byte>, s4: seq<Byte>,
                    s5: seq<Byte>)
    requires Holds(b, p, s0 + (s1 + (s2 + (s3 + (s4 + s5)))))
    ensures Holds(b, p, s0)
    ensures Holds(b, p + |s0|, s1)
    ensures Holds(b, p + |s0| + |s1|, s2)
    ensures Holds(b, p + |s0| + |s1| + |s2|, s3)
    ensures Holds(b, p + |s0| + |s1| + |s2| + |s3|, s4)
    ensures Holds(b, p + |s0| + |s1| + |s2| + |s3| + |s4|, s5)
  {
    HoldsParts(b, p, s0, s1 + (s2 + (s3 + (s4 + s5))));
    HoldsParts(b, p + |s0|, s1, s2 + (s3 + (s4 + s5)));
    HoldsParts(b, p + |s0| + |s1|, s2, s3 + (s4 + s5));
    HoldsParts(b, p + |s0| + |s1| + |s2|, s3, s4 + s5);
    HoldsParts(b, p + |s0| + |s1| + |s2| + |s3|, s4, s5);
  }

  lemma Read16(b: seq<Byte>, p: nat, v: UInt16)
    requires Holds(b, p, Bytes16(v))
    ensures U16At(b, p) == v
  {
    var s := b[p..p + 2];
    assert b[p] == s[0] && b[p + 1] == s[1];
  }

  lemma Read32(b: seq<Byte>, p: nat, v: UInt32)
    requires Holds(b, p, Bytes32(v))
    ensures U32At(b, p) == v
  {
    var s := b[p..p + 4];
    assert b[p] == s[0] && b[p + 1] == s[1] && b[p + 2] == s[2] && b[p + 3] == s[3];
    JoinBytes32(v);
  }

  lemma {:induction false} ReadString(b: seq<Byte>, p: nat, s: seq<Byte>)
    requires Holds(b, p, s) && 0 in s
    ensures CString(b, p) == UpToNul(s)
    decreases s
  {
    assert b[p] == b[p..p + |s|][0];
    if s[0] != 0 {
      assert [s[0]] + s[1..] == s;
      HoldsParts(b, p, [s[0]], s[1..]);
      ReadString(b, p + 1, s[1..]);
    }
  }

  /** A header of aligned size, a body of n bytes and its padding are what the parser steps over. */
  lemma PadLengthAligns(header: nat, n: nat)
    requires header % 4 == 0 && header + n < 0x8000_0000
    ensures Align4(header + n) == header + n + PadLength(n)
  {
  }

  lemma AttributeFields(b: seq<Byte>, p: nat, a: Attribute)
    requires WellFormedAttribute(a) && Holds(b, p, EncodeAttribute(a))
    ensures Holds(b, p, Bytes16(|a.payload| + RTA_HDRLEN)) && Holds(b, p + 2, Bytes16(a.attrType))
    ensures Holds(b, p + RTA_HDRLEN, a.payload)
    ensures |EncodeAttribute(a)| == RTA_HDRLEN + |a.payload| + |a.pad|
  {
    var len, typ := Bytes16(|a.payload| + RTA_HDRLEN), Bytes16(a.attrType);
    HoldsParts(b, p, len, typ + (a.payload + a.pad));
    HoldsParts(b, p + 2, typ, a.payload + a.pad);
    HoldsParts(b, p + 4, a.payload, a.pad);
  }

  lemma ReadAttribute(b: seq<Byte>, p: nat, a: Attribute)
    requires WellFormedAttribute(a) && Holds(b, p, EncodeAttribute(a))
    ensures U16At(b, p) == |a.payload| + RTA_HDRLEN && U16At(b, p + 2) == a.attrType
    ensures a.attrType == IFLA_IFNAME ==> CString(b, p + RTA_HDRLEN) == UpToNul(a.payload)
    ensures Align4(|a.payload| + RTA_HDRLEN) == |EncodeAttribute(a)|
  {
    AttributeFields(b, p, a);
    Read16(b, p, |a.payload| + RTA_HDRLEN);
    Read16(b, p + 2, a.attrType);
    PadLengthAligns(RTA_HDRLEN, |a.payload|);
    if a.attrType == IFLA_IFNAME {
      ReadString(b, p + 4, a.payload);
    }
  }

  /** The last interface name among the attributes at `offsets` is the last name of the list. */
  predicate NameFound(b: seq<Byte>, offsets: seq<nat>, attrs: seq<Attribute>)
    requires WellFormedAttributes(attrs)
  {
    var found := LastOfType(b, offsets, IFLA_IFNAME);
    && (found.Some? <==> LastName(attrs).Some?)
    && (found.Some? ==> CString(b, found.value + RTA_HDRLEN) == LastName(attrs).value)
  }

  /** The attribute walk over an encoded list finds the last interface name of the list. */
  lemma {:induction false} ReadAttributes(b: seq<Byte>, p: nat, attrs: seq<Attribute>, len: Int32)
    requires WellFormedAttributes(attrs) && Holds(b, p, EncodeAttributes(attrs)) && len == |EncodeAttributes(attrs)|
    ensures NameFound(b, AttributeOffsets(b, p, len), attrs)
    decreases attrs
  {
    if attrs != [] {
      var a, rest := attrs[0], attrs[1..];
      HoldsParts(b, p, EncodeAttribute(a), EncodeAttributes(rest));
      ReadAttribute(b, p, a);
      AttributeStep(b, p, len);
      ReadAttributes(b, RtaNext(b, p), rest, RtaRest(b, p, len));
      assert AttributeOffsets(b, p, len)[1..] == AttributeOffsets(b, RtaNext(b, p), RtaRest(b, p, len));
    }
  }

  lemma ReadLinkFields(b: seq<Byte>, p: nat, body: Body)
    requires WellFormedBody(body) && body.Link? && Holds(b, p, EncodeBody(body))
    ensures U16At(b, p + 2) == body.ifType
    ensures U32At(b, p + 8) == body.flags
    ensures Holds(b, p + 16, EncodeAttributes(body.attrs))
    ensures |EncodeBody(body)| == 16 + |EncodeAttributes(body.attrs)|
  {
    HoldsFields(b, p, [body.family, body.reserved], Bytes16(body.ifType), Bytes32(body.index), Bytes32(body.flags),
                Bytes32(body.change), EncodeAttributes(body.attrs));
    Read16(b, p + 2, body.ifType);
    Read32(b, p + 8, body.flags);
  }

  lemma ReadLinkAttributes(b: seq<Byte>, nh: nat, attrs: seq<Attribute>)
    requires WellFormedAttributes(attrs) && Holds(b, nh + 32, EncodeAttributes(attrs))
    requires U32At(b, nh) == 32 + |EncodeAttributes(attrs)| < 0x8000_0000
    ensures NameFound(b, LinkAttributes(b, nh), attrs)
  {
    var len := |EncodeAttributes(attrs)|;
    assert LinkAttributeLength(b, nh) == len;
    ReadAttributes(b, nh + 32, attrs, len);
  }

  lemma ReadLinkBody(b: seq<Byte>, nh: nat, body: Body)
    requires WellFormedBody(body) && body.Link? && Holds(b, nh + NLMSG_HDRLEN, EncodeBody(body))
    requires U32At(b, nh) == NLMSG_HDRLEN + |EncodeBody(body)| < 0x8000_0000
    ensures LinkInfo(b, nh) == InfoOf(body)
  {
    assert IsEthernet(b, nh) <==> body.ifType == ARPHRD_ETHER by {
      ReadLinkFields(b, nh + NLMSG_HDRLEN, body);
    }
    assert LinkFlags(b, nh) == body.flags by {
      ReadLinkFields(b, nh + NLMSG_HDRLEN, body);
    }
    assert Holds(b, nh + 32, EncodeAttributes(body.attrs)) && U32At(b, nh) == 32 + |EncodeAttributes(body.attrs)| by {
      ReadLinkFields(b, nh + NLMSG_HDRLEN, body);
    }
    ReadLinkAttributes(b, nh, body.attrs);
  }

  lemma ReadHeader(b: seq<Byte>, nh: nat, m: Message)
    requires WellFormedMessage(m) && Holds(b, nh, EncodeMessage(m))
    ensures U32At(b, nh) == NLMSG_HDRLEN + |EncodeBody(m.body)|
    ensures U16At(b, nh + 4) == m.msgType
    ensures Holds(b, nh + NLMSG_HDRLEN, EncodeBody(m.body))
    ensures |EncodeMessage(m)| == NLMSG_HDRLEN + |EncodeBody(m.body)| + |m.pad|
  {
    var body, len := EncodeBody(m.body), NLMSG_HDRLEN + |EncodeBody(m.body)|;
    HoldsFields(b, nh, Bytes32(len), Bytes16(m.msgType), Bytes16(m.msgFlags), Bytes32(m.seqNo), Bytes32(m.pid),
                body + m.pad);
    HoldsParts(b, nh + 16, body, m.pad);
    Read32(b, nh, len);
    Read16(b, nh + 4, m.msgType);
  }

  lemma ReadMessage(b: seq<Byte>, nh: nat, m: Message)
    requires WellFormedMessage(m) && Holds(b, nh, EncodeMessage(m))
    ensures NLMSG_HDRLEN <= U32At(b, nh) <= |EncodeMessage(m)|
    ensures Align4(U32At(b, nh)) == |EncodeMessage(m)|
    ensures IsLinkMessage(b, nh) <==> m.body.Link?
    ensures m.body.Link? ==> LinkInfo(b, nh) == InfoOf(m.body)
    ensures m.body.Link? ==> (IsEthernet(b, nh) <==> m.body.ifType == WIRE_ETHER)
  {
    ReadHeader(b, nh, m);
    PadLengthAligns(NLMSG_HDRLEN, |EncodeBody(m.body)|);
    if m.body.Link? {
      ReadLinkBody(b, nh, m.body);
      assert IsEthernet(b, nh) <==> m.body.ifType == WIRE_ETHER by {
        ReadLinkFields(b, nh + NLMSG_HDRLEN, m.body);
      }
    }
  }

  /** One step of the message walk over encoded messages. */
  lemma StepOverMessage(b: seq<Byte>, nh: nat, m: Message, len: Int32)
    requires WellFormedMessage(m) && Holds(b, nh, EncodeMessage(m)) && |EncodeMessage(m)| <= len
    ensures NlmsgOk(b, nh, len)
    ensures NlmsgNext(b, nh) == nh + |EncodeMessage(m)|
    ensures NlmsgRest(b, nh, len) == len - |EncodeMessage(m)|
  {
    ReadMessage(b, nh, m);
  }

  lemma CollectedOfFirst(b: seq<Byte>, m: nat, msgs: seq<nat>)
    ensures CollectedInfos(b, [m] + msgs)
         == (if IsLinkMessage(b, m) then [LinkInfo(b, m)] else []) + CollectedInfos(b, msgs)
  {
    assert ([m] + msgs)[1..] == msgs;
  }

  lemma AnnouncedOfFirst(b: seq<Byte>, m: nat, msgs: seq<nat>)
    ensures AnnouncedEvents(b, [m] + msgs)
         == (if IsLinkMessage(b, m) && IsEthernet(b, m) then [LinkInfo(b, m)] else []) + AnnouncedEvents(b, msgs)
  {
    assert ([m] + msgs)[1..] == msgs;
  }

  lemma {:induction false} ReadMessages(b: seq<Byte>, nh: nat, ms: seq<Message>, len: Int32)
    requires WellFormed(ms) && Holds(b, nh, Encode(ms)) && len == |Encode(ms)|
    ensures CollectedInfos(b, MessageOffsets(b, nh, len)) == InfosOf(ms)
    ensures AnnouncedEvents(b, MessageOffsets(b, nh, len)) == EventsOf(ms)
    decreases ms
  {
    if ms != [] {
      var m, rest := ms[0], ms[1..];
      HoldsParts(b, nh, EncodeMessage(m), Encode(rest));
      ReadMessage(b, nh, m);
      StepOverMessage(b, nh, m, len);
      FirstOfWalk(b, nh, len);
      ReadMessages(b, NlmsgNext(b, nh), rest, NlmsgRest(b, nh, len));
      CollectedOfFirst(b, nh, MessageOffsets(b, NlmsgNext(b, nh), NlmsgRest(b, nh, len)));
      AnnouncedOfFirst(b, nh, MessageOffsets(b, NlmsgNext(b, nh), NlmsgRest(b, nh, len)));
    }
  }

  /**
   The parser inverts the serialiser: for every list of well-formed messages, whatever follows them in
   the buffer, the dump reader collects exactly what the messages say, in order; and the listener announces
   exactly what they say of Ethernet interfaces, in order, which agrees on every named interface.
   */
  lemma ParserInvertsSerialiser(ms: seq<Message>, tail: seq<Byte>)
    requires WellFormed(ms) && |Encode(ms)| < 0x8000_0000
    ensures var msgs := MessageOffsets(Encode(ms) + tail, 0, |Encode(ms)|);
      && CollectedInfos(Encode(ms) + tail, msgs) == InfosOf(ms)
      && AnnouncedEvents(Encode(ms) + tail, msgs) == EventsOf(ms)
      && Named(AnnouncedEvents(Encode(ms) + tail, msgs)) == Named(InfosOf(ms))
  {
    ReadMessages(Encode(ms) + tail, 0, ms, |Encode(ms)|);
    PathsAgree(Encode(ms) + tail, MessageOffsets(Encode(ms) + tail, 0, |Encode(ms)|));
  }
}
