/**
 What stunEncodeMessage writes, and what stunParseMessage reads back from it.
 */
module StunRoundTrip {
  import opened Blocks
  import Hmac
  import opened StunFormat

  // ----- the encoder -----

  function AddressBytes(a: Address): (v: Value)
    ensures |v| == 8
  {
    [a.pad, IPV4_FAMILY] + E16(a.port) + E32(a.addr)
  }

  function ErrorBytes(e: Error): (v: Value)
    requires |e.reason| <= STUN_MAX_STRING
    ensures |v| == 4 + |e.reason|
  {
    E16(e.pad) + [e.errorClass, e.number] + e.reason
  }

  function AddressTlv(typ: u16, a: Option<Address>): seq<Tlv> {
    if a.None? then [] else [Tlv(typ, AddressBytes(a.value))]
  }

  function StringTlv(typ: u16, s: Option<seq<byte>>): seq<Tlv>
    requires StringFits(s)
  {
    if s.None? then [] else [Tlv(typ, s.value)]
  }

  /** The sizes that the structures hold; a string whose size is no multiple of 4 fails an assertion of the encoder. */
  predicate StringFits(s: Option<seq<byte>>) {
    s.Some? ==> |s.value| <= STUN_MAX_STRING && |s.value| % 4 == 0
  }

  predicate Encodable(m: Message) {
    && |m.id| == 16
    && StringFits(m.username) && StringFits(m.password) && StringFits(m.serverName) && StringFits(m.connectionRequestBinding)
    && (m.errorCode.Some? ==> |m.errorCode.value.reason| <= STUN_MAX_STRING)
    && (m.unknownAttributes.Some? ==> |m.unknownAttributes.value| <= STUN_MAX_UNKNOWN_ATTRIBUTES)
  }

  /** The attributes written before UNKNOWN-ATTRIBUTES. */
  function HeadTlvs(m: Message): seq<Tlv>
    requires Encodable(m)
  {
    AddressTlv(MAPPED_ADDRESS, m.mappedAddress)
    + AddressTlv(RESPONSE_ADDRESS, m.responseAddress)
    + (if m.changeRequest.None? then [] else [Tlv(CHANGE_REQUEST, E32(m.changeRequest.value))])
    + AddressTlv(SOURCE_ADDRESS, m.sourceAddress)
    + AddressTlv(CHANGED_ADDRESS, m.changedAddress)
    + StringTlv(USERNAME, m.username)
    + StringTlv(PASSWORD, m.password)
    + (if m.errorCode.None? then [] else [Tlv(ERROR_CODE, ErrorBytes(m.errorCode.value))])
  }

  /** The attributes written before XOR-ONLY. */
  function MidTlvs(m: Message): seq<Tlv> {
    AddressTlv(REFLECTED_FROM, m.reflectedFrom) + AddressTlv(XOR_MAPPED_ADDRESS, m.xorMappedAddress)
  }

  function TailTlvs(m: Message): seq<Tlv>
    requires Encodable(m)
  {
    StringTlv(SERVER_NAME, m.serverName)
    + AddressTlv(SECONDARY_ADDRESS, m.secondaryAddress)
    + StringTlv(CONNECTION_REQUEST_BINDING, m.connectionRequestBinding)
    + (if m.bindingChange then [Tlv(BINDING_CHANGE, [])] else [])
  }

  function TypesBytes(types: seq<u16>): (s: seq<byte>)
    ensures |s| == 2 * |types|
  {
    if types == [] then [] else E16(types[0]) + TypesBytes(types[1..])
  }

  /** The length written is 2 more than that of the list that follows. */
  function UnknownBytes(u: Option<seq<u16>>): seq<byte>
    requires u.Some? ==> |u.value| <= STUN_MAX_UNKNOWN_ATTRIBUTES
  {
    if u.None? then [] else E16(UNKNOWN_ATTRIBUTE) + E16(2 + 2 * |u.value|) + TypesBytes(u.value)
  }

  /** Only the type is written, no length. */
  function XorOnlyBytes(xorOnly: bool): seq<byte> {
    if xorOnly then E16(XOR_ONLY) else []
  }

  function BodyBytes(m: Message): seq<byte>
    requires Encodable(m)
  {
    Join(HeadTlvs(m)) + UnknownBytes(m.unknownAttributes) + Join(MidTlvs(m)) + XorOnlyBytes(m.xorOnly) + Join(TailTlvs(m))
  }

  const INTEGRITY: nat := 24

  lemma OneLength(t: Tlv)
    ensures |Join([t])| == 4 + |t.value|
  {
    assert Join([t]) == Bytes(t) + Join([]);
  }

  lemma AddressLength(typ: u16, a: Option<Address>)
    ensures |Join(AddressTlv(typ, a))| <= 12
  {
    if a.Some? {
      OneLength(Tlv(typ, AddressBytes(a.value)));
    }
  }

  lemma StringLength(typ: u16, s: Option<seq<byte>>)
    requires StringFits(s)
    ensures |Join(StringTlv(typ, s))| <= 260
  {
    if s.Some? {
      OneLength(Tlv(typ, s.value));
    }
  }

  lemma HeadLength(m: Message)
    requires Encodable(m)
    ensures |Join(HeadTlvs(m))| <= 840
  {
    hide Join, AddressTlv, StringTlv, Bytes, ErrorBytes, E32;
    var p1, p2, p4, p5 := AddressTlv(MAPPED_ADDRESS, m.mappedAddress), AddressTlv(RESPONSE_ADDRESS, m.responseAddress),
                          AddressTlv(SOURCE_ADDRESS, m.sourceAddress), AddressTlv(CHANGED_ADDRESS, m.changedAddress);
    var p6, p7 := StringTlv(USERNAME, m.username), StringTlv(PASSWORD, m.password);
    var p3 := if m.changeRequest.None? then [] else [Tlv(CHANGE_REQUEST, E32(m.changeRequest.value))];
    var p8 := if m.errorCode.None? then [] else [Tlv(ERROR_CODE, ErrorBytes(m.errorCode.value))];
    AddressLength(MAPPED_ADDRESS, m.mappedAddress);
    AddressLength(RESPONSE_ADDRESS, m.responseAddress);
    AddressLength(SOURCE_ADDRESS, m.sourceAddress);
    AddressLength(CHANGED_ADDRESS, m.changedAddress);
    StringLength(USERNAME, m.username);
    StringLength(PASSWORD, m.password);
    NoLength();
    if p3 != [] {
      OneLength(p3[0]);
    }
    if p8 != [] {
      OneLength(p8[0]);
    }
    JoinConcat(p1, p2);
    JoinConcat(p1 + p2, p3);
    JoinConcat(p1 + p2 + p3, p4);
    JoinConcat(p1 + p2 + p3 + p4, p5);
    JoinConcat(p1 + p2 + p3 + p4 + p5, p6);
    JoinConcat(p1 + p2 + p3 + p4 + p5 + p6, p7);
    JoinConcat(p1 + p2 + p3 + p4 + p5 + p6 + p7, p8);
  }

  lemma NoLength()
    ensures Join([]) == []
  {
  }

  lemma MidLength(m: Message)
    ensures |Join(MidTlvs(m))| <= 24
  {
    hide Join, AddressTlv;
    AddressLength(REFLECTED_FROM, m.reflectedFrom);
    AddressLength(XOR_MAPPED_ADDRESS, m.xorMappedAddress);
    JoinConcat(AddressTlv(REFLECTED_FROM, m.reflectedFrom), AddressTlv(XOR_MAPPED_ADDRESS, m.xorMappedAddress));
  }

  lemma TailLength(m: Message)
    requires Encodable(m)
    ensures |Join(TailTlvs(m))| <= 536
  {
    hide Join, AddressTlv, StringTlv;
    var p1, p2, p3 := StringTlv(SERVER_NAME, m.serverName), AddressTlv(SECONDARY_ADDRESS, m.secondaryAddress),
                      StringTlv(CONNECTION_REQUEST_BINDING, m.connectionRequestBinding);
    var p4: seq<Tlv> := if m.bindingChange then [Tlv(BINDING_CHANGE, [])] else [];
    StringLength(SERVER_NAME, m.serverName);
    AddressLength(SECONDARY_ADDRESS, m.secondaryAddress);
    StringLength(CONNECTION_REQUEST_BINDING, m.connectionRequestBinding);
    NoLength();
    OneLength(Tlv(BINDING_CHANGE, []));
    JoinConcat(p1, p2);
    JoinConcat(p1 + p2, p3);
    JoinConcat(p1 + p2 + p3, p4);
  }

  /** With header and integrity every message fits in the buffer that callers pass. */
  lemma BodyFits(m: Message)
    requires Encodable(m)
    ensures HEADER + |BodyBytes(m)| + INTEGRITY <= 1466 < STUN_MAX_MESSAGE_SIZE
  {
    hide Join, HeadTlvs, MidTlvs, TailTlvs;
    HeadLength(m);
    MidLength(m);
    TailLength(m);
  }

  /** The length written into the header, with that of the integrity when there is a password. */
  function BodyLength(m: Message, password: seq<byte>): u16
    requires Encodable(m)
  {
    BodyFits(m);
    |BodyBytes(m)| + if password == [] then 0 else INTEGRITY
  }

  /** All bytes before the integrity, with the final length: what is signed. */
  function Signed(m: Message, password: seq<byte>): (s: seq<byte>)
    requires Encodable(m)
    ensures |s| == HEADER + |BodyBytes(m)|
  {
    Header(m.msgType, BodyLength(m, password), m.id) + BodyBytes(m)
  }

  /** stunEncodeMessage. */
  function Encode(m: Message, password: seq<byte>): (buf: seq<byte>)
    requires Encodable(m)
    ensures |buf| == HEADER + BodyLength(m, password)
    ensures |buf| <= STUN_MAX_MESSAGE_SIZE
  {
    BodyFits(m);
    Signed(m, password) + Join(IntegrityTlv(m, password))
  }

  function IntegrityTlv(m: Message, password: seq<byte>): (ts: seq<Tlv>)
    requires Encodable(m)
    ensures |Join(ts)| == if password == [] then 0 else INTEGRITY
  {
    if password == [] then []
    else
      var t := Tlv(MESSAGE_INTEGRITY, Hmac.Hmac(password, Signed(m, password)));
      OneLength(t);
      [t]
  }

  // ----- the round trip -----

  function IPv4(a: Option<Address>): Option<Address> {
    if a.None? then None else Some(a.value.(family := IPV4_FAMILY))
  }

  /**
   What is read back: the header with the true length, every address as IPv4, the
   connection-request binding without its text, and the integrity that was written.
   */
  function Expected(m: Message, password: seq<byte>): Message
    requires Encodable(m)
  {
    Message(m.msgType, BodyLength(m, password), m.id, IPv4(m.mappedAddress), IPv4(m.responseAddress), m.changeRequest,
            IPv4(m.sourceAddress), IPv4(m.changedAddress), m.username, m.password,
            if password == [] then None else Some(Hmac.Hmac(password, Signed(m, password))),
            m.errorCode, m.unknownAttributes, IPv4(m.reflectedFrom), IPv4(m.xorMappedAddress), m.xorOnly, m.serverName,
            if m.connectionRequestBinding.None? then None else Some([]), m.bindingChange, IPv4(m.secondaryAddress))
  }

  /** The strings that the parser accepts are shorter than the longest that fits; reasons need not be. */
  predicate StringReadable(s: Option<seq<byte>>) {
    s.Some? ==> |s.value| < STUN_MAX_STRING
  }

  predicate Readable(m: Message) {
    && StringReadable(m.username) && StringReadable(m.password) && StringReadable(m.serverName)
  }

  lemma AddressReadBack(a: Address)
    ensures ParseAddress(AddressBytes(a)) == Some(a.(family := IPV4_FAMILY))
  {
    hide E16, E32, D16, D32;
    var v := AddressBytes(a);
    assert v[2..4] == E16(a.port) && v[4..8] == E32(a.addr);
    Decode16(a.port);
    Decode32(a.addr);
  }

  lemma ErrorReadBack(e: Error)
    requires |e.reason| <= STUN_MAX_STRING
    ensures ParseError(ErrorBytes(e)) == Parsed(e)
  {
    hide E16, D16;
    var v := ErrorBytes(e);
    assert v[0..2] == E16(e.pad) && v[4..] == e.reason;
    Decode16(e.pad);
  }

  /** The other way round: an address or an error that was read is written as the bytes it was read from. */
  lemma AddressWrittenBack(v: seq<byte>)
    ensures ParseAddress(v).Some? ==> AddressBytes(ParseAddress(v).value) == v
  {
    hide E16, E32, D16, D32;
    if ParseAddress(v).Some? {
      Encode16(v[2..4]);
      Encode32(v[4..8]);
      assert v == [v[0], v[1]] + v[2..4] + v[4..8];
    }
  }

  lemma Encode32(s: seq<byte>)
    requires |s| == 4
    ensures E32(D32(s)) == s
  {
    hide E16, D16;
    Encode16(s[0..2]);
    Encode16(s[2..4]);
    assert s == s[0..2] + s[2..4];
  }

  lemma ErrorWrittenBack(v: seq<byte>)
    ensures ParseError(v).Parsed? ==> ErrorBytes(ParseError(v).value) == v
  {
    hide E16, D16;
    if ParseError(v).Parsed? {
      Encode16(v[0..2]);
      assert v == v[0..2] + [v[2], v[3]] + v[4..];
    }
  }

  lemma ApplyOne(m: Message, t: Tlv)
    ensures ApplyAll(m, [t]) == Apply(m, t.typ, t.value)
  {
    hide Apply;
    var r := Apply(m, t.typ, t.value);
    if r.Parsed? {
      assert [t][1..] == [];
    }
  }

  lemma Chain(m0: Message, a: seq<Tlv>, m1: Message, b: seq<Tlv>, r: Outcome<Message>)
    requires ApplyAll(m0, a) == Parsed(m1) && ApplyAll(m1, b) == r
    ensures ApplyAll(m0, a + b) == r
  {
    hide Apply, ApplyAll;
    ApplyConcat(m0, a, b);
  }

  /** An address attribute sets its field; one that is absent leaves it. */
  lemma AddressApplied(m: Message, typ: u16, a: Option<Address>)
    requires typ in {MAPPED_ADDRESS, RESPONSE_ADDRESS, SOURCE_ADDRESS, CHANGED_ADDRESS, REFLECTED_FROM, XOR_MAPPED_ADDRESS, SECONDARY_ADDRESS}
    requires AddressField(m, typ) == None
    ensures ApplyAll(m, AddressTlv(typ, a)) == Parsed(SetAddress(m, typ, IPv4(a)))
  {
    hide AddressBytes, ParseAddress, ApplyAll, ParseChangeRequest, ParseError, ParseUnknown, ParseString, ParseIntegrity;
    if a.Some? {
      AddressReadBack(a.value);
      ApplyOne(m, Tlv(typ, AddressBytes(a.value)));
    } else {
      ApplyNone(m);
    }
  }

  lemma ApplyNone(m: Message)
    ensures ApplyAll(m, []) == Parsed(m)
  {
  }

  function AddressField(m: Message, typ: u16): Option<Address> {
    if typ == MAPPED_ADDRESS then m.mappedAddress
    else if typ == RESPONSE_ADDRESS then m.responseAddress
    else if typ == SOURCE_ADDRESS then m.sourceAddress
    else if typ == CHANGED_ADDRESS then m.changedAddress
    else if typ == REFLECTED_FROM then m.reflectedFrom
    else if typ == XOR_MAPPED_ADDRESS then m.xorMappedAddress
    else m.secondaryAddress
  }

  function SetAddress(m: Message, typ: u16, a: Option<Address>): Message {
    if typ == MAPPED_ADDRESS then m.(mappedAddress := a)
    else if typ == RESPONSE_ADDRESS then m.(responseAddress := a)
    else if typ == SOURCE_ADDRESS then m.(sourceAddress := a)
    else if typ == CHANGED_ADDRESS then m.(changedAddress := a)
    else if typ == REFLECTED_FROM then m.(reflectedFrom := a)
    else if typ == XOR_MAPPED_ADDRESS then m.(xorMappedAddress := a)
    else m.(secondaryAddress := a)
  }

  lemma StringApplied(m: Message, typ: u16, s: Option<seq<byte>>)
    requires typ in {USERNAME, PASSWORD, SERVER_NAME} && StringFits(s) && StringReadable(s)
    requires (typ == USERNAME ==> m.username == None) && (typ == PASSWORD ==> m.password == None)
    requires typ == SERVER_NAME ==> m.serverName == None
    ensures ApplyAll(m, StringTlv(typ, s)) ==
            Parsed(if typ == USERNAME then m.(username := s) else if typ == PASSWORD then m.(password := s) else m.(serverName := s))
  {
    hide ApplyAll;
    if s.Some? {
      ApplyOne(m, Tlv(typ, s.value));
    } else {
      ApplyNone(m);
    }
  }

  lemma ChangeApplied(m: Message, c: Option<u32>)
    requires m.changeRequest == None
    ensures ApplyAll(m, if c.None? then [] else [Tlv(CHANGE_REQUEST, E32(c.value))]) == Parsed(m.(changeRequest := c))
  {
    hide ApplyAll, E32, D32;
    if c.Some? {
      Decode32(c.value);
      ApplyOne(m, Tlv(CHANGE_REQUEST, E32(c.value)));
    } else {
      ApplyNone(m);
    }
  }

  lemma ErrorApplied(m: Message, e: Option<Error>)
    requires m.errorCode == None && (e.Some? ==> |e.value.reason| <= STUN_MAX_STRING)
    ensures ApplyAll(m, if e.None? then [] else [Tlv(ERROR_CODE, ErrorBytes(e.value))]) == Parsed(m.(errorCode := e))
  {
    hide ApplyAll, ErrorBytes, ParseError;
    if e.Some? {
      ErrorReadBack(e.value);
      ApplyOne(m, Tlv(ERROR_CODE, ErrorBytes(e.value)));
    } else {
      ApplyNone(m);
    }
  }

  /** What is known after the first group of attributes. */
  function AfterHead(b: Message, m: Message): Message {
    b.(mappedAddress := IPv4(m.mappedAddress), responseAddress := IPv4(m.responseAddress), changeRequest := m.changeRequest,
       sourceAddress := IPv4(m.sourceAddress), changedAddress := IPv4(m.changedAddress), username := m.username,
       password := m.password, errorCode := m.errorCode)
  }

  lemma HeadApplied(b: Message, m: Message)
    requires Encodable(m) && Readable(m) && b == Blank(b.msgType, b.msgLength, b.id)
    ensures ApplyAll(b, HeadTlvs(m)) == Parsed(AfterHead(b, m))
  {
    hide ApplyAll, AddressTlv, StringTlv, E32, ErrorBytes, IPv4;
    var p1, p2, p4, p5 := AddressTlv(MAPPED_ADDRESS, m.mappedAddress), AddressTlv(RESPONSE_ADDRESS, m.responseAddress),
                          AddressTlv(SOURCE_ADDRESS, m.sourceAddress), AddressTlv(CHANGED_ADDRESS, m.changedAddress);
    var p6, p7 := StringTlv(USERNAME, m.username), StringTlv(PASSWORD, m.password);
    var p3 := if m.changeRequest.None? then [] else [Tlv(CHANGE_REQUEST, E32(m.changeRequest.value))];
    var p8 := if m.errorCode.None? then [] else [Tlv(ERROR_CODE, ErrorBytes(m.errorCode.value))];
    var m1 := b.(mappedAddress := IPv4(m.mappedAddress));
    var m2 := m1.(responseAddress := IPv4(m.responseAddress));
    var m3 := m2.(changeRequest := m.changeRequest);
    var m4 := m3.(sourceAddress := IPv4(m.sourceAddress));
    var m5 := m4.(changedAddress := IPv4(m.changedAddress));
    var m6 := m5.(username := m.username);
    var m7 := m6.(password := m.password);
    AddressApplied(b, MAPPED_ADDRESS, m.mappedAddress);
    AddressApplied(m1, RESPONSE_ADDRESS, m.responseAddress);
    Chain(b, p1, m1, p2, Parsed(m2));
    ChangeApplied(m2, m.changeRequest);
    Chain(b, p1 + p2, m2, p3, Parsed(m3));
    AddressApplied(m3, SOURCE_ADDRESS, m.sourceAddress);
    Chain(b, p1 + p2 + p3, m3, p4, Parsed(m4));
    AddressApplied(m4, CHANGED_ADDRESS, m.changedAddress);
    Chain(b, p1 + p2 + p3 + p4, m4, p5, Parsed(m5));
    StringApplied(m5, USERNAME, m.username);
    Chain(b, p1 + p2 + p3 + p4 + p5, m5, p6, Parsed(m6));
    StringApplied(m6, PASSWORD, m.password);
    Chain(b, p1 + p2 + p3 + p4 + p5 + p6, m6, p7, Parsed(m7));
    ErrorApplied(m7, m.errorCode);
    Chain(b, p1 + p2 + p3 + p4 + p5 + p6 + p7, m7, p8, Parsed(AfterHead(b, m)));
  }

  function AfterMid(b: Message, m: Message): Message {
    b.(reflectedFrom := IPv4(m.reflectedFrom), xorMappedAddress := IPv4(m.xorMappedAddress))
  }

  lemma MidApplied(b: Message, m: Message)
    requires b.reflectedFrom == None && b.xorMappedAddress == None
    ensures ApplyAll(b, MidTlvs(m)) == Parsed(AfterMid(b, m))
  {
    hide ApplyAll, AddressTlv, IPv4;
    var m1 := b.(reflectedFrom := IPv4(m.reflectedFrom));
    AddressApplied(b, REFLECTED_FROM, m.reflectedFrom);
    AddressApplied(m1, XOR_MAPPED_ADDRESS, m.xorMappedAddress);
    Chain(b, AddressTlv(REFLECTED_FROM, m.reflectedFrom), m1, AddressTlv(XOR_MAPPED_ADDRESS, m.xorMappedAddress),
          Parsed(AfterMid(b, m)));
  }

  function AfterTail(b: Message, m: Message): Message {
    b.(serverName := m.serverName, secondaryAddress := IPv4(m.secondaryAddress),
       connectionRequestBinding := if m.connectionRequestBinding.None? then None else Some([]),
       bindingChange := m.bindingChange)
  }

  lemma TailApplied(b: Message, m: Message)
    requires Encodable(m) && Readable(m)
    requires b.serverName == None && b.secondaryAddress == None && b.connectionRequestBinding == None && !b.bindingChange
    ensures ApplyAll(b, TailTlvs(m)) == Parsed(AfterTail(b, m))
  {
    hide ApplyAll, AddressTlv, IPv4;
    var p1, p2, p3 := StringTlv(SERVER_NAME, m.serverName), AddressTlv(SECONDARY_ADDRESS, m.secondaryAddress),
                      StringTlv(CONNECTION_REQUEST_BINDING, m.connectionRequestBinding);
    var p4: seq<Tlv> := if m.bindingChange then [Tlv(BINDING_CHANGE, [])] else [];
    var m1 := b.(serverName := m.serverName);
    var m2 := m1.(secondaryAddress := IPv4(m.secondaryAddress));
    var m3 := m2.(connectionRequestBinding := if m.connectionRequestBinding.None? then None else Some([]));
    StringApplied(b, SERVER_NAME, m.serverName);
    AddressApplied(m1, SECONDARY_ADDRESS, m.secondaryAddress);
    Chain(b, p1, m1, p2, Parsed(m2));
    BindingApplied(m2, m.connectionRequestBinding);
    Chain(b, p1 + p2, m2, p3, Parsed(m3));
    ApplyNone(m3);
    ApplyOne(m3, Tlv(BINDING_CHANGE, []));
    Chain(b, p1 + p2 + p3, m3, p4, Parsed(AfterTail(b, m)));
  }

  lemma BindingApplied(m: Message, s: Option<seq<byte>>)
    requires StringFits(s) && m.connectionRequestBinding == None
    ensures ApplyAll(m, StringTlv(CONNECTION_REQUEST_BINDING, s)) ==
            Parsed(m.(connectionRequestBinding := if s.None? then None else Some([])))
  {
    hide ApplyAll;
    if s.Some? {
      ApplyOne(m, Tlv(CONNECTION_REQUEST_BINDING, s.value));
    } else {
      ApplyNone(m);
    }
  }

  lemma IntegrityApplied(b: Message, m: Message, password: seq<byte>)
    requires Encodable(m) && b.messageIntegrity == None
    ensures ApplyAll(b, IntegrityTlv(m, password)) ==
            Parsed(b.(messageIntegrity := if password == [] then None else Some(Hmac.Hmac(password, Signed(m, password)))))
  {
    hide ApplyAll, Signed, Hmac.Hmac;
    if password == [] {
      ApplyNone(b);
    } else {
      ApplyOne(b, IntegrityTlv(m, password)[0]);
    }
  }

  /** All attributes of a message without UNKNOWN-ATTRIBUTES and XOR-ONLY. */
  function AllTlvs(m: Message, password: seq<byte>): seq<Tlv>
    requires Encodable(m)
  {
    HeadTlvs(m) + MidTlvs(m) + TailTlvs(m) + IntegrityTlv(m, password)
  }

  lemma AllApplied(b: Message, m: Message, password: seq<byte>)
    requires Encodable(m) && Readable(m) && !m.xorOnly && m.unknownAttributes == None
    requires b == Blank(m.msgType, BodyLength(m, password), m.id)
    ensures ApplyAll(b, AllTlvs(m, password)) == Parsed(Expected(m, password))
  {
    hide ApplyAll, HeadTlvs, MidTlvs, TailTlvs, IntegrityTlv, IPv4, Encodable, Readable, Signed, Hmac.Hmac, BodyLength;
    var m1 := AfterHead(b, m);
    var m2 := AfterMid(m1, m);
    var m3 := AfterTail(m2, m);
    HeadApplied(b, m);
    MidApplied(m1, m);
    Chain(b, HeadTlvs(m), m1, MidTlvs(m), Parsed(m2));
    TailApplied(m2, m);
    Chain(b, HeadTlvs(m) + MidTlvs(m), m2, TailTlvs(m), Parsed(m3));
    IntegrityApplied(m3, m, password);
    Chain(b, HeadTlvs(m) + MidTlvs(m) + TailTlvs(m), m3, IntegrityTlv(m, password), Parsed(Expected(m, password)));
  }

  /** Such a message is its header followed by its attributes. */
  lemma EncodeIsTiled(m: Message, password: seq<byte>)
    requires Encodable(m) && !m.xorOnly && m.unknownAttributes == None
    ensures BodyLength(m, password) == |Join(AllTlvs(m, password))|
    ensures Encode(m, password) == Header(m.msgType, BodyLength(m, password), m.id) + Join(AllTlvs(m, password))
  {
    hide Join, HeadTlvs, MidTlvs, TailTlvs, IntegrityTlv, Header, Hmac.Hmac;
    JoinConcat(HeadTlvs(m), MidTlvs(m));
    JoinConcat(HeadTlvs(m) + MidTlvs(m), TailTlvs(m));
    JoinConcat(HeadTlvs(m) + MidTlvs(m) + TailTlvs(m), IntegrityTlv(m, password));
    var h, i := Join(HeadTlvs(m)) + Join(MidTlvs(m)) + Join(TailTlvs(m)), Join(IntegrityTlv(m, password));
    assert BodyBytes(m) == h;
    Regroup(Header(m.msgType, BodyLength(m, password), m.id), h, i);
  }

  lemma Regroup(a: seq<byte>, b: seq<byte>, c: seq<byte>)
    ensures (a + b) + c == a + (b + c)
  {
  }

  /** Without UNKNOWN-ATTRIBUTES and XOR-ONLY the parser reads back what was written. */
  lemma ReadsBack(m: Message, password: seq<byte>)
    requires Encodable(m) && Readable(m) && !m.xorOnly && m.unknownAttributes == None
    ensures Parse(Encode(m, password)) == Parsed(Expected(m, password))
  {
    hide Encode, BodyLength, Expected, AllTlvs, Parse, ParseAttrs, Header, Join, Blank, ApplyAll;
    EncodableId(m);
    EncodeIsTiled(m, password);
    ParseWithHeader(m.msgType, m.id, Join(AllTlvs(m, password)));
    var b := Blank(m.msgType, BodyLength(m, password), m.id);
    ParseAll(AllTlvs(m, password), b);
    AllApplied(b, m, password);
  }

  lemma EncodableId(m: Message)
    requires Encodable(m)
    ensures |m.id| == 16
  {
  }

  // ----- when it does not -----

  /** Every copy of the parser stays inside the structure it is for. */
  predicate Defined(ts: seq<Tlv>) {
    forall t | t in ts :: t.typ == ERROR_CODE ==> 4 <= |t.value| <= STUN_MAX_STRING + 4
  }

  lemma DefinedConcat(a: seq<Tlv>, b: seq<Tlv>)
    requires Defined(a) && Defined(b)
    ensures Defined(a + b)
  {
  }

  lemma HeadDefined(m: Message)
    requires Encodable(m)
    ensures Defined(HeadTlvs(m))
  {
    hide AddressBytes, E32;
    var p1, p2, p4, p5 := AddressTlv(MAPPED_ADDRESS, m.mappedAddress), AddressTlv(RESPONSE_ADDRESS, m.responseAddress),
                          AddressTlv(SOURCE_ADDRESS, m.sourceAddress), AddressTlv(CHANGED_ADDRESS, m.changedAddress);
    var p6, p7 := StringTlv(USERNAME, m.username), StringTlv(PASSWORD, m.password);
    var p3 := if m.changeRequest.None? then [] else [Tlv(CHANGE_REQUEST, E32(m.changeRequest.value))];
    var p8 := if m.errorCode.None? then [] else [Tlv(ERROR_CODE, ErrorBytes(m.errorCode.value))];
    DefinedConcat(p1, p2);
    DefinedConcat(p1 + p2, p3);
    DefinedConcat(p1 + p2 + p3, p4);
    DefinedConcat(p1 + p2 + p3 + p4, p5);
    DefinedConcat(p1 + p2 + p3 + p4 + p5, p6);
    DefinedConcat(p1 + p2 + p3 + p4 + p5 + p6, p7);
    DefinedConcat(p1 + p2 + p3 + p4 + p5 + p6 + p7, p8);
  }

  lemma AllDefined(m: Message, password: seq<byte>)
    requires Encodable(m)
    ensures Defined(AllTlvs(m, password))
  {
    hide Defined, HeadTlvs, MidTlvs, TailTlvs, IntegrityTlv;
    HeadDefined(m);
    MidDefined(m);
    TailDefined(m);
    IntegrityDefined(m, password);
    DefinedConcat(HeadTlvs(m), MidTlvs(m));
    DefinedConcat(HeadTlvs(m) + MidTlvs(m), TailTlvs(m));
    DefinedConcat(HeadTlvs(m) + MidTlvs(m) + TailTlvs(m), IntegrityTlv(m, password));
  }

  lemma MidDefined(m: Message)
    ensures Defined(MidTlvs(m))
  {
    hide AddressBytes;
    DefinedConcat(AddressTlv(REFLECTED_FROM, m.reflectedFrom), AddressTlv(XOR_MAPPED_ADDRESS, m.xorMappedAddress));
  }

  lemma TailDefined(m: Message)
    requires Encodable(m)
    ensures Defined(TailTlvs(m))
  {
    hide AddressBytes;
    var p1, p2, p3 := StringTlv(SERVER_NAME, m.serverName), AddressTlv(SECONDARY_ADDRESS, m.secondaryAddress),
                      StringTlv(CONNECTION_REQUEST_BINDING, m.connectionRequestBinding);
    var p4: seq<Tlv> := if m.bindingChange then [Tlv(BINDING_CHANGE, [])] else [];
    DefinedConcat(p1, p2);
    DefinedConcat(p1 + p2, p3);
    DefinedConcat(p1 + p2 + p3, p4);
  }

  lemma IntegrityDefined(m: Message, password: seq<byte>)
    requires Encodable(m)
    ensures Defined(IntegrityTlv(m, password))
  {
    hide Hmac.Hmac, Signed;
  }

  // ----- the order of the attributes -----

  /** The place of a type among those that the encoder writes; the integrity comes last. */
  function PlaceOf(typ: u16): nat {
    match typ
    case 0x0001 => 0
    case 0x0002 => 1
    case 0x0003 => 2
    case 0x0004 => 3
    case 0x0005 => 4
    case 0x0006 => 5
    case 0x0007 => 6
    case 0x0009 => 7
    case 0x000B => 8
    case 0x8020 => 9
    case 0x8022 => 10
    case 0x8050 => 11
    case 0xC001 => 12
    case 0xC002 => 13
    case _ => 14
  }

  /** These attributes are in order, none twice, with places from `low` up to `high`. */
  predicate InOrder(ts: seq<Tlv>, low: nat, high: nat) {
    && (forall i | 0 <= i < |ts| :: low <= PlaceOf(ts[i].typ) < high)
    && forall i, j | 0 <= i < j < |ts| :: PlaceOf(ts[i].typ) < PlaceOf(ts[j].typ)
  }

  lemma InOrderConcat(a: seq<Tlv>, b: seq<Tlv>, low: nat, mid: nat, high: nat)
    requires InOrder(a, low, mid) && InOrder(b, mid, high) && low <= mid <= high
    ensures InOrder(a + b, low, high)
  {
    hide PlaceOf;
  }

  /** At most one attribute, of this type. */
  predicate Single(ts: seq<Tlv>, typ: u16) {
    |ts| <= 1 && forall t <- ts :: t.typ == typ
  }

  lemma SingleInOrder(ts: seq<Tlv>, typ: u16, low: nat)
    requires Single(ts, typ) && PlaceOf(typ) == low
    ensures InOrder(ts, low, low + 1)
  {
    hide PlaceOf;
    assert forall i | 0 <= i < |ts| :: ts[i] in ts;
  }

  lemma AddressInOrder(typ: u16, a: Option<Address>, low: nat)
    requires PlaceOf(typ) == low
    ensures InOrder(AddressTlv(typ, a), low, low + 1)
  {
    hide PlaceOf, InOrder, AddressBytes;
    SingleInOrder(AddressTlv(typ, a), typ, low);
  }

  lemma StringInOrder(typ: u16, s: Option<seq<byte>>, low: nat)
    requires PlaceOf(typ) == low && StringFits(s)
    ensures InOrder(StringTlv(typ, s), low, low + 1)
  {
    hide PlaceOf, InOrder;
    SingleInOrder(StringTlv(typ, s), typ, low);
  }

  lemma ConcatFour(a: seq<Tlv>, b: seq<Tlv>, c: seq<Tlv>, d: seq<Tlv>, low: nat)
    requires InOrder(a, low, low + 1) && InOrder(b, low + 1, low + 2) && InOrder(c, low + 2, low + 3) && InOrder(d, low + 3, low + 4)
    ensures InOrder(a + b + c + d, low, low + 4)
  {
    hide InOrder;
    InOrderConcat(a, b, low, low + 1, low + 2);
    InOrderConcat(a + b, c, low, low + 2, low + 3);
    InOrderConcat(a + b + c, d, low, low + 3, low + 4);
  }

  lemma FirstInOrder(m: Message, change: seq<Tlv>)
    requires Single(change, CHANGE_REQUEST)
    ensures InOrder(AddressTlv(MAPPED_ADDRESS, m.mappedAddress) + AddressTlv(RESPONSE_ADDRESS, m.responseAddress)
                    + change + AddressTlv(SOURCE_ADDRESS, m.sourceAddress), 0, 4)
  {
    hide InOrder, AddressTlv, Single;
    AddressInOrder(MAPPED_ADDRESS, m.mappedAddress, 0);
    AddressInOrder(RESPONSE_ADDRESS, m.responseAddress, 1);
    SingleInOrder(change, CHANGE_REQUEST, 2);
    AddressInOrder(SOURCE_ADDRESS, m.sourceAddress, 3);
    ConcatFour(AddressTlv(MAPPED_ADDRESS, m.mappedAddress), AddressTlv(RESPONSE_ADDRESS, m.responseAddress),
               change, AddressTlv(SOURCE_ADDRESS, m.sourceAddress), 0);
  }

  lemma SecondInOrder(m: Message, error: seq<Tlv>)
    requires Encodable(m) && Single(error, ERROR_CODE)
    ensures InOrder(AddressTlv(CHANGED_ADDRESS, m.changedAddress) + StringTlv(USERNAME, m.username)
                    + StringTlv(PASSWORD, m.password) + error, 4, 8)
  {
    hide InOrder, AddressTlv, StringTlv, Single;
    AddressInOrder(CHANGED_ADDRESS, m.changedAddress, 4);
    StringInOrder(USERNAME, m.username, 5);
    StringInOrder(PASSWORD, m.password, 6);
    SingleInOrder(error, ERROR_CODE, 7);
    ConcatFour(AddressTlv(CHANGED_ADDRESS, m.changedAddress), StringTlv(USERNAME, m.username),
               StringTlv(PASSWORD, m.password), error, 4);
  }

  lemma HeadInOrder(m: Message)
    requires Encodable(m)
    ensures InOrder(HeadTlvs(m), 0, 8)
  {
    hide InOrder, AddressTlv, StringTlv, ErrorBytes, E32, PlaceOf;
    var change := if m.changeRequest.None? then [] else [Tlv(CHANGE_REQUEST, E32(m.changeRequest.value))];
    var error := if m.errorCode.None? then [] else [Tlv(ERROR_CODE, ErrorBytes(m.errorCode.value))];
    FirstInOrder(m, change);
    SecondInOrder(m, error);
    var a, b, d := AddressTlv(MAPPED_ADDRESS, m.mappedAddress), AddressTlv(RESPONSE_ADDRESS, m.responseAddress),
                   AddressTlv(SOURCE_ADDRESS, m.sourceAddress);
    var e, f, g := AddressTlv(CHANGED_ADDRESS, m.changedAddress), StringTlv(USERNAME, m.username), StringTlv(PASSWORD, m.password);
    Regrouped(a + b + change + d, e, f, g, error);
    InOrderConcat(a + b + change + d, e + f + g + error, 0, 4, 8);
  }

  lemma Regrouped(a: seq<Tlv>, e: seq<Tlv>, f: seq<Tlv>, g: seq<Tlv>, h: seq<Tlv>)
    ensures a + e + f + g + h == a + (e + f + g + h)
  {
  }

  lemma MidInOrder(m: Message)
    ensures InOrder(MidTlvs(m), 8, 10)
  {
    hide InOrder, AddressTlv;
    AddressInOrder(REFLECTED_FROM, m.reflectedFrom, 8);
    AddressInOrder(XOR_MAPPED_ADDRESS, m.xorMappedAddress, 9);
    InOrderConcat(AddressTlv(REFLECTED_FROM, m.reflectedFrom), AddressTlv(XOR_MAPPED_ADDRESS, m.xorMappedAddress), 8, 9, 10);
  }

  lemma TailInOrder(m: Message)
    requires Encodable(m)
    ensures InOrder(TailTlvs(m), 10, 14)
  {
    hide InOrder, AddressTlv, StringTlv;
    var binding: seq<Tlv> := if m.bindingChange then [Tlv(BINDING_CHANGE, [])] else [];
    StringInOrder(SERVER_NAME, m.serverName, 10);
    AddressInOrder(SECONDARY_ADDRESS, m.secondaryAddress, 11);
    StringInOrder(CONNECTION_REQUEST_BINDING, m.connectionRequestBinding, 12);
    SingleInOrder(binding, BINDING_CHANGE, 13);
    ConcatFour(StringTlv(SERVER_NAME, m.serverName), AddressTlv(SECONDARY_ADDRESS, m.secondaryAddress),
               StringTlv(CONNECTION_REQUEST_BINDING, m.connectionRequestBinding), binding, 10);
  }

  /** The attributes are written in the order of the encoder, each at most once, the integrity last. */
  lemma WrittenInOrder(m: Message, password: seq<byte>)
    requires Encodable(m)
    ensures InOrder(AllTlvs(m, password), 0, 15)
  {
    hide InOrder, HeadTlvs, MidTlvs, TailTlvs, IntegrityTlv;
    HeadInOrder(m);
    MidInOrder(m);
    TailInOrder(m);
    IntegrityInOrder(m, password);
    InOrderConcat(HeadTlvs(m), MidTlvs(m), 0, 8, 10);
    InOrderConcat(HeadTlvs(m) + MidTlvs(m), TailTlvs(m), 0, 10, 14);
    InOrderConcat(HeadTlvs(m) + MidTlvs(m) + TailTlvs(m), IntegrityTlv(m, password), 0, 14, 15);
  }

  lemma IntegrityInOrder(m: Message, password: seq<byte>)
    requires Encodable(m)
    ensures InOrder(IntegrityTlv(m, password), 14, 15)
  {
    hide Hmac.Hmac, Signed;
  }

  lemma DefinedApplies(m: Message, t: Tlv)
    requires Defined([t])
    ensures !Apply(m, t.typ, t.value).Undefined?
  {
    hide ParseAddress, ParseChangeRequest, ParseUnknown, ParseString, ParseIntegrity;
    assert t in [t];
  }

  lemma {:induction false} RefusedAnywhere(m: Message, ts: seq<Tlv>, i: nat)
    requires i < |ts| && forall n: Message :: Apply(n, ts[i].typ, ts[i].value).Refused?
    requires Defined(ts)
    ensures ApplyAll(m, ts).Refused?
    decreases i
  {
    hide Apply;
    var r := Apply(m, ts[0].typ, ts[0].value);
    DefinedApplies(m, ts[0]);
    if i > 0 && r.Parsed? {
      RefusedAnywhere(r.value, ts[1..], i - 1);
    }
  }

  /** A string of 256 bytes. */
  predicate TooLong(t: Tlv) {
    t.typ in {USERNAME, PASSWORD, SERVER_NAME} && |t.value| >= STUN_MAX_STRING
  }

  lemma TooLongIsRefused(m: Message, t: Tlv)
    requires TooLong(t)
    ensures Apply(m, t.typ, t.value).Refused?
  {
    hide ParseAddress, ParseChangeRequest, ParseUnknown, ParseIntegrity;
  }

  /** Attributes of which one is too long are refused. */
  lemma TooLongAnywhere(b: Message, ts: seq<Tlv>, t: Tlv)
    requires t in ts && TooLong(t) && Defined(ts)
    ensures ApplyAll(b, ts).Refused?
  {
    hide Apply, ApplyAll, TooLong, Defined;
    var i :| 0 <= i < |ts| && ts[i] == t;
    forall n: Message ensures Apply(n, t.typ, t.value).Refused? {
      TooLongIsRefused(n, t);
    }
    RefusedAnywhere(b, ts, i);
  }

  /** A string of 256 bytes among those written first, or written last. */
  lemma UnreadableHasTooLong(m: Message) returns (t: Tlv)
    requires Encodable(m) && !Readable(m)
    ensures TooLong(t)
    ensures if StringReadable(m.username) && StringReadable(m.password) then t in TailTlvs(m) else t in HeadTlvs(m)
  {
    hide AddressTlv, ErrorBytes;
    t :=
      if !StringReadable(m.username) then Tlv(USERNAME, m.username.value)
      else if !StringReadable(m.password) then Tlv(PASSWORD, m.password.value)
      else Tlv(SERVER_NAME, m.serverName.value);
  }

  lemma UnreadableIsRefused(m: Message, password: seq<byte>)
    requires Encodable(m) && !Readable(m) && !m.xorOnly && m.unknownAttributes == None
    ensures Parse(Encode(m, password)) == Refused
  {
    hide Encode, BodyLength, HeadTlvs, MidTlvs, TailTlvs, IntegrityTlv, Parse, ParseAttrs, Header, Join, Blank, ApplyAll, Readable, TooLong, Defined;
    EncodableId(m);
    EncodeIsTiled(m, password);
    ParseWithHeader(m.msgType, m.id, Join(AllTlvs(m, password)));
    var b := Blank(m.msgType, BodyLength(m, password), m.id);
    ParseAll(AllTlvs(m, password), b);
    var t := UnreadableHasTooLong(m);
    AllDefined(m, password);
    TooLongAnywhere(b, AllTlvs(m, password), t);
  }

  // XOR-ONLY is written without a length, so the two bytes that follow are read as one.

  /** Attributes other than the integrity leave the integrity. */
  lemma {:induction false} IntegrityKept(m: Message, ts: seq<Tlv>)
    requires NoIntegrity(ts)
    ensures ApplyAll(m, ts).Parsed? ==> ApplyAll(m, ts).value.messageIntegrity == m.messageIntegrity
    decreases |ts|
  {
    hide ParseAddress, ParseChangeRequest, ParseError, ParseUnknown, ParseString, ParseIntegrity;
    if ts != [] {
      var r := Apply(m, ts[0].typ, ts[0].value);
      if r.Parsed? {
        IntegrityKept(r.value, ts[1..]);
      }
    }
  }

  /** Fewer bytes than an integrity attribute takes bring no integrity. */
  lemma {:induction false} TooShortForIntegrity(body: seq<byte>, m: Message)
    requires |body| < INTEGRITY && m.messageIntegrity == None
    ensures ParseAttrs(body, m).Parsed? ==> ParseAttrs(body, m).value.messageIntegrity == None
    decreases |body|
  {
    hide ParseAddress, ParseChangeRequest, ParseError, ParseUnknown, ParseString;
    if |body| >= 4 {
      var typ, attrLen := D16(body[0..2]), D16(body[2..4]);
      if attrLen + 4 <= |body| {
        var r := Apply(m, typ, body[4..4 + attrLen]);
        if r.Parsed? {
          TooShortForIntegrity(body[4 + attrLen..], r.value);
        }
      }
    }
  }

  /** What follows XOR-ONLY starts with a type that is too large to be the length of what is left, or with the integrity. */
  lemma AfterXorOnly(m: Message, ts: seq<Tlv>)
    requires m.messageIntegrity == None && |Join(ts)| <= STUN_MAX_MESSAGE_SIZE
    requires ts != [] ==> ts[0].typ >= XOR_MAPPED_ADDRESS || (ts[0].typ == MESSAGE_INTEGRITY && |ts| == 1 && |ts[0].value| == 20)
    ensures var r := ParseAttrs(E16(XOR_ONLY) + Join(ts), m);
            r.Parsed? ==> ts != [] && ts[0].typ == MESSAGE_INTEGRITY && r.value.messageIntegrity == None
  {
    hide Apply, Join, Bytes;
    var body := E16(XOR_ONLY) + Join(ts);
    NoLength();
    if ts != [] {
      FirstBytes(ts);
      assert body[0..2] == E16(XOR_ONLY) && body[2..4] == E16(ts[0].typ);
      Decode16(XOR_ONLY);
      Decode16(ts[0].typ);
      if ts[0].typ == MESSAGE_INTEGRITY {
        XorOnlyApplied(m, body[4..12]);
        TooShortForIntegrity(body[12..], m.(xorOnly := true));
      }
    }
  }

  lemma FirstBytes(ts: seq<Tlv>)
    requires ts != []
    ensures |Join(ts)| >= 4 && Join(ts)[0..2] == E16(ts[0].typ)
    ensures |ts| == 1 ==> |Join(ts)| == 4 + |ts[0].value|
  {
    if |ts| == 1 {
      assert Join(ts[1..]) == [];
    }
  }

  lemma XorOnlyApplied(m: Message, v: seq<byte>)
    ensures Apply(m, XOR_ONLY, v) == Parsed(m.(xorOnly := true))
  {
  }

  /** With XOR-ONLY the parser never reads back what was written. */
  lemma XorOnlyNotReadBack(m: Message, password: seq<byte>)
    requires Encodable(m) && m.xorOnly && m.unknownAttributes == None
    ensures Parse(Encode(m, password)) != Parsed(Expected(m, password))
  {
    hide Parse, ParseAttrs, Header, Join, ApplyAll, HeadTlvs, MidTlvs, TailTlvs, IntegrityTlv, Apply, BodyLength, BodyBytes, Encodable;
    EncodableId(m);
    var before, after := HeadTlvs(m) + MidTlvs(m), TailTlvs(m) + IntegrityTlv(m, password);
    var body := Join(before) + (E16(XOR_ONLY) + Join(after));
    XorOnlyBody(m, password);
    ParseWithHeader(m.msgType, m.id, body);
    var b := Blank(m.msgType, BodyLength(m, password), m.id);
    ParseJoin(before, E16(XOR_ONLY) + Join(after), b);
    TypesBefore(m);
    IntegrityKept(b, before);
    if ApplyAll(b, before).Parsed? {
      TypesAfter(m, password);
      AfterXorOnly(ApplyAll(b, before).value, after);
    }
  }

  lemma XorOnlyBody(m: Message, password: seq<byte>)
    requires Encodable(m) && m.xorOnly && m.unknownAttributes == None
    ensures var before, after := HeadTlvs(m) + MidTlvs(m), TailTlvs(m) + IntegrityTlv(m, password);
            var body := Join(before) + (E16(XOR_ONLY) + Join(after));
            |body| == BodyLength(m, password) && Encode(m, password) == Header(m.msgType, BodyLength(m, password), m.id) + body
            && |Join(after)| <= STUN_MAX_MESSAGE_SIZE
  {
    hide Join, HeadTlvs, MidTlvs, TailTlvs, IntegrityTlv, Header, Hmac.Hmac, E16;
    JoinConcat(HeadTlvs(m), MidTlvs(m));
    JoinConcat(TailTlvs(m), IntegrityTlv(m, password));
    var h, t, i := Join(HeadTlvs(m)) + Join(MidTlvs(m)), Join(TailTlvs(m)), Join(IntegrityTlv(m, password));
    assert BodyBytes(m) == h + E16(XOR_ONLY) + t;
    RegroupXor(Header(m.msgType, BodyLength(m, password), m.id), h, E16(XOR_ONLY), t, i);
    TailLength(m);
  }

  lemma RegroupXor(a: seq<byte>, h: seq<byte>, x: seq<byte>, t: seq<byte>, i: seq<byte>)
    ensures (a + (h + x + t)) + i == a + (h + (x + (t + i)))
  {
  }

  predicate NoIntegrity(ts: seq<Tlv>) {
    forall t | t in ts :: t.typ != MESSAGE_INTEGRITY
  }

  lemma NoIntegrityConcat(a: seq<Tlv>, b: seq<Tlv>)
    requires NoIntegrity(a) && NoIntegrity(b)
    ensures NoIntegrity(a + b)
  {
  }

  lemma TypesBefore(m: Message)
    requires Encodable(m)
    ensures NoIntegrity(HeadTlvs(m) + MidTlvs(m))
  {
    hide AddressBytes, ErrorBytes, E32;
    var p1, p2, p4, p5 := AddressTlv(MAPPED_ADDRESS, m.mappedAddress), AddressTlv(RESPONSE_ADDRESS, m.responseAddress),
                          AddressTlv(SOURCE_ADDRESS, m.sourceAddress), AddressTlv(CHANGED_ADDRESS, m.changedAddress);
    var p6, p7 := StringTlv(USERNAME, m.username), StringTlv(PASSWORD, m.password);
    var p3 := if m.changeRequest.None? then [] else [Tlv(CHANGE_REQUEST, E32(m.changeRequest.value))];
    var p8 := if m.errorCode.None? then [] else [Tlv(ERROR_CODE, ErrorBytes(m.errorCode.value))];
    NoIntegrityConcat(p1, p2);
    NoIntegrityConcat(p1 + p2, p3);
    NoIntegrityConcat(p1 + p2 + p3, p4);
    NoIntegrityConcat(p1 + p2 + p3 + p4, p5);
    NoIntegrityConcat(p1 + p2 + p3 + p4 + p5, p6);
    NoIntegrityConcat(p1 + p2 + p3 + p4 + p5 + p6, p7);
    NoIntegrityConcat(p1 + p2 + p3 + p4 + p5 + p6 + p7, p8);
    NoIntegrityConcat(HeadTlvs(m), MidTlvs(m));
  }

  lemma TypesAfter(m: Message, password: seq<byte>)
    requires Encodable(m)
    ensures var ts := TailTlvs(m) + IntegrityTlv(m, password);
            ts != [] ==> ts[0].typ >= XOR_MAPPED_ADDRESS
                         || (ts[0].typ == MESSAGE_INTEGRITY && |ts| == 1 && |ts[0].value| == 20 && password != [])
  {
    hide AddressBytes, Hmac.Hmac, Signed;
  }

  /** With a password the message ends in the HMAC of all its other bytes but the attribute header. */
  lemma IntegrityIsOverTheRest(m: Message, password: seq<byte>)
    requires Encodable(m) && password != []
    ensures var buf := Encode(m, password);
            && |buf| >= INTEGRITY && D16(buf[2..4]) == |buf| - HEADER
            && buf[|buf| - INTEGRITY..] == E16(MESSAGE_INTEGRITY) + E16(20) + Hmac.Hmac(password, buf[..|buf| - INTEGRITY])
  {
    hide E16, D16, BodyBytes, Hmac.Hmac, Join, Encodable, BodyLength;
    var buf, s := Encode(m, password), Signed(m, password);
    EncodableId(m);
    HeaderSlices(m.msgType, BodyLength(m, password), m.id, BodyBytes(m));
    Decode16(BodyLength(m, password));
    assert buf[..|buf| - INTEGRITY] == s;
    assert buf[2..4] == s[2..4];
    JoinOne(IntegrityTlv(m, password)[0]);
    assert buf[|buf| - INTEGRITY..] == Join(IntegrityTlv(m, password));
  }

  lemma JoinOne(t: Tlv)
    ensures Join([t]) == Bytes(t)
  {
    assert Join([t]) == Bytes(t) + Join([]);
  }

  // UNKNOWN-ATTRIBUTES announces two bytes more than the list that follows.

  /** The bytes after the list of unknown types, with the integrity. */
  function AfterTypes(m: Message, password: seq<byte>): seq<byte>
    requires Encodable(m)
  {
    Join(MidTlvs(m)) + XorOnlyBytes(m.xorOnly) + Join(TailTlvs(m)) + Join(IntegrityTlv(m, password))
  }

  /** The parser takes the attributes in front of UNKNOWN-ATTRIBUTES, then the rest. */
  lemma ParseUpToUnknown(m: Message, password: seq<byte>)
    requires Encodable(m) && m.unknownAttributes.Some?
    ensures var r := ApplyAll(Blank(m.msgType, BodyLength(m, password), m.id), HeadTlvs(m));
            && !r.Undefined?
            && Parse(Encode(m, password)) ==
               if !r.Parsed? then r
               else ParseAttrs(UnknownBytes(m.unknownAttributes) + AfterTypes(m, password), r.value)
  {
    hide Parse, ParseAttrs, Header, Join, ApplyAll, HeadTlvs, MidTlvs, TailTlvs, IntegrityTlv, Apply, BodyLength, Encodable, UnknownBytes, Defined;
    EncodableId(m);
    EncodableUnknown(m);
    var rest := AfterTypes(m, password);
    var body := Join(HeadTlvs(m)) + (UnknownBytes(m.unknownAttributes) + rest);
    RegroupUnknown(Header(m.msgType, BodyLength(m, password), m.id), Join(HeadTlvs(m)), UnknownBytes(m.unknownAttributes),
                   Join(MidTlvs(m)), XorOnlyBytes(m.xorOnly), Join(TailTlvs(m)), Join(IntegrityTlv(m, password)));
    assert Encode(m, password) == Header(m.msgType, BodyLength(m, password), m.id) + body;
    assert |body| == BodyLength(m, password);
    ParseWithHeader(m.msgType, m.id, body);
    var b := Blank(m.msgType, BodyLength(m, password), m.id);
    ParseJoin(HeadTlvs(m), UnknownBytes(m.unknownAttributes) + rest, b);
    HeadDefined(m);
    NeverUndefined(b, HeadTlvs(m));
  }

  lemma {:induction false} NeverUndefined(m: Message, ts: seq<Tlv>)
    requires Defined(ts)
    ensures !ApplyAll(m, ts).Undefined?
    decreases |ts|
  {
    hide Apply;
    if ts != [] {
      var r := Apply(m, ts[0].typ, ts[0].value);
      DefinedApplies(m, ts[0]);
      if r.Parsed? {
        NeverUndefined(r.value, ts[1..]);
      }
    }
  }

  lemma EncodableUnknown(m: Message)
    requires Encodable(m) && m.unknownAttributes.Some?
    ensures |m.unknownAttributes.value| <= STUN_MAX_UNKNOWN_ATTRIBUTES
  {
  }

  lemma RegroupUnknown(a: seq<byte>, h: seq<byte>, u: seq<byte>, mid: seq<byte>, x: seq<byte>, t: seq<byte>, i: seq<byte>)
    ensures (a + (h + u + mid + x + t)) + i == a + (h + (u + (mid + x + t + i)))
  {
  }

  /** With an even number of types the message is refused: the length written is no multiple of 4. */
  lemma EvenUnknownIsRefused(m: Message, password: seq<byte>)
    requires Encodable(m) && m.unknownAttributes.Some? && |m.unknownAttributes.value| % 2 == 0
    ensures Parse(Encode(m, password)) == Refused
  {
    hide Parse, ParseAttrs, ApplyAll, HeadTlvs, BodyLength, Encodable, AfterTypes, Encode;
    ParseUpToUnknown(m, password);
    EncodableUnknown(m);
    var types, rest := m.unknownAttributes.value, AfterTypes(m, password);
    var r := ApplyAll(Blank(m.msgType, BodyLength(m, password), m.id), HeadTlvs(m));
    if r.Parsed? {
      UnknownRead(r.value, types, rest);
    }
  }

  /** What the parser makes of a list of unknown types and the bytes that follow it. */
  lemma UnknownRead(m: Message, types: seq<u16>, rest: seq<byte>)
    requires |types| <= STUN_MAX_UNKNOWN_ATTRIBUTES
    ensures ParseAttrs(UnknownBytes(Some(types)) + rest, m) ==
            if |types| % 2 == 0 || |rest| < 2 then Refused
            else ParseAttrs(rest[2..], m.(unknownAttributes := Some(types[..(|types| + 1) / 2])))
  {
    hide Apply, E16, TypesBytes, ParseUnknown, ParseAttrs, Bytes;
    if |rest| < 2 {
      UnknownCutShort(m, types, rest);
    } else {
      var v := TypesBytes(types) + rest[..2];
      UnknownRegroup(types, rest, v);
      ParseFirst(Tlv(UNKNOWN_ATTRIBUTE, v), rest[2..], m);
      ApplyUnknown(m, v);
      if |types| % 2 == 1 {
        UnknownList(types, rest[..2]);
      } else {
        UnknownSize(v);
      }
    }
  }

  lemma UnknownCutShort(m: Message, types: seq<u16>, rest: seq<byte>)
    requires |types| <= STUN_MAX_UNKNOWN_ATTRIBUTES && |rest| < 2
    ensures ParseAttrs(UnknownBytes(Some(types)) + rest, m) == Refused
  {
    hide Apply, E16, D16, TypesBytes;
    var body := UnknownBytes(Some(types)) + rest;
    assert body[2..4] == E16(2 + 2 * |types|);
    Decode16(2 + 2 * |types|);
  }

  lemma UnknownRegroup(types: seq<u16>, rest: seq<byte>, v: Value)
    requires |types| <= STUN_MAX_UNKNOWN_ATTRIBUTES && |rest| >= 2 && v == TypesBytes(types) + rest[..2]
    ensures UnknownBytes(Some(types)) + rest == Bytes(Tlv(UNKNOWN_ATTRIBUTE, v)) + rest[2..]
  {
    hide E16, TypesBytes;
    assert rest == rest[..2] + rest[2..];
    assert UnknownBytes(Some(types)) == E16(UNKNOWN_ATTRIBUTE) + E16(|v|) + TypesBytes(types);
    RegroupParts(E16(UNKNOWN_ATTRIBUTE) + E16(|v|), TypesBytes(types), rest[..2], rest[2..]);
  }

  lemma RegroupParts(a: seq<byte>, b: seq<byte>, c: seq<byte>, d: seq<byte>)
    ensures a + b + (c + d) == a + (b + c) + d
  {
  }

  lemma ApplyUnknown(m: Message, v: seq<byte>)
    ensures Apply(m, UNKNOWN_ATTRIBUTE, v) ==
            var r := ParseUnknown(v); if r.None? then Refused else Parsed(m.(unknownAttributes := r))
  {
  }

  lemma UnknownSize(v: seq<byte>)
    requires |v| % 4 != 0
    ensures ParseUnknown(v) == None
  {
  }

  /** Four bytes count as one type, and the first of the types are taken. */
  lemma UnknownList(types: seq<u16>, two: seq<byte>)
    requires |types| % 2 == 1 && |types| <= STUN_MAX_UNKNOWN_ATTRIBUTES && |two| == 2
    ensures ParseUnknown(TypesBytes(types) + two) == Some(types[..(|types| + 1) / 2])
  {
    hide D16, TypesBytes;
    var v, k := TypesBytes(types) + two, (|types| + 1) / 2;
    forall i | 0 <= i < k ensures D16(v[2 * i..2 * i + 2]) == types[i] {
      TypeAmong(types, two, i);
    }
    assert ParseUnknown(v).value == types[..k];
  }

  lemma TypeAmong(types: seq<u16>, two: seq<byte>, i: nat)
    requires i < |types|
    ensures D16((TypesBytes(types) + two)[2 * i..2 * i + 2]) == types[i]
  {
    hide E16, D16, TypesBytes;
    TypeAt(types, i);
    Decode16(types[i]);
    assert (TypesBytes(types) + two)[2 * i..2 * i + 2] == TypesBytes(types)[2 * i..2 * i + 2];
  }

  lemma {:induction false} TypeAt(types: seq<u16>, i: nat)
    requires i < |types|
    ensures TypesBytes(types)[2 * i..2 * i + 2] == E16(types[i])
  {
    hide E16, TypesBytes;
    TypesUnfold(types);
    var all, rest := TypesBytes(types), TypesBytes(types[1..]);
    if i > 0 {
      TypeAt(types[1..], i - 1);
      assert all[2 * i..2 * i + 2] == rest[2 * (i - 1)..2 * (i - 1) + 2];
    }
  }

  lemma TypesUnfold(types: seq<u16>)
    requires types != []
    ensures TypesBytes(types) == E16(types[0]) + TypesBytes(types[1..])
  {
  }

  /** Nothing but XOR-ONLY, two bytes long, stands where the list is followed by two bytes too many. */
  predicate XorOnlyIsSwallowed(m: Message) {
    m.xorOnly && m.reflectedFrom == None && m.xorMappedAddress == None
  }

  /** A text of 4 or 8 bytes that reads on as a source address or an integrity, by its own first two bytes. */
  predicate LooksLikeAttribute(v: seq<byte>) {
    (|v| == 4 && D16(v[0..2]) == 8) || (|v| == 8 && D16(v[0..2]) == 20)
  }

  /** Such a text comes right after the list. */
  predicate Misleading(m: Message) {
    && !m.xorOnly && m.reflectedFrom == None && m.xorMappedAddress == None
    && if m.serverName.Some? then LooksLikeAttribute(m.serverName.value)
       else m.secondaryAddress == None && m.connectionRequestBinding.Some? && LooksLikeAttribute(m.connectionRequestBinding.value)
  }

  lemma SwallowedXorOnly(m: Message, password: seq<byte>, types: seq<u16>)
    requires Encodable(m) && XorOnlyIsSwallowed(m)
    ensures var rest, r := AfterTypes(m, password), ApplyAll(Blank(m.msgType, BodyLength(m, password), m.id), HeadTlvs(m));
            && |rest| >= 2 && (Readable(m) ==> r.Parsed?)
            && (r.Parsed? ==>
                ParseAttrs(rest[2..], r.value.(unknownAttributes := Some(types))) ==
                if Readable(m) then Parsed(Expected(m, password).(unknownAttributes := Some(types), xorOnly := false)) else Refused)
  {
    hide ParseAttrs, ApplyAll, HeadTlvs, TailTlvs, IntegrityTlv, BodyLength, Encodable, Readable, Join, Defined, TooLong;
    var b, after := Blank(m.msgType, BodyLength(m, password), m.id), TailTlvs(m) + IntegrityTlv(m, password);
    var r := ApplyAll(b, HeadTlvs(m));
    XorOnlyFirst(m, password);
    if Readable(m) {
      HeadApplied(b, m);
      LaterApplied(r.value.(unknownAttributes := Some(types)), m, password);
      assert AfterTail(AfterHead(b, m).(unknownAttributes := Some(types)), m).reflectedFrom == None;
    } else {
      var t := UnreadableHasTooLong(m);
      AllDefined(m, password);
      HeadDefined(m);
      LaterDefined(m, password);
      if t in HeadTlvs(m) {
        TooLongAnywhere(b, HeadTlvs(m), t);
      } else if r.Parsed? {
        TooLongAnywhere(r.value.(unknownAttributes := Some(types)), after, t);
        ParseAll(after, r.value.(unknownAttributes := Some(types)));
      }
    }
  }

  lemma XorOnlyFirst(m: Message, password: seq<byte>)
    requires Encodable(m) && XorOnlyIsSwallowed(m)
    ensures var rest := AfterTypes(m, password);
            |rest| >= 2 && rest[2..] == Join(TailTlvs(m) + IntegrityTlv(m, password))
  {
    hide Join, TailTlvs, IntegrityTlv, E16;
    NoLength();
    JoinConcat(TailTlvs(m), IntegrityTlv(m, password));
    var t, i := Join(TailTlvs(m)), Join(IntegrityTlv(m, password));
    assert MidTlvs(m) == [];
    assert AfterTypes(m, password) == E16(XOR_ONLY) + (t + i);
  }

  /** The attributes of the tail and the integrity, read to the end. */
  lemma LaterApplied(b: Message, m: Message, password: seq<byte>)
    requires Encodable(m) && Readable(m) && b.messageIntegrity == None
    requires b.serverName == None && b.secondaryAddress == None && b.connectionRequestBinding == None && !b.bindingChange
    ensures ParseAttrs(Join(TailTlvs(m) + IntegrityTlv(m, password)), b) ==
            Parsed(AfterTail(b, m).(messageIntegrity :=
                     if password == [] then None else Some(Hmac.Hmac(password, Signed(m, password)))))
  {
    hide ParseAttrs, ApplyAll, TailTlvs, IntegrityTlv, Encodable, Readable, Join, IPv4, Signed, Hmac.Hmac;
    ParseAll(TailTlvs(m) + IntegrityTlv(m, password), b);
    TailApplied(b, m);
    IntegrityApplied(AfterTail(b, m), m, password);
    Chain(b, TailTlvs(m), AfterTail(b, m), IntegrityTlv(m, password),
          Parsed(AfterTail(b, m).(messageIntegrity := if password == [] then None else Some(Hmac.Hmac(password, Signed(m, password))))));
  }

  lemma LaterDefined(m: Message, password: seq<byte>)
    requires Encodable(m)
    ensures Defined(TailTlvs(m) + IntegrityTlv(m, password))
  {
    hide HeadTlvs, MidTlvs, TailTlvs, IntegrityTlv;
    AllDefined(m, password);
    var all := AllTlvs(m, password);
    forall t | t in TailTlvs(m) + IntegrityTlv(m, password) ensures t in all {
    }
  }

  /** An attribute without its type is refused: its length is taken for a type, and is that of none. */
  lemma WithoutItsType(n: Message, t: Tlv, more: seq<byte>)
    requires |t.value| % 4 == 0 && |t.value| <= STUN_MAX_STRING && !LooksLikeAttribute(t.value)
    ensures ParseAttrs((Bytes(t) + more)[2..], n) == Refused
  {
    hide Apply, E16, D16;
    var body := (Bytes(t) + more)[2..];
    assert body == E16(|t.value|) + (t.value + more);
    if |body| >= 4 {
      assert body[0..2] == E16(|t.value|);
      Decode16(|t.value|);
      var attrLen := D16(body[2..4]);
      if |t.value| >= 4 {
        assert body[2..4] == t.value[0..2];
      }
      if attrLen + 4 <= |body| {
        NoSuchType(n, |t.value|, body[4..4 + attrLen]);
      }
    }
  }

  lemma NoSuchType(n: Message, typ: u16, v: seq<byte>)
    requires typ % 4 == 0 && typ <= STUN_MAX_STRING && (typ == 4 ==> |v| != 8) && (typ == 8 ==> |v| != 20)
    ensures Apply(n, typ, v) == Refused
  {
  }

  lemma TypeIsLost(m: Message, password: seq<byte>, n: Message)
    requires Encodable(m) && !XorOnlyIsSwallowed(m) && !Misleading(m)
    ensures var rest := AfterTypes(m, password); |rest| >= 2 ==> ParseAttrs(rest[2..], n) == Refused
  {
    hide ParseAttrs, Join, Encodable, Bytes, TailTlvs, MidTlvs, IntegrityTlv, LooksLikeAttribute, XorOnlyIsSwallowed, Misleading;
    var ts, more := FirstOfRest(m, password);
    if ts != [] {
      FirstHasNoLookalike(m, password);
      WithoutItsType(n, ts[0], Join(ts[1..]) + more);
      JoinUnfolds(ts);
      Regroup(Bytes(ts[0]), Join(ts[1..]), more);
    } else {
      NoLength();
    }
  }

  lemma JoinUnfolds(ts: seq<Tlv>)
    requires ts != []
    ensures Join(ts) == Bytes(ts[0]) + Join(ts[1..])
  {
  }

  /** The attributes that come right after the list of types. */
  function FirstTlvs(m: Message, password: seq<byte>): seq<Tlv>
    requires Encodable(m)
  {
    if MidTlvs(m) != [] then MidTlvs(m) else TailTlvs(m) + IntegrityTlv(m, password)
  }

  lemma FirstOfRest(m: Message, password: seq<byte>) returns (ts: seq<Tlv>, more: seq<byte>)
    requires Encodable(m) && !XorOnlyIsSwallowed(m)
    ensures ts == FirstTlvs(m, password) && AfterTypes(m, password) == Join(ts) + more && (ts == [] ==> more == [])
  {
    hide Join, Encodable, TailTlvs, IntegrityTlv, E16;
    ts := FirstTlvs(m, password);
    var t, i := Join(TailTlvs(m)), Join(IntegrityTlv(m, password));
    if MidTlvs(m) != [] {
      more := XorOnlyBytes(m.xorOnly) + t + i;
    } else {
      assert !m.xorOnly;
      more := [];
      NoLength();
      JoinConcat(TailTlvs(m), IntegrityTlv(m, password));
    }
  }

  lemma FirstHasNoLookalike(m: Message, password: seq<byte>)
    requires Encodable(m) && !XorOnlyIsSwallowed(m) && !Misleading(m)
    ensures var ts := FirstTlvs(m, password);
            ts != [] ==> |ts[0].value| % 4 == 0 && |ts[0].value| <= STUN_MAX_STRING && !LooksLikeAttribute(ts[0].value)
  {
    hide Hmac.Hmac, Signed, AddressBytes, LooksLikeAttribute, IntegrityTlv;
    if MidTlvs(m) != [] {
      AddressHarmless(if m.reflectedFrom.Some? then m.reflectedFrom.value else m.xorMappedAddress.value);
    } else if TailTlvs(m) != [] {
      FirstOfTail(m);
    } else {
      IntegrityHarmless(m, password);
    }
  }

  lemma AddressHarmless(a: Address)
    ensures !LooksLikeAttribute(AddressBytes(a))
  {
    assert AddressBytes(a)[0..2] == [a.pad, IPV4_FAMILY];
  }

  lemma IntegrityHarmless(m: Message, password: seq<byte>)
    requires Encodable(m)
    ensures var ts := IntegrityTlv(m, password); ts != [] ==> |ts[0].value| == 20 && !LooksLikeAttribute(ts[0].value)
  {
    hide Hmac.Hmac, Signed;
  }

  lemma FirstOfTail(m: Message)
    requires Encodable(m) && MidTlvs(m) == [] && !m.xorOnly && !Misleading(m) && TailTlvs(m) != []
    ensures var v := TailTlvs(m)[0].value; |v| % 4 == 0 && |v| <= STUN_MAX_STRING && !LooksLikeAttribute(v)
  {
    hide AddressBytes, LooksLikeAttribute;
    if m.serverName.None? && m.secondaryAddress.Some? {
      AddressHarmless(m.secondaryAddress.value);
    } else if m.serverName.None? && m.connectionRequestBinding.None? {
      EmptyHarmless();
    }
  }

  lemma EmptyHarmless()
    ensures !LooksLikeAttribute([])
  {
  }

  /**
   With an odd number of types the list takes the two bytes that follow it.  If
   these are XOR-ONLY the message is read back without it, with the first half of the
   types; else the type of the next attribute is lost and the message is refused.
   */
  lemma OddUnknown(m: Message, password: seq<byte>)
    requires Encodable(m) && m.unknownAttributes.Some? && |m.unknownAttributes.value| % 2 == 1
    ensures XorOnlyIsSwallowed(m) && Readable(m) ==>
              var types := m.unknownAttributes.value;
              Parse(Encode(m, password)) ==
              Parsed(Expected(m, password).(unknownAttributes := Some(types[..(|types| + 1) / 2]), xorOnly := false))
    ensures !(XorOnlyIsSwallowed(m) && Readable(m)) && !Misleading(m) ==> Parse(Encode(m, password)) == Refused
  {
    hide Parse, ParseAttrs, ApplyAll, HeadTlvs, BodyLength, Encodable, AfterTypes, Encode, Expected, Readable, Misleading, XorOnlyIsSwallowed;
    ParseUpToUnknown(m, password);
    EncodableUnknown(m);
    var types, rest := m.unknownAttributes.value, AfterTypes(m, password);
    var b := Blank(m.msgType, BodyLength(m, password), m.id);
    var r := ApplyAll(b, HeadTlvs(m));
    if r.Parsed? {
      UnknownRead(r.value, types, rest);
    }
    if XorOnlyIsSwallowed(m) {
      SwallowedXorOnly(m, password, types[..(|types| + 1) / 2]);
    } else if !Misleading(m) && r.Parsed? {
      TypeIsLost(m, password, r.value.(unknownAttributes := Some(types[..(|types| + 1) / 2])));
    }
  }

  // ----- the round trip, in one statement -----

  lemma PlainRoundTrip(m: Message, password: seq<byte>)
    requires Encodable(m) && m.unknownAttributes == None
    ensures Parse(Encode(m, password)) == Parsed(Expected(m, password)) <==> Readable(m) && !m.xorOnly
  {
    hide Parse, Encode, Expected, Encodable, Readable;
    if m.xorOnly {
      XorOnlyNotReadBack(m, password);
    } else if Readable(m) {
      ReadsBack(m, password);
    } else {
      UnreadableIsRefused(m, password);
    }
  }

  /**
   The round trip, for every message that the encoder can write and every password:
   the parser reads back what was written exactly when there are no
   UNKNOWN-ATTRIBUTES and no XOR-ONLY, and no string fills its whole buffer.  Undecided
   is only an odd number of unknown types right before a text that looks like an attribute.
   */
  lemma RoundTrip(m: Message, password: seq<byte>)
    requires Encodable(m)
    requires m.unknownAttributes.Some? && |m.unknownAttributes.value| % 2 == 1 ==> !Misleading(m)
    ensures Parse(Encode(m, password)) == Parsed(Expected(m, password))
            <==> Readable(m) && !m.xorOnly && m.unknownAttributes == None
  {
    hide Parse, Encode, Encodable, Readable, Misleading;
    if m.unknownAttributes == None {
      PlainRoundTrip(m, password);
    } else if |m.unknownAttributes.value| % 2 == 0 {
      EvenUnknownIsRefused(m, password);
    } else {
      OddUnknown(m, password);
    }
  }
}
