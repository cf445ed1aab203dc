/**
 STUN messages as bytes: what the parser accepts and what the encoder writes
 (dm_lib_stun.c; sections 11.1 and 11.2 of RFC 3489).
 */
module StunFormat {
  import opened Blocks

  type u16 = x: int | 0 <= x < 0x1_0000
  type u32 = x: int | 0 <= x < 0x1_0000_0000

  datatype Option<T> = None | Some(value: T)

  /**
   What parsing comes to.  `Undefined` is a copy that leaves the structure it is
   for: the source goes on, but what the message holds then depends on the layout
   of memory.
   */
  datatype Outcome<T> = Refused | Undefined | Parsed(value: T)

  // ----- messages -----

  datatype Address = Address(pad: byte, family: byte, port: u16, addr: u32)

  datatype Error = Error(pad: u16, errorClass: byte, number: byte, reason: seq<byte>)

  datatype Message = Message(
    msgType: u16, msgLength: u16, id: seq<byte>,
    mappedAddress: Option<Address>, responseAddress: Option<Address>, changeRequest: Option<u32>,
    sourceAddress: Option<Address>, changedAddress: Option<Address>, username: Option<seq<byte>>,
    password: Option<seq<byte>>, messageIntegrity: Option<seq<byte>>, errorCode: Option<Error>,
    unknownAttributes: Option<seq<u16>>, reflectedFrom: Option<Address>, xorMappedAddress: Option<Address>,
    xorOnly: bool, serverName: Option<seq<byte>>, connectionRequestBinding: Option<seq<byte>>,
    bindingChange: bool, secondaryAddress: Option<Address>)

  const MAPPED_ADDRESS: u16 := 0x0001
  const RESPONSE_ADDRESS: u16 := 0x0002
  const CHANGE_REQUEST: u16 := 0x0003
  const SOURCE_ADDRESS: u16 := 0x0004
  const CHANGED_ADDRESS: u16 := 0x0005
  const USERNAME: u16 := 0x0006
  const PASSWORD: u16 := 0x0007
  const MESSAGE_INTEGRITY: u16 := 0x0008
  const ERROR_CODE: u16 := 0x0009
  const UNKNOWN_ATTRIBUTE: u16 := 0x000A
  const REFLECTED_FROM: u16 := 0x000B
  const XOR_MAPPED_ADDRESS: u16 := 0x8020
  const XOR_ONLY: u16 := 0x0021
  const SERVER_NAME: u16 := 0x8022
  const SECONDARY_ADDRESS: u16 := 0x8050
  const CONNECTION_REQUEST_BINDING: u16 := 0xC001
  const BINDING_CHANGE: u16 := 0xC002

  const IPV4_FAMILY: byte := 1
  const STUN_MAX_STRING: nat := 256
  const STUN_MAX_UNKNOWN_ATTRIBUTES: nat := 8
  const STUN_MAX_MESSAGE_SIZE: nat := 2048
  const HEADER: nat := 20

  // ----- numbers in network byte order -----

  function E16(v: u16): (s: seq<byte>)
    ensures |s| == 2
  {
    [v / 0x100, v % 0x100]
  }

  function D16(s: seq<byte>): u16
    requires |s| == 2
  {
    s[0] as int * 0x100 + s[1] as int
  }

  function E32(v: u32): (s: seq<byte>)
    ensures |s| == 4
  {
    E16(v / 0x1_0000) + E16(v % 0x1_0000)
  }

  function D32(s: seq<byte>): u32
    requires |s| == 4
  {
    D16(s[0..2]) as int * 0x1_0000 + D16(s[2..4]) as int
  }

  lemma Decode16(v: u16)
    ensures D16(E16(v)) == v
  {
  }

  lemma Decode32(v: u32)
    ensures D32(E32(v)) == v
  {
    hide D16, E16;
    assert E32(v)[0..2] == E16(v / 0x1_0000) && E32(v)[2..4] == E16(v % 0x1_0000);
    Decode16(v / 0x1_0000);
    Decode16(v % 0x1_0000);
  }

  // ----- the attribute parsers -----

  function ParseAddress(v: seq<byte>): Option<Address> {
    if |v| != 8 || v[1] != IPV4_FAMILY then None
    else Some(Address(v[0], v[1], D16(v[2..4]), D32(v[4..8])))
  }

  function ParseChangeRequest(v: seq<byte>): Option<u32> {
    if |v| != 4 then None else Some(D32(v))
  }

  const SIZEOF_ERROR: nat := 2 + 1 + 1 + STUN_MAX_STRING + 2

  /**
   stunParseAtrError.  A reason of 256 bytes is taken as it is: its NUL falls on
   the low byte of the size 0x0100 behind it, on a little-endian machine.  Below 4
   the size of the reason wraps around, and a reason of 257 bytes overwrites its size.
   */
  function ParseError(v: seq<byte>): Outcome<Error> {
    if |v| >= SIZEOF_ERROR then Refused
    else if |v| < 4 || |v| > STUN_MAX_STRING + 4 then Undefined
    else Parsed(Error(D16(v[0..2]), v[2], v[3], v[4..]))
  }

  function ParseUnknown(v: seq<byte>): Option<seq<u16>> {
    if |v| >= 2 * STUN_MAX_UNKNOWN_ATTRIBUTES + 2 || |v| % 4 != 0 then None
    else Some(seq(|v| / 4, i requires 0 <= i < |v| / 4 => D16(v[2 * i..2 * i + 2])))
  }

  function ParseString(v: seq<byte>): Option<seq<byte>> {
    if |v| >= STUN_MAX_STRING || |v| % 4 != 0 then None else Some(v)
  }

  function ParseIntegrity(v: seq<byte>): Option<seq<byte>> {
    if |v| != 20 then None else Some(v)
  }

  /** The switch of stunParseMessage: the message after one attribute. */
  function Apply(m: Message, typ: u16, v: seq<byte>): Outcome<Message> {
    if typ == MAPPED_ADDRESS then
      var r := ParseAddress(v); if r.None? then Refused else Parsed(m.(mappedAddress := r))
    else if typ == RESPONSE_ADDRESS then
      var r := ParseAddress(v); if r.None? then Refused else Parsed(m.(responseAddress := r))
    else if typ == CHANGE_REQUEST then
      var r := ParseChangeRequest(v); if r.None? then Refused else Parsed(m.(changeRequest := r))
    else if typ == SOURCE_ADDRESS then
      var r := ParseAddress(v); if r.None? then Refused else Parsed(m.(sourceAddress := r))
    else if typ == CHANGED_ADDRESS then
      var r := ParseAddress(v); if r.None? then Refused else Parsed(m.(changedAddress := r))
    else if typ == USERNAME then
      var r := ParseString(v); if r.None? then Refused else Parsed(m.(username := r))
    else if typ == PASSWORD then
      var r := ParseString(v); if r.None? then Refused else Parsed(m.(password := r))
    else if typ == MESSAGE_INTEGRITY then
      var r := ParseIntegrity(v); if r.None? then Refused else Parsed(m.(messageIntegrity := r))
    else if typ == ERROR_CODE then
      match ParseError(v) {
        case Refused => Refused
        case Undefined => Undefined
        case Parsed(e) => Parsed(m.(errorCode := Some(e)))
      }
    else if typ == UNKNOWN_ATTRIBUTE then
      var r := ParseUnknown(v); if r.None? then Refused else Parsed(m.(unknownAttributes := r))
    else if typ == REFLECTED_FROM then
      var r := ParseAddress(v); if r.None? then Refused else Parsed(m.(reflectedFrom := r))
    else if typ == XOR_MAPPED_ADDRESS then
      var r := ParseAddress(v); if r.None? then Refused else Parsed(m.(xorMappedAddress := r))
    else if typ == XOR_ONLY then Parsed(m.(xorOnly := true))
    else if typ == SERVER_NAME then
      var r := ParseString(v); if r.None? then Refused else Parsed(m.(serverName := r))
    else if typ == SECONDARY_ADDRESS then
      var r := ParseAddress(v); if r.None? then Refused else Parsed(m.(secondaryAddress := r))
    else if typ == CONNECTION_REQUEST_BINDING then Parsed(m.(connectionRequestBinding := Some([])))
    else if typ == BINDING_CHANGE then Parsed(m.(bindingChange := true))
    else if typ <= 0x7FFF then Refused
    else Parsed(m)
  }

  /** The loop of stunParseMessage over the bytes that are left. */
  function ParseAttrs(body: seq<byte>, m: Message): Outcome<Message>
    decreases |body|
  {
    if body == [] then Parsed(m)
    else if |body| < 4 then Refused
    else
      var typ, attrLen := D16(body[0..2]), D16(body[2..4]);
      if attrLen + 4 > |body| then Refused
      else
        var r := Apply(m, typ, body[4..4 + attrLen]);
        if !r.Parsed? then r else ParseAttrs(body[4 + attrLen..], r.value)
  }

  /** The message of which the header alone is known. */
  function Blank(msgType: u16, msgLength: u16, id: seq<byte>): Message {
    Message(msgType, msgLength, id, None, None, None, None, None, None, None, None, None, None, None, None,
            false, None, None, false, None)
  }

  function Parse(buf: seq<byte>): Outcome<Message> {
    if |buf| < HEADER then Refused
    else
      var msgLength := D16(buf[2..4]);
      if msgLength + HEADER != |buf| then Refused
      else ParseAttrs(buf[HEADER..], Blank(D16(buf[0..2]), msgLength, buf[4..20]))
  }

  // ----- messages as lists of attributes -----

  type Value = v: seq<byte> | |v| < 0x1_0000

  datatype Tlv = Tlv(typ: u16, value: Value)

  function Bytes(t: Tlv): (s: seq<byte>)
    ensures |s| == 4 + |t.value|
  {
    E16(t.typ) + E16(|t.value|) + t.value
  }

  function Join(ts: seq<Tlv>): seq<byte> {
    if ts == [] then [] else Bytes(ts[0]) + Join(ts[1..])
  }

  lemma {:induction false} JoinConcat(a: seq<Tlv>, b: seq<Tlv>)
    ensures Join(a + b) == Join(a) + Join(b)
  {
    if a == [] {
      assert a + b == b;
    } else {
      assert (a + b)[1..] == a[1..] + b;
      JoinConcat(a[1..], b);
    }
  }

  function ApplyAll(m: Message, ts: seq<Tlv>): Outcome<Message>
    decreases |ts|
  {
    if ts == [] then Parsed(m)
    else
      var r := Apply(m, ts[0].typ, ts[0].value);
      if !r.Parsed? then r else ApplyAll(r.value, ts[1..])
  }

  lemma {:induction false} ApplyConcat(m: Message, a: seq<Tlv>, b: seq<Tlv>)
    ensures ApplyAll(m, a + b) == var r := ApplyAll(m, a); if !r.Parsed? then r else ApplyAll(r.value, b)
    decreases |a|
  {
    hide Apply;
    if a == [] {
      assert a + b == b;
    } else {
      assert (a + b)[0] == a[0] && (a + b)[1..] == a[1..] + b;
      var r := Apply(m, a[0].typ, a[0].value);
      if r.Parsed? {
        ApplyConcat(r.value, a[1..], b);
      }
    }
  }

  /** An attribute in front of other bytes is read as written. */
  lemma ParseFirst(t: Tlv, rest: seq<byte>, m: Message)
    ensures ParseAttrs(Bytes(t) + rest, m) ==
            var r := Apply(m, t.typ, t.value); if !r.Parsed? then r else ParseAttrs(rest, r.value)
  {
    hide Apply;
    var body := Bytes(t) + rest;
    assert body[0..2] == E16(t.typ) && body[2..4] == E16(|t.value|);
    Decode16(t.typ);
    Decode16(|t.value|);
    assert body[4..4 + |t.value|] == t.value;
    assert body[4 + |t.value|..] == rest;
  }

  /** The parser is compositional: whole attributes in front are applied in order. */
  lemma {:induction false} ParseJoin(ts: seq<Tlv>, rest: seq<byte>, m: Message)
    ensures ParseAttrs(Join(ts) + rest, m) ==
            var r := ApplyAll(m, ts); if !r.Parsed? then r else ParseAttrs(rest, r.value)
  {
    hide Apply, ParseAttrs, Bytes;
    if ts == [] {
      assert Join(ts) + rest == rest;
    } else {
      assert Join(ts) + rest == Bytes(ts[0]) + (Join(ts[1..]) + rest);
      ParseFirst(ts[0], Join(ts[1..]) + rest, m);
      var r := Apply(m, ts[0].typ, ts[0].value);
      if r.Parsed? {
        ParseJoin(ts[1..], rest, r.value);
      }
    }
  }

  lemma ParseNothing(m: Message)
    ensures ParseAttrs([], m) == Parsed(m)
  {
  }

  lemma FirstTile(body: seq<byte>, first: Tlv)
    requires 4 + |first.value| <= |body| && first == Tlv(D16(body[0..2]), body[4..4 + |first.value|])
    requires |first.value| == D16(body[2..4])
    ensures Bytes(first) + body[4 + |first.value|..] == body
  {
    Encode16(body[0..2]);
    Encode16(body[2..4]);
    assert body == body[0..2] + body[2..4] + body[4..4 + |first.value|] + body[4 + |first.value|..];
  }

  lemma Encode16(s: seq<byte>)
    requires |s| == 2
    ensures E16(D16(s)) == s
  {
  }

  /** Accepted bytes are whole attributes, one after the other. */
  lemma {:induction false} AcceptedIsTiled(body: seq<byte>, m: Message) returns (ts: seq<Tlv>)
    requires ParseAttrs(body, m).Parsed?
    ensures Join(ts) == body && ApplyAll(m, ts) == ParseAttrs(body, m)
    decreases |body|
  {
    hide Apply, D16, E16, Bytes;
    if body == [] {
      ts := [];
    } else {
      var typ, attrLen := D16(body[0..2]), D16(body[2..4]);
      var r := Apply(m, typ, body[4..4 + attrLen]);
      var later := AcceptedIsTiled(body[4 + attrLen..], r.value);
      var first := Tlv(typ, body[4..4 + attrLen]);
      FirstTile(body, first);
      ts := [first] + later;
      assert ts[1..] == later;
    }
  }

  /** The parser accepts a body, with a given result, exactly when it is tiled by attributes that give this result. */
  lemma AcceptsIffTiled(body: seq<byte>, m: Message, result: Message)
    ensures ParseAttrs(body, m) == Parsed(result) <==> exists ts :: Join(ts) == body && ApplyAll(m, ts) == Parsed(result)
  {
    hide Apply, ParseAttrs, Join, ApplyAll;
    if ParseAttrs(body, m) == Parsed(result) {
      var ts := AcceptedIsTiled(body, m);
    }
    if ts :| Join(ts) == body && ApplyAll(m, ts) == Parsed(result) {
      ParseJoin(ts, [], m);
      ParseNothing(result);
      assert Join(ts) + [] == body;
    }
  }

  /**
   What the parser accepts, from the first byte to the last: a header that announces
   exactly the bytes that follow it, and these are attributes that take the blank
   message of this header to the result.
   */
  lemma AcceptsIff(buf: seq<byte>, m: Message)
    ensures Parse(buf) == Parsed(m) <==>
            && |buf| >= 20
            && buf[2] as int * 256 + buf[3] as int == |buf| - 20
            && exists ts :: Join(ts) == buf[20..]
                            && ApplyAll(Blank(buf[0] as int * 256 + buf[1] as int, |buf| - 20, buf[4..20]), ts) == Parsed(m)
  {
    hide Apply, ParseAttrs, Join, ApplyAll, Blank;
    if |buf| >= 20 && buf[2] as int * 256 + buf[3] as int == |buf| - 20 {
      AcceptsIffTiled(buf[20..], Blank(buf[0] as int * 256 + buf[1] as int, |buf| - 20, buf[4..20]), m);
    }
  }

  /** A datagram that is cut short, or goes on after its message, is refused whatever its attributes. */
  lemma WrongLengthIsRefused(buf: seq<byte>)
    requires |buf| < 20 || buf[2] as int * 256 + buf[3] as int != |buf| - 20
    ensures Parse(buf) == Refused
  {
  }

  /** The attributes that make the parser give up, and those that it copies out of bounds, on any message. */
  lemma RefusedIff(m: Message, typ: u16, v: seq<byte>)
    ensures Apply(m, typ, v) == Refused <==>
            || (typ in {0x0001, 0x0002, 0x0004, 0x0005, 0x000B, 0x8020, 0x8050} && !(|v| == 8 && v[1] == 1))
            || (typ == 0x0003 && |v| != 4)
            || (typ in {0x0006, 0x0007, 0x8022} && (|v| >= 256 || |v| % 4 != 0))
            || (typ == 0x0008 && |v| != 20)
            || (typ == 0x0009 && |v| >= 262)
            || (typ == 0x000A && (|v| >= 18 || |v| % 4 != 0))
            || (typ == 0x0000 || 0x000C <= typ <= 0x0020 || 0x0022 <= typ <= 0x7FFF)
    ensures Apply(m, typ, v) == Undefined <==> typ == 0x0009 && (|v| < 4 || |v| == 261)
  {
    hide D16, D32;
  }

  /** An attribute that is read leaves every field of the message but its own. */
  lemma OnlyItsField(m: Message, typ: u16, v: seq<byte>)
    ensures var r := Apply(m, typ, v);
            r.Parsed? ==> match typ
              case 0x0001 => r.value == m.(mappedAddress := r.value.mappedAddress)
              case 0x0002 => r.value == m.(responseAddress := r.value.responseAddress)
              case 0x0003 => r.value == m.(changeRequest := r.value.changeRequest)
              case 0x0004 => r.value == m.(sourceAddress := r.value.sourceAddress)
              case 0x0005 => r.value == m.(changedAddress := r.value.changedAddress)
              case 0x0006 => r.value == m.(username := Some(v))
              case 0x0007 => r.value == m.(password := Some(v))
              case 0x0008 => r.value == m.(messageIntegrity := Some(v))
              case 0x0009 => r.value == m.(errorCode := r.value.errorCode)
              case 0x000A => r.value == m.(unknownAttributes := r.value.unknownAttributes)
              case 0x000B => r.value == m.(reflectedFrom := r.value.reflectedFrom)
              case 0x8020 => r.value == m.(xorMappedAddress := r.value.xorMappedAddress)
              case 0x0021 => r.value == m.(xorOnly := true)
              case 0x8022 => r.value == m.(serverName := Some(v))
              case 0x8050 => r.value == m.(secondaryAddress := r.value.secondaryAddress)
              case 0xC001 => r.value == m.(connectionRequestBinding := Some([]))
              case 0xC002 => r.value == m.(bindingChange := true)
              case _ => r.value == m
  {
    hide D16, D32;
  }

  // ----- attributes that change nothing -----

  /** A type above 0x7FFF that the parser does not know. */
  predicate Ignored(typ: u16) {
    typ > 0x7FFF && typ !in {XOR_MAPPED_ADDRESS, SERVER_NAME, SECONDARY_ADDRESS, CONNECTION_REQUEST_BINDING, BINDING_CHANGE}
  }

  function Header(msgType: u16, msgLength: u16, id: seq<byte>): (s: seq<byte>)
    requires |id| == 16
    ensures |s| == HEADER
  {
    E16(msgType) + E16(msgLength) + id
  }

  lemma HeaderSlices(msgType: u16, msgLength: u16, id: seq<byte>, body: seq<byte>)
    requires |id| == 16
    ensures var buf := Header(msgType, msgLength, id) + body;
            |buf| == HEADER + |body| && buf[0..2] == E16(msgType) && buf[2..4] == E16(msgLength)
            && buf[4..20] == id && buf[HEADER..] == body
  {
    hide E16;
  }

  lemma ParseWithHeader(msgType: u16, id: seq<byte>, body: seq<byte>)
    requires |id| == 16 && |body| < 0x1_0000
    ensures Parse(Header(msgType, |body|, id) + body) == ParseAttrs(body, Blank(msgType, |body|, id))
  {
    hide ParseAttrs, Header, E16, D16, Blank;
    HeaderSlices(msgType, |body|, id, body);
    Decode16(msgType);
    Decode16(|body|);
  }

  /** The length in the header plays no part in the attributes. */
  function WithLength(r: Outcome<Message>, msgLength: u16): Outcome<Message> {
    if !r.Parsed? then r else Parsed(r.value.(msgLength := msgLength))
  }

  lemma ApplyIgnoresLength(m: Message, t: Tlv, msgLength: u16)
    ensures Apply(m.(msgLength := msgLength), t.typ, t.value) == WithLength(Apply(m, t.typ, t.value), msgLength)
  {
    hide ParseAddress, ParseChangeRequest, ParseError, ParseUnknown, ParseString, ParseIntegrity;
  }

  lemma {:induction false} ApplyAllIgnoresLength(m: Message, ts: seq<Tlv>, msgLength: u16)
    ensures ApplyAll(m.(msgLength := msgLength), ts) == WithLength(ApplyAll(m, ts), msgLength)
    decreases |ts|
  {
    hide Apply;
    if ts != [] {
      ApplyIgnoresLength(m, ts[0], msgLength);
      var r := Apply(m, ts[0].typ, ts[0].value);
      if r.Parsed? {
        ApplyAllIgnoresLength(r.value, ts[1..], msgLength);
      }
    }
  }

  /** An unknown attribute above 0x7FFF, put between two attributes, changes nothing but the length in the header. */
  lemma IgnoredAttribute(msgType: u16, id: seq<byte>, before: seq<Tlv>, extra: Tlv, after: seq<Tlv>)
    requires |id| == 16 && Ignored(extra.typ) && |Join(before)| + |Bytes(extra)| + |Join(after)| < 0x1_0000
    ensures var short := Join(before) + Join(after); var long := Join(before) + Bytes(extra) + Join(after);
            Parse(Header(msgType, |long|, id) + long) == WithLength(Parse(Header(msgType, |short|, id) + short), |long|)
  {
    hide ParseAttrs, Bytes, Join, ApplyAll, Header, Parse, Apply;
    var short, long := Join(before) + Join(after), Join(before) + Bytes(extra) + Join(after);
    ParseWithHeader(msgType, id, short);
    ParseWithHeader(msgType, id, long);
    var m := Blank(msgType, |short|, id);
    assert Blank(msgType, |long|, id) == m.(msgLength := |long|);
    ApplyAllIgnoresLength(m, before, |long|);
    ParseJoin(before, Join(after), m);
    ParseJoin(before, Bytes(extra) + Join(after), m.(msgLength := |long|));
    assert long == Join(before) + (Bytes(extra) + Join(after));
    var r := ApplyAll(m, before);
    if r.Parsed? {
      ParseFirst(extra, Join(after), r.value.(msgLength := |long|));
      IgnoredIsNoOp(r.value.(msgLength := |long|), extra);
      ParseAll(after, r.value);
      ParseAll(after, r.value.(msgLength := |long|));
      ApplyAllIgnoresLength(r.value, after, |long|);
    }
  }

  lemma IgnoredIsNoOp(m: Message, t: Tlv)
    requires Ignored(t.typ)
    ensures Apply(m, t.typ, t.value) == Parsed(m)
  {
  }

  lemma ParseAll(ts: seq<Tlv>, m: Message)
    ensures ParseAttrs(Join(ts), m) == ApplyAll(m, ts)
  {
    hide ParseAttrs, Join, ApplyAll;
    ParseJoin(ts, [], m);
    assert Join(ts) + [] == Join(ts);
    if ApplyAll(m, ts).Parsed? {
      ParseNothing(ApplyAll(m, ts).value);
    }
  }
}
