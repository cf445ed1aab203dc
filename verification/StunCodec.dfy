/**
 stunParseMessage and stunEncodeMessage on buffers.
 */
module StunCodec {
  import opened Blocks
  import Hmac
  import opened Memory
  import opened StunFormat
  import opened StunRoundTrip

  lemma SliceOfSlice(buf: array<byte>, a: nat, b: nat, c: nat, d: nat)
    requires a <= b <= buf.Length && c <= d <= b - a
    ensures buf[a..b][c..d] == buf[a + c..a + d]
  {
    ghost var s := buf[..];
    assert buf[a..b] == s[a..b] && buf[a + c..a + d] == s[a + c..a + d];
    SubSlice(s, a, b, c, d);
  }

  lemma SubSlice(s: seq<byte>, a: nat, b: nat, c: nat, d: nat)
    requires a <= b <= |s| && c <= d <= b - a
    ensures s[a..b][c..d] == s[a + c..a + d]
  {
    var t := s[a..b];
    forall k | 0 <= k < d - c ensures t[c..d][k] == s[a + c..a + d][k] {
      assert t[c..d][k] == t[c + k];
    }
  }

  // ----- parsing -----

  /** ntohs of the two bytes at `at`. */
  method Read16(buf: array<byte>, at: nat) returns (v: u16)
    requires at + 2 <= buf.Length
    ensures v == D16(buf[at..at + 2])
  {
    v := buf[at] as int * 0x100 + buf[at + 1] as int;
  }

  method Read32(buf: array<byte>, at: nat) returns (v: u32)
    requires at + 4 <= buf.Length
    ensures v == D32(buf[at..at + 4])
  {
    hide D16;
    var hi := Read16(buf, at);
    var lo := Read16(buf, at + 2);
    assert buf[at..at + 4][0..2] == buf[at..at + 2] && buf[at..at + 4][2..4] == buf[at + 2..at + 4];
    v := hi as int * 0x1_0000 + lo as int;
  }

  method ParseAtrAddress(buf: array<byte>, body: nat, hdrLen: nat) returns (result: Option<Address>)
    requires body + hdrLen <= buf.Length
    ensures result == ParseAddress(buf[body..body + hdrLen])
  {
    hide D16, D32;
    if hdrLen != 8 {
      return None;
    }
    var pad, family := buf[body], buf[body + 1];
    if family != IPV4_FAMILY {
      return None;
    }
    var port := Read16(buf, body + 2);
    var addr := Read32(buf, body + 4);
    ghost var v := buf[body..body + hdrLen];
    assert v[2..4] == buf[body + 2..body + 4] && v[4..8] == buf[body + 4..body + 8];
    result := Some(Address(pad, family, port, addr));
  }

  method ParseAtrChangeRequest(buf: array<byte>, body: nat, hdrLen: nat) returns (result: Option<u32>)
    requires body + hdrLen <= buf.Length
    ensures result == ParseChangeRequest(buf[body..body + hdrLen])
  {
    hide D32;
    if hdrLen != 4 {
      return None;
    }
    var value := Read32(buf, body);
    result := Some(value);
  }

  method ParseAtrError(buf: array<byte>, body: nat, hdrLen: nat) returns (result: Outcome<Error>)
    requires body + hdrLen <= buf.Length
    ensures result == ParseError(buf[body..body + hdrLen])
  {
    hide D16;
    if hdrLen >= SIZEOF_ERROR {
      return Refused;
    }
    if hdrLen < 4 || hdrLen - 4 > STUN_MAX_STRING {
      // the copy of the reason leaves its array
      return Undefined;
    }
    var pad := Read16(buf, body);
    var errorClass, number := buf[body + 2], buf[body + 3];
    var sizeReason: u16 := hdrLen - 4;
    ghost var v := buf[body..body + hdrLen];
    assert v[0..2] == buf[body..body + 2] && v[4..] == buf[body + 4..body + 4 + sizeReason];
    if sizeReason == STUN_MAX_STRING {
      // the NUL behind a full reason is stored in the low byte of sizeReason
      sizeReason := sizeReason / 0x100 * 0x100;
    }
    result := Parsed(Error(pad, errorClass, number, buf[body + 4..body + 4 + sizeReason]));
  }

  method ParseAtrUnknown(buf: array<byte>, body: nat, hdrLen: nat) returns (result: Option<seq<u16>>)
    requires body + hdrLen <= buf.Length
    ensures result == ParseUnknown(buf[body..body + hdrLen])
  {
    hide D16;
    if hdrLen >= 2 * STUN_MAX_UNKNOWN_ATTRIBUTES + 2 || hdrLen % 4 != 0 {
      return None;
    }
    ghost var v := buf[body..body + hdrLen];
    var numAttributes := hdrLen / 4;
    var attrType: seq<u16> := [];
    for i := 0 to numAttributes
      invariant |attrType| == i
      invariant forall j | 0 <= j < i :: attrType[j] == D16(v[2 * j..2 * j + 2])
    {
      var t := Read16(buf, body + 2 * i);
      SliceOfSlice(buf, body, body + hdrLen, 2 * i, 2 * i + 2);
      attrType := attrType + [t];
    }
    result := Some(attrType);
    assert attrType == ParseUnknown(v).value;
  }

  method ParseAtrString(buf: array<byte>, body: nat, hdrLen: nat) returns (result: Option<seq<byte>>)
    requires body + hdrLen <= buf.Length
    ensures result == ParseString(buf[body..body + hdrLen])
  {
    if hdrLen >= STUN_MAX_STRING {
      return None;
    }
    if hdrLen % 4 != 0 {
      return None;
    }
    result := Some(buf[body..body + hdrLen]);
  }

  method ParseAtrIntegrity(buf: array<byte>, body: nat, hdrLen: nat) returns (result: Option<seq<byte>>)
    requires body + hdrLen <= buf.Length
    ensures result == ParseIntegrity(buf[body..body + hdrLen])
  {
    if hdrLen != 20 {
      return None;
    }
    result := Some(buf[body..body + hdrLen]);
  }

  /** The cases of the switch that read an address. */
  method ApplyAddress(msg: Message, atrType: u16, buf: array<byte>, body: nat, attrLen: nat) returns (result: Outcome<Message>)
    requires body + attrLen <= buf.Length
    requires atrType in {MAPPED_ADDRESS, RESPONSE_ADDRESS, SOURCE_ADDRESS, CHANGED_ADDRESS, REFLECTED_FROM, XOR_MAPPED_ADDRESS, SECONDARY_ADDRESS}
    ensures result == Apply(msg, atrType, buf[body..body + attrLen])
  {
    hide ParseAddress, ParseChangeRequest, ParseError, ParseUnknown, ParseString, ParseIntegrity;
    var a := ParseAtrAddress(buf, body, attrLen);
    result := if a.None? then Refused else Parsed(SetAddress(msg, atrType, a));
  }

  /** The cases that read a string. */
  method ApplyString(msg: Message, atrType: u16, buf: array<byte>, body: nat, attrLen: nat) returns (result: Outcome<Message>)
    requires body + attrLen <= buf.Length && atrType in {USERNAME, PASSWORD, SERVER_NAME}
    ensures result == Apply(msg, atrType, buf[body..body + attrLen])
  {
    hide ParseAddress, ParseChangeRequest, ParseError, ParseUnknown, ParseString, ParseIntegrity;
    var s := ParseAtrString(buf, body, attrLen);
    if s.None? {
      return Refused;
    }
    result := Parsed(if atrType == USERNAME then msg.(username := s)
                   else if atrType == PASSWORD then msg.(password := s) else msg.(serverName := s));
  }

  /** The switch of stunParseMessage. */
  method ApplyAttribute(msg: Message, atrType: u16, buf: array<byte>, body: nat, attrLen: nat) returns (result: Outcome<Message>)
    requires body + attrLen <= buf.Length
    ensures result == Apply(msg, atrType, buf[body..body + attrLen])
  {
    hide ParseAddress, ParseChangeRequest, ParseError, ParseUnknown, ParseString, ParseIntegrity;
    if atrType in {MAPPED_ADDRESS, RESPONSE_ADDRESS, SOURCE_ADDRESS, CHANGED_ADDRESS, REFLECTED_FROM, XOR_MAPPED_ADDRESS, SECONDARY_ADDRESS} {
      result := ApplyAddress(msg, atrType, buf, body, attrLen);
    } else if atrType in {USERNAME, PASSWORD, SERVER_NAME} {
      result := ApplyString(msg, atrType, buf, body, attrLen);
    } else if atrType == CHANGE_REQUEST {
      var r := ParseAtrChangeRequest(buf, body, attrLen);
      result := if r.None? then Refused else Parsed(msg.(changeRequest := r));
    } else if atrType == MESSAGE_INTEGRITY {
      var r := ParseAtrIntegrity(buf, body, attrLen);
      result := if r.None? then Refused else Parsed(msg.(messageIntegrity := r));
    } else if atrType == ERROR_CODE {
      var r := ParseAtrError(buf, body, attrLen);
      result := match r {
        case Refused => Refused
        case Undefined => Undefined
        case Parsed(e) => Parsed(msg.(errorCode := Some(e)))
      };
    } else if atrType == UNKNOWN_ATTRIBUTE {
      var r := ParseAtrUnknown(buf, body, attrLen);
      result := if r.None? then Refused else Parsed(msg.(unknownAttributes := r));
    } else if atrType == XOR_ONLY {
      result := Parsed(msg.(xorOnly := true));
    } else if atrType == CONNECTION_REQUEST_BINDING {
      result := Parsed(msg.(connectionRequestBinding := Some([])));
    } else if atrType == BINDING_CHANGE {
      result := Parsed(msg.(bindingChange := true));
    } else if atrType <= 0x7FFF {
      result := Refused;
    } else {
      result := Parsed(msg);
    }
  }

  /** stunParseMessage; `Refused` is the result false. */
  method ParseMessage(buf: array<byte>, bufLen: nat) returns (result: Outcome<Message>)
    requires bufLen <= buf.Length
    ensures result == Parse(buf[..bufLen])
  {
    hide Apply, ParseAttrs, D16;
    if HEADER > bufLen {
      return Refused;
    }
    HeaderFields(buf, bufLen);
    var msgType := Read16(buf, 0);
    var msgLength := Read16(buf, 2);
    if msgLength + HEADER != bufLen {
      return Refused;
    }
    var msg := Blank(msgType, msgLength, buf[4..20]);
    result := ParseBody(buf, HEADER, msgLength, msg);
  }

  lemma HeaderFields(buf: array<byte>, bufLen: nat)
    requires HEADER <= bufLen <= buf.Length
    ensures var all := buf[..bufLen];
            all[0..2] == buf[0..2] && all[2..4] == buf[2..4] && all[4..20] == buf[4..20] && all[HEADER..] == buf[HEADER..bufLen]
  {
    assert buf[0..bufLen] == buf[..bufLen];
    SliceOfSlice(buf, 0, bufLen, 0, 2);
    SliceOfSlice(buf, 0, bufLen, 2, 4);
    SliceOfSlice(buf, 0, bufLen, 4, 20);
    SliceOfSlice(buf, 0, bufLen, 20, bufLen);
  }

  /** The loop of stunParseMessage. */
  method ParseBody(buf: array<byte>, start: nat, length: nat, blank: Message) returns (result: Outcome<Message>)
    requires start + length <= buf.Length
    ensures result == ParseAttrs(buf[start..start + length], blank)
  {
    hide Apply, ParseAttrs, D16;
    var msg := blank;
    var body, size := start, length;
    while size > 0
      invariant body + size == start + length
      invariant ParseAttrs(buf[body..body + size], msg) == ParseAttrs(buf[start..start + length], blank)
    {
      var r, attrLen := ParseOne(buf, body, size, msg);
      if !r.Parsed? {
        return r;
      }
      msg := r.value;
      body, size := body + 4 + attrLen, size - 4 - attrLen;
    }
    assert buf[body..body + size] == [];
    ParseNothing(msg);
    result := Parsed(msg);
  }

  /** One turn of the loop. */
  method ParseOne(buf: array<byte>, body: nat, size: nat, msg: Message) returns (r: Outcome<Message>, attrLen: nat)
    requires body + size <= buf.Length && size > 0
    ensures !r.Parsed? ==> ParseAttrs(buf[body..body + size], msg) == r
    ensures r.Parsed? ==> 4 + attrLen <= size
    ensures r.Parsed? ==> ParseAttrs(buf[body..body + size], msg) == ParseAttrs(buf[body + 4 + attrLen..body + size], r.value)
  {
    hide Apply, ParseAttrs, D16;
    ghost var left := buf[body..body + size];
    if size < 4 {
      TooFewBytes(left, msg);
      return Refused, 0;
    }
    SliceOfSlice(buf, body, body + size, 0, 2);
    SliceOfSlice(buf, body, body + size, 2, 4);
    var atrType := Read16(buf, body);
    var length := Read16(buf, body + 2);
    attrLen := length;
    if attrLen + 4 > size {
      TooLargeAttribute(left, msg);
      return Refused, attrLen;
    }
    SliceOfSlice(buf, body, body + size, 4, 4 + attrLen);
    SliceOfSlice(buf, body, body + size, 4 + attrLen, size);
    r := ApplyAttribute(msg, atrType, buf, body + 4, attrLen);
    OneAttribute(left, msg);
  }

  lemma TooFewBytes(left: seq<byte>, m: Message)
    requires 0 < |left| < 4
    ensures ParseAttrs(left, m) == Refused
  {
  }

  lemma TooLargeAttribute(left: seq<byte>, m: Message)
    requires |left| >= 4 && D16(left[2..4]) + 4 > |left|
    ensures ParseAttrs(left, m) == Refused
  {
  }

  lemma OneAttribute(left: seq<byte>, m: Message)
    requires |left| >= 4 && D16(left[2..4]) + 4 <= |left|
    ensures var n := D16(left[2..4]); var r := Apply(m, D16(left[0..2]), left[4..4 + n]);
            ParseAttrs(left, m) == if !r.Parsed? then r else ParseAttrs(left[4 + n..], r.value)
  {
    hide Apply, D16;
  }

  // ----- encoding -----

  /** encode: memcpy of `data` to `ptr`, which moves on. */
  method Put(buf: array<byte>, ptr: nat, data: seq<byte>) returns (p: nat)
    requires ptr + |data| <= buf.Length
    modifies buf
    ensures p == ptr + |data| && buf[..p] == old(buf[..ptr]) + data
  {
    Memcpy(buf, ptr, data);
    p := ptr + |data|;
    assert buf[..p] == buf[..][..p];
  }

  method Put16(buf: array<byte>, ptr: nat, data: u16) returns (p: nat)
    requires ptr + 2 <= buf.Length
    modifies buf
    ensures p == ptr + 2 && buf[..p] == old(buf[..ptr]) + E16(data)
  {
    p := Put(buf, ptr, [data / 0x100, data % 0x100]);
  }

  method Put32(buf: array<byte>, ptr: nat, data: u32) returns (p: nat)
    requires ptr + 4 <= buf.Length
    modifies buf
    ensures p == ptr + 4 && buf[..p] == old(buf[..ptr]) + E32(data)
  {
    hide E16;
    p := Put16(buf, ptr, data / 0x1_0000);
    p := Put16(buf, p, data % 0x1_0000);
    Regroup2(old(buf[..ptr]), E16(data / 0x1_0000), E16(data % 0x1_0000));
  }

  lemma Regroup2(was: seq<byte>, a: seq<byte>, b: seq<byte>)
    ensures was + a + b == was + (a + b)
  {
  }

  lemma Regroup3(was: seq<byte>, a: seq<byte>, b: seq<byte>, c: seq<byte>)
    ensures was + a + b + c == was + (a + b + c)
  {
  }

  lemma Regroup5(was: seq<byte>, a: seq<byte>, b: seq<byte>, c: seq<byte>, d: seq<byte>, e: seq<byte>)
    ensures was + a + b + c + d + e == was + (a + b + (c + d + e))
  {
  }

  method PutAddress4(buf: array<byte>, ptr: nat, typ: u16, a: Address) returns (p: nat)
    requires ptr + 12 <= buf.Length
    modifies buf
    ensures p == ptr + 12 && buf[..p] == old(buf[..ptr]) + Join([Tlv(typ, AddressBytes(a))])
  {
    hide E16, E32, Join;
    p := Put16(buf, ptr, typ);
    p := Put16(buf, p, 8);
    p := Put(buf, p, [a.pad, IPV4_FAMILY]);
    p := Put16(buf, p, a.port);
    p := Put32(buf, p, a.addr);
    JoinOne(Tlv(typ, AddressBytes(a)));
    Regroup5(old(buf[..ptr]), E16(typ), E16(8), [a.pad, IPV4_FAMILY], E16(a.port), E32(a.addr));
  }

  /** An address attribute when the flag says so. */
  method PutAddress(buf: array<byte>, ptr: nat, typ: u16, a: Option<Address>) returns (p: nat)
    requires ptr + 12 <= buf.Length
    modifies buf
    ensures ptr <= p <= ptr + 12 && buf[..p] == old(buf[..ptr]) + Join(AddressTlv(typ, a))
  {
    hide Join;
    p := ptr;
    if a.Some? {
      p := PutAddress4(buf, ptr, typ, a.value);
    } else {
      NothingPut(buf[..ptr]);
    }
  }

  lemma NothingPut(s: seq<byte>)
    ensures s + Join([]) == s
  {
  }

  method PutString(buf: array<byte>, ptr: nat, typ: u16, s: Option<seq<byte>>) returns (p: nat)
    requires ptr + 260 <= buf.Length && StringFits(s)
    modifies buf
    ensures ptr <= p <= ptr + 260 && buf[..p] == old(buf[..ptr]) + Join(StringTlv(typ, s))
  {
    hide Join, E16;
    p := ptr;
    if s.Some? {
      p := Put16(buf, p, typ);
      p := Put16(buf, p, |s.value|);
      p := Put(buf, p, s.value);
      JoinOne(Tlv(typ, s.value));
      Regroup3(old(buf[..ptr]), E16(typ), E16(|s.value|), s.value);
    } else {
      NothingPut(buf[..ptr]);
    }
  }

  method PutChangeRequest(buf: array<byte>, ptr: nat, c: Option<u32>) returns (p: nat)
    requires ptr + 8 <= buf.Length
    modifies buf
    ensures ptr <= p <= ptr + 8
    ensures buf[..p] == old(buf[..ptr]) + Join(if c.None? then [] else [Tlv(CHANGE_REQUEST, E32(c.value))])
  {
    hide Join, E16, E32;
    p := ptr;
    if c.Some? {
      p := Put16(buf, p, CHANGE_REQUEST);
      p := Put16(buf, p, 4);
      p := Put32(buf, p, c.value);
      JoinOne(Tlv(CHANGE_REQUEST, E32(c.value)));
      Regroup3(old(buf[..ptr]), E16(CHANGE_REQUEST), E16(4), E32(c.value));
    } else {
      NothingPut(buf[..ptr]);
    }
  }

  method PutError(buf: array<byte>, ptr: nat, e: Option<Error>) returns (p: nat)
    requires ptr + 264 <= buf.Length && (e.Some? ==> |e.value.reason| <= STUN_MAX_STRING)
    modifies buf
    ensures ptr <= p <= ptr + 264
    ensures buf[..p] == old(buf[..ptr]) + Join(if e.None? then [] else [Tlv(ERROR_CODE, ErrorBytes(e.value))])
  {
    hide Join, E16;
    p := ptr;
    if e.Some? {
      p := Put16(buf, p, ERROR_CODE);
      p := Put16(buf, p, 4 + |e.value.reason|);
      p := Put16(buf, p, e.value.pad);
      p := Put(buf, p, [e.value.errorClass, e.value.number]);
      p := Put(buf, p, e.value.reason);
      JoinOne(Tlv(ERROR_CODE, ErrorBytes(e.value)));
      Regroup5(old(buf[..ptr]), E16(ERROR_CODE), E16(4 + |e.value.reason|), E16(e.value.pad),
               [e.value.errorClass, e.value.number], e.value.reason);
    } else {
      NothingPut(buf[..ptr]);
    }
  }

  method PutUnknown(buf: array<byte>, ptr: nat, u: Option<seq<u16>>) returns (p: nat)
    requires ptr + 20 <= buf.Length && (u.Some? ==> |u.value| <= STUN_MAX_UNKNOWN_ATTRIBUTES)
    modifies buf
    ensures ptr <= p <= ptr + 20 && buf[..p] == old(buf[..ptr]) + UnknownBytes(u)
  {
    hide E16, TypesBytes;
    p := ptr;
    if u.Some? {
      p := Put16(buf, p, UNKNOWN_ATTRIBUTE);
      p := Put16(buf, p, 2 + 2 * |u.value|);
      ghost var was := buf[..p];
      NoTypes(was);
      for i := 0 to |u.value|
        invariant p == ptr + 4 + 2 * i && buf[..p] == was + TypesBytes(u.value[..i])
      {
        p := Put16(buf, p, u.value[i]);
        TypesSnoc(u.value, i);
        Regroup2(was, TypesBytes(u.value[..i]), E16(u.value[i]));
      }
      assert u.value[..|u.value|] == u.value;
      Regroup3(old(buf[..ptr]), E16(UNKNOWN_ATTRIBUTE), E16(2 + 2 * |u.value|), TypesBytes(u.value));
    } else {
      assert buf[..ptr] + [] == buf[..ptr];
    }
  }

  lemma NoTypes(s: seq<byte>)
    ensures s + TypesBytes([]) == s
  {
  }

  lemma {:induction false} TypesSnoc(types: seq<u16>, i: nat)
    requires i < |types|
    ensures TypesBytes(types[..i + 1]) == TypesBytes(types[..i]) + E16(types[i])
  {
    hide E16;
    if i == 0 {
      assert TypesBytes(types[..1]) == E16(types[0]) + TypesBytes(types[..1][1..]);
    } else {
      TypesSnoc(types[1..], i - 1);
      assert types[..i + 1][1..] == types[1..][..i] && types[..i][1..] == types[1..][..i - 1];
    }
  }

  method PutHead(buf: array<byte>, ptr: nat, m: Message) returns (p: nat)
    requires ptr + 840 <= buf.Length && Encodable(m)
    modifies buf
    ensures ptr <= p <= ptr + 840 && buf[..p] == old(buf[..ptr]) + Join(HeadTlvs(m))
  {
    hide Join, AddressTlv, StringTlv, E32, ErrorBytes;
    ghost var was := buf[..ptr];
    ghost var p1, p2, p4, p5 := AddressTlv(MAPPED_ADDRESS, m.mappedAddress), AddressTlv(RESPONSE_ADDRESS, m.responseAddress),
                                AddressTlv(SOURCE_ADDRESS, m.sourceAddress), AddressTlv(CHANGED_ADDRESS, m.changedAddress);
    ghost var p6, p7 := StringTlv(USERNAME, m.username), StringTlv(PASSWORD, m.password);
    ghost var p3 := if m.changeRequest.None? then [] else [Tlv(CHANGE_REQUEST, E32(m.changeRequest.value))];
    ghost var p8 := if m.errorCode.None? then [] else [Tlv(ERROR_CODE, ErrorBytes(m.errorCode.value))];
    p := PutAddress(buf, ptr, MAPPED_ADDRESS, m.mappedAddress);
    p := PutAddress(buf, p, RESPONSE_ADDRESS, m.responseAddress);
    JoinMore(was, p1, p2);
    p := PutChangeRequest(buf, p, m.changeRequest);
    JoinMore(was, p1 + p2, p3);
    p := PutAddress(buf, p, SOURCE_ADDRESS, m.sourceAddress);
    JoinMore(was, p1 + p2 + p3, p4);
    p := PutAddress(buf, p, CHANGED_ADDRESS, m.changedAddress);
    JoinMore(was, p1 + p2 + p3 + p4, p5);
    p := PutString(buf, p, USERNAME, m.username);
    JoinMore(was, p1 + p2 + p3 + p4 + p5, p6);
    p := PutString(buf, p, PASSWORD, m.password);
    JoinMore(was, p1 + p2 + p3 + p4 + p5 + p6, p7);
    p := PutError(buf, p, m.errorCode);
    JoinMore(was, p1 + p2 + p3 + p4 + p5 + p6 + p7, p8);
  }

  lemma JoinMore(was: seq<byte>, a: seq<Tlv>, b: seq<Tlv>)
    ensures was + Join(a) + Join(b) == was + Join(a + b)
  {
    hide Join;
    JoinConcat(a, b);
    Regroup2(was, Join(a), Join(b));
  }

  method PutMid(buf: array<byte>, ptr: nat, m: Message) returns (p: nat)
    requires ptr + 24 <= buf.Length
    modifies buf
    ensures ptr <= p <= ptr + 24 && buf[..p] == old(buf[..ptr]) + Join(MidTlvs(m))
  {
    hide Join, AddressTlv;
    ghost var was := buf[..ptr];
    p := PutAddress(buf, ptr, REFLECTED_FROM, m.reflectedFrom);
    p := PutAddress(buf, p, XOR_MAPPED_ADDRESS, m.xorMappedAddress);
    JoinMore(was, AddressTlv(REFLECTED_FROM, m.reflectedFrom), AddressTlv(XOR_MAPPED_ADDRESS, m.xorMappedAddress));
  }

  method PutTail(buf: array<byte>, ptr: nat, m: Message) returns (p: nat)
    requires ptr + 536 <= buf.Length && Encodable(m)
    modifies buf
    ensures ptr <= p <= ptr + 536 && buf[..p] == old(buf[..ptr]) + Join(TailTlvs(m))
  {
    hide Join, AddressTlv, StringTlv, E16;
    ghost var was := buf[..ptr];
    ghost var p1, p2, p3 := StringTlv(SERVER_NAME, m.serverName), AddressTlv(SECONDARY_ADDRESS, m.secondaryAddress),
                            StringTlv(CONNECTION_REQUEST_BINDING, m.connectionRequestBinding);
    ghost var p4: seq<Tlv> := if m.bindingChange then [Tlv(BINDING_CHANGE, [])] else [];
    p := PutString(buf, ptr, SERVER_NAME, m.serverName);
    p := PutAddress(buf, p, SECONDARY_ADDRESS, m.secondaryAddress);
    JoinMore(was, p1, p2);
    p := PutString(buf, p, CONNECTION_REQUEST_BINDING, m.connectionRequestBinding);
    JoinMore(was, p1 + p2, p3);
    p := PutBindingChange(buf, p, m.bindingChange);
    JoinMore(was, p1 + p2 + p3, p4);
  }

  method PutBindingChange(buf: array<byte>, ptr: nat, flag: bool) returns (p: nat)
    requires ptr + 4 <= buf.Length
    modifies buf
    ensures ptr <= p <= ptr + 4 && buf[..p] == old(buf[..ptr]) + Join(if flag then [Tlv(BINDING_CHANGE, [])] else [])
  {
    hide Join, E16;
    p := ptr;
    if flag {
      p := Put16(buf, p, BINDING_CHANGE);
      p := Put16(buf, p, 0);
      JoinOne(Tlv(BINDING_CHANGE, []));
      Regroup2(old(buf[..ptr]), E16(BINDING_CHANGE), E16(0));
    } else {
      NothingPut(buf[..ptr]);
    }
  }

  /** The header with length 0, and all attributes but the integrity. */
  method PutMessage(buf: array<byte>, m: Message) returns (p: nat)
    requires buf.Length >= STUN_MAX_MESSAGE_SIZE && Encodable(m)
    modifies buf
    ensures HEADER <= p <= STUN_MAX_MESSAGE_SIZE - INTEGRITY && buf[..p] == Header(m.msgType, 0, m.id) + BodyBytes(m)
  {
    hide Join, E16, HeadTlvs, MidTlvs, TailTlvs, UnknownBytes;
    p := Put16(buf, 0, m.msgType);
    p := Put16(buf, p, 0);
    p := Put(buf, p, m.id);
    ghost var head := buf[..p];
    assert head == Header(m.msgType, 0, m.id);
    p := PutHead(buf, p, m);
    p := PutUnknown(buf, p, m.unknownAttributes);
    p := PutMid(buf, p, m);
    if m.xorOnly {
      p := Put16(buf, p, XOR_ONLY);
    }
    NoBytes(buf[..p]);
    ghost var before := buf[..p];
    p := PutTail(buf, p, m);
    assert before == head + Join(HeadTlvs(m)) + UnknownBytes(m.unknownAttributes) + Join(MidTlvs(m)) + XorOnlyBytes(m.xorOnly);
    RegroupBody(head, Join(HeadTlvs(m)), UnknownBytes(m.unknownAttributes), Join(MidTlvs(m)), XorOnlyBytes(m.xorOnly), Join(TailTlvs(m)));
  }

  lemma NoBytes(s: seq<byte>)
    ensures s + [] == s
  {
  }

  lemma RegroupBody(was: seq<byte>, a: seq<byte>, b: seq<byte>, c: seq<byte>, d: seq<byte>, e: seq<byte>)
    ensures was + a + b + c + d + e == was + (a + b + c + d + e)
  {
  }

  /** The length is written over the zero that was left for it. */
  method PatchLength(buf: array<byte>, p: nat, m: Message, size: u16)
    requires HEADER <= p <= buf.Length && Encodable(m) && buf[..p] == Header(m.msgType, 0, m.id) + BodyBytes(m)
    modifies buf
    ensures buf[..p] == Header(m.msgType, size, m.id) + BodyBytes(m)
  {
    hide E16, BodyBytes;
    ghost var was := buf[..];
    Memcpy(buf, 2, [size / 0x100, size % 0x100]);
    PatchedBytes(was, buf[..], p, m, size, [size / 0x100, size % 0x100]);
  }

  lemma PatchedBytes(was: seq<byte>, now: seq<byte>, p: nat, m: Message, size: u16, field: seq<byte>)
    requires HEADER <= p <= |was| && |field| == 2 && field == [size / 0x100, size % 0x100]
    requires Encodable(m) && was[..p] == Header(m.msgType, 0, m.id) + BodyBytes(m)
    requires now == was[..2] + field + was[4..]
    ensures now[..p] == Header(m.msgType, size, m.id) + BodyBytes(m)
  {
    hide BodyBytes;
    assert was[..2] == was[..p][..2] == E16(m.msgType);
    assert was[..p][4..] == m.id + BodyBytes(m);
    assert now[..p] == was[..2] + field + was[..p][4..];
  }

  /** stunEncodeMessage into a buffer of the size that all callers use. */
  method EncodeMessage(m: Message, buf: array<byte>, password: seq<byte>) returns (length: nat)
    requires buf.Length >= STUN_MAX_MESSAGE_SIZE && Encodable(m) && |password| <= STUN_MAX_STRING
    modifies buf
    ensures length <= STUN_MAX_MESSAGE_SIZE && buf[..length] == Encode(m, password)
  {
    hide BodyBytes, Header, Hmac.Hmac, Join;
    var ptr := PutMessage(buf, m);
    BodyFits(m);
    var sizeHeader := ptr - HEADER;
    if |password| > 0 {
      sizeHeader := sizeHeader + 4 + 20;
    }
    assert sizeHeader == BodyLength(m, password);
    PatchLength(buf, ptr, m, sizeHeader);
    assert buf[..ptr] == Signed(m, password);
    if |password| > 0 {
      ptr := SignMessage(buf, ptr, password);
      JoinOne(Tlv(MESSAGE_INTEGRITY, Hmac.Hmac(password, Signed(m, password))));
    } else {
      NothingPut(buf[..ptr]);
    }
    length := ptr;
  }

  /** computeHmac over what has been written, then encodeAtrIntegrity. */
  method SignMessage(buf: array<byte>, ptr: nat, password: seq<byte>) returns (p: nat)
    requires ptr + INTEGRITY <= buf.Length && ptr < STUN_MAX_MESSAGE_SIZE && |password| <= STUN_MAX_STRING
    modifies buf
    ensures p == ptr + INTEGRITY
    ensures buf[..p] == old(buf[..ptr]) + Bytes(Tlv(MESSAGE_INTEGRITY, Hmac.Hmac(password, old(buf[..ptr]))))
  {
    hide Hmac.Hmac, E16;
    var key := new byte[|password|](i requires 0 <= i < |password| => password[i]);
    var hash := new byte[20](i => 0);
    assert key[..|password|] == password;
    var ret := Hmac.HmacSha1(key, |password|, buf, ptr, hash);
    ghost var was, mac := buf[..ptr], hash[..];
    assert mac == hash[..20];
    p := Put16(buf, ptr, MESSAGE_INTEGRITY);
    p := Put16(buf, p, 20);
    p := Put(buf, p, hash[..]);
    Regroup3(was, E16(MESSAGE_INTEGRITY), E16(20), mac);
  }
}
