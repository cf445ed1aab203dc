/**
 HMAC-SHA1 (sha1.c and sha1_vector), against section 2 of RFC 2104.
 */
module Hmac {
  import opened Blocks
  import opened Memory
  import Sha1

  // ----- RFC 2104 -----

  function Xor(b: byte, pad: byte): byte {
    ((b as bv8) ^ (pad as bv8)) as int
  }

  function XorAll(key: seq<byte>, pad: byte): (s: seq<byte>)
    ensures |s| == |key|
  {
    seq(|key|, i requires 0 <= i < |key| => Xor(key[i], pad))
  }

  /** The key brought to the length of a block. */
  function BlockKey(key: seq<byte>): (k: seq<byte>)
    ensures |k| == 64
  {
    var k := if |key| > 64 then Sha1.Digest(key) else key;
    k + Zeros(64 - |k|)
  }

  const IPAD: byte := 0x36
  const OPAD: byte := 0x5c

  function Hmac(key: seq<byte>, text: seq<byte>): (mac: seq<byte>)
    ensures |mac| == 20
  {
    var k := BlockKey(key);
    Sha1.Digest(XorAll(k, OPAD) + Sha1.Digest(XorAll(k, IPAD) + text))
  }

  /** The construction with two keys, one for each of the two digests. */
  function TwoKeys(inner: seq<byte>, outer: seq<byte>, text: seq<byte>): (mac: seq<byte>)
    ensures |mac| == 20
  {
    Sha1.Digest(XorAll(BlockKey(outer), OPAD) + InnerDigest(inner, text))
  }

  function InnerDigest(key: seq<byte>, text: seq<byte>): (digest: seq<byte>)
    ensures |digest| == 20
  {
    Sha1.Digest(XorAll(BlockKey(key), IPAD) + text)
  }

  /** What is left of a key that starts where the inner digest was stored. */
  function Overwritten(key: seq<byte>, digest: seq<byte>): seq<byte> {
    if |key| <= |digest| then digest[..|key|] else digest + key[|digest|..]
  }

  // ----- sha1_vector -----

  /** Data areas and their lengths. */
  ghost predicate Areas(addr: seq<array<byte>>, len: seq<nat>) {
    |addr| == |len| && forall i | 0 <= i < |addr| :: len[i] <= addr[i].Length && len[i] < Sha1.MAX_LEN
  }

  /** The bytes of all areas, one after the other. */
  ghost function Joined(addr: seq<array<byte>>, len: seq<nat>): seq<byte>
    requires Areas(addr, len)
    reads addr
  {
    if addr == [] then [] else addr[0][..len[0]] + Joined(addr[1..], len[1..])
  }

  lemma {:induction false} JoinedSnoc(addr: seq<array<byte>>, len: seq<nat>, i: nat)
    requires Areas(addr, len) && i < |addr|
    ensures Areas(addr[..i], len[..i]) && Areas(addr[..i + 1], len[..i + 1])
    ensures Joined(addr[..i + 1], len[..i + 1]) == Joined(addr[..i], len[..i]) + addr[i][..len[i]]
  {
    if i == 0 {
      assert addr[..1][1..] == [] && len[..1][1..] == [];
    } else {
      JoinedSnoc(addr[1..], len[1..], i - 1);
      assert addr[..i + 1][1..] == addr[1..][..i] && len[..i + 1][1..] == len[1..][..i];
      assert addr[..i][1..] == addr[1..][..i - 1] && len[..i][1..] == len[1..][..i - 1];
    }
  }

  /** The part of sha1_vector that only reads the data areas. */
  method DigestAreas(addr: seq<array<byte>>, len: seq<nat>) returns (digest: seq<byte>)
    requires Areas(addr, len)
    ensures digest == Sha1.Digest(Joined(addr, len))
  {
    hide Sha1.Digest, Sha1.Context.Valid;
    var ctx := new Sha1.Context();
    for i := 0 to |addr|
      invariant ctx.Valid() && Areas(addr[..i], len[..i]) && ctx.message == Joined(addr[..i], len[..i])
      invariant fresh(ctx) && fresh(ctx.buffer)
    {
      ctx.Update(addr[i][..len[i]]);
      JoinedSnoc(addr, len, i);
    }
    assert addr[..|addr|] == addr && len[..|len|] == len;
    digest := ctx.Final();
  }

  /** sha1_vector; the result may overwrite one of the data areas. */
  method Sha1Vector(addr: seq<array<byte>>, len: seq<nat>, mac: array<byte>)
    requires Areas(addr, len) && mac.Length >= 20
    modifies mac
    ensures mac[..20] == Sha1.Digest(old(Joined(addr, len)))
    ensures mac[20..] == old(mac[20..])
  {
    var digest := DigestAreas(addr, len);
    Store(mac, digest);
  }

  method Store(mac: array<byte>, digest: seq<byte>)
    requires |digest| == 20 <= mac.Length
    modifies mac
    ensures mac[..20] == digest && mac[20..] == old(mac[20..])
  {
    Memcpy(mac, 0, digest);
    assert mac[..] == digest + old(mac[20..]);
  }

  // ----- hmac_sha1_vector -----

  method PadKey(kPad: array<byte>, key: array<byte>, keyLen: nat)
    requires kPad.Length == 64 && keyLen <= key.Length && keyLen <= 64 && kPad != key
    modifies kPad
    ensures kPad[..] == key[..keyLen] + Zeros(64 - keyLen)
  {
    Memcpy(kPad, 0, Zeros(64));
    assert kPad[..] == Zeros(64);
    Memcpy(kPad, 0, key[..keyLen]);
    assert Zeros(64)[keyLen..] == Zeros(64 - keyLen);
  }

  /** The block key XORed with a pad, in the buffer k_pad. */
  method FillPad(kPad: array<byte>, key: array<byte>, keyLen: nat, pad: byte)
    requires kPad.Length == 64 && keyLen <= key.Length && keyLen <= 64 && kPad != key
    modifies kPad
    ensures kPad[..] == XorAll(key[..keyLen] + Zeros(64 - keyLen), pad)
  {
    hide Xor;
    PadKey(kPad, key, keyLen);
    ghost var k := kPad[..];
    for i := 0 to 64
      invariant forall j | 0 <= j < i :: kPad[j] == Xor(k[j], pad)
      invariant forall j | i <= j < 64 :: kPad[j] == k[j]
    {
      kPad[i] := Xor(kPad[i], pad);
    }
  }

  lemma ShortBlockKey(key: seq<byte>)
    requires |key| <= 64
    ensures BlockKey(key) == key + Zeros(64 - |key|)
  {
  }

  lemma LongBlockKey(key: seq<byte>)
    requires |key| > 64
    ensures BlockKey(key) == Sha1.Digest(key) + Zeros(44)
  {
  }

  /** With one key for both it is that of RFC 2104. */
  lemma SameKeyTwice(key: seq<byte>, text: seq<byte>)
    ensures TwoKeys(key, key, text) == Hmac(key, text)
  {
    hide Sha1.Digest, XorAll, BlockKey;
  }

  /**
   hmac_sha1_vector.  `mac` receives the inner digest, is hashed again, and
   receives the result.  A key of up to 64 bytes is read again after the inner digest
   is stored, so that it is another key then if it is in `mac` itself.
   */
  method HmacSha1Vector(key: array<byte>, keyLen: nat, addr: seq<array<byte>>, len: seq<nat>, mac: array<byte>) returns (ret: int)
    requires keyLen <= key.Length && keyLen < Sha1.MAX_LEN
    requires Areas(addr, len) && mac.Length >= 20
    modifies mac
    ensures ret == if |addr| > 5 then -1 else 0
    ensures ret == 0 && (key != mac || keyLen > 64) ==> mac[..20] == Hmac(old(key[..keyLen]), old(Joined(addr, len)))
    ensures ret == 0 && key == mac && keyLen <= 64 ==>
              var was, text := old(key[..keyLen]), old(Joined(addr, len));
              mac[..20] == TwoKeys(was, Overwritten(was, InnerDigest(was, text)), text)
    ensures ret == 0 ==> mac[20..] == old(mac[20..])
    ensures ret != 0 ==> mac[..] == old(mac[..])
  {
    hide Sha1.Digest, Joined, XorAll, Zeros, TwoKeys, InnerDigest, Overwritten, BlockKey, Hmac;
    if |addr| > 5 {
      return -1;
    }
    ghost var text, was := Joined(addr, len), key[..keyLen];
    SameKeyTwice(was, text);
    if keyLen > 64 {
      var tk := new byte[20](i => 0);
      Sha1Vector([key], [keyLen], tk);
      OneArea(key, keyLen);
      LongBlockKey(was);
      InnerAndOuter(tk, 20, addr, len, mac, was);
    } else {
      ShortBlockKey(was);
      InnerAndOuter(key, keyLen, addr, len, mac, was);
    }
    ret := 0;
  }

  /** The two digests, with a key of at most 64 bytes. */
  method InnerAndOuter(key: array<byte>, keyLen: nat, addr: seq<array<byte>>, len: seq<nat>, mac: array<byte>, ghost was: seq<byte>)
    requires keyLen <= key.Length && keyLen <= 64 && Areas(addr, len) && mac.Length >= 20
    requires BlockKey(was) == key[..keyLen] + Zeros(64 - keyLen)
    modifies mac
    ensures key != mac ==> mac[..20] == TwoKeys(was, was, old(Joined(addr, len)))
    ensures key == mac ==>
              var k, text := old(key[..keyLen]), old(Joined(addr, len));
              mac[..20] == TwoKeys(was, Overwritten(k, InnerDigest(was, text)), text)
    ensures mac[20..] == old(mac[20..])
  {
    hide Sha1.Digest, Joined, XorAll, Zeros, BlockKey;
    ghost var text, k := Joined(addr, len), key[..keyLen];
    var kPad := new byte[64](i => 0);
    FillPad(kPad, key, keyLen, IPAD);
    JoinedFirst(kPad, addr, len);
    Sha1Vector([kPad] + addr, [64] + len, mac);
    assert mac[..20] == InnerDigest(was, text);
    ghost var again := key[..keyLen];
    if key == mac {
      StoredOver(key[..], k, InnerDigest(was, text));
      ShortBlockKey(again);
    }
    FillPad(kPad, key, keyLen, OPAD);
    TwoAreas(kPad, mac);
    Sha1Vector([kPad, mac], [64, 20], mac);
  }

  lemma StoredOver(now: seq<byte>, k: seq<byte>, digest: seq<byte>)
    requires |k| <= |now| && |digest| == 20 <= |now| && now[..20] == digest
    requires forall i | 20 <= i < |k| :: now[i] == k[i]
    ensures now[..|k|] == Overwritten(k, digest)
  {
  }

  lemma OneArea(a: array<byte>, n: nat)
    requires n <= a.Length && n < Sha1.MAX_LEN
    ensures Areas([a], [n]) && Joined([a], [n]) == a[..n]
  {
    assert Joined([a], [n]) == a[..n] + Joined([], []);
  }

  lemma TwoAreas(a: array<byte>, b: array<byte>)
    requires a.Length == 64 && b.Length >= 20
    ensures Areas([a, b], [64, 20]) && Joined([a, b], [64, 20]) == a[..] + b[..20]
  {
    OneArea(b, 20);
    assert [a, b][1..] == [b] && [64, 20][1..] == [20];
  }

  lemma JoinedFirst(a: array<byte>, addr: seq<array<byte>>, len: seq<nat>)
    requires a.Length == 64 && Areas(addr, len)
    ensures Areas([a] + addr, [64] + len) && Joined([a] + addr, [64] + len) == a[..] + Joined(addr, len)
  {
    assert ([a] + addr)[1..] == addr && ([64] + len)[1..] == len;
  }

  /** hmac_sha1: one data area. */
  method HmacSha1(key: array<byte>, keyLen: nat, data: array<byte>, dataLen: nat, mac: array<byte>) returns (ret: int)
    requires keyLen <= key.Length && keyLen < Sha1.MAX_LEN
    requires dataLen <= data.Length && dataLen < Sha1.MAX_LEN && mac.Length >= 20
    modifies mac
    ensures ret == 0 && mac[20..] == old(mac[20..])
    ensures key != mac || keyLen > 64 ==> mac[..20] == Hmac(old(key[..keyLen]), old(data[..dataLen]))
    ensures key == mac && keyLen <= 64 ==>
              var was, text := old(key[..keyLen]), old(data[..dataLen]);
              mac[..20] == TwoKeys(was, Overwritten(was, InnerDigest(was, text)), text)
  {
    OneArea(data, dataLen);
    ret := HmacSha1Vector(key, keyLen, [data], [dataLen], mac);
  }
}
