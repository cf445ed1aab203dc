/**
 SHA-1 (sha1-internal.c), against sections 4 to 8 of FIPS PUB 180-1.
 */
module Sha1 {
  import opened Blocks
  import opened Memory

  // ----- FIPS PUB 180-1 -----

  datatype State = State(a: bv32, b: bv32, c: bv32, d: bv32, e: bv32)

  const INITIAL := State(0x67452301, 0xEFCDAB89, 0x98BADCFE, 0x10325476, 0xC3D2E1F0)

  /** Section 5. */
  function F(t: nat, b: bv32, c: bv32, d: bv32): bv32 {
    if t < 20 then Ch(b, c, d) else if t < 40 then Parity(b, c, d) else if t < 60 then Maj(b, c, d) else Parity(b, c, d)
  }

  function Ch(b: bv32, c: bv32, d: bv32): bv32 { (b & c) | (!b & d) }

  function Parity(b: bv32, c: bv32, d: bv32): bv32 { b ^ c ^ d }

  function Maj(b: bv32, c: bv32, d: bv32): bv32 { (b & c) | (b & d) | (c & d) }

  /** Section 6. */
  function K(t: nat): bv32 {
    if t < 20 then 0x5A827999 else if t < 40 then 0x6ED9EBA1 else if t < 60 then 0x8F1BBCDC else 0xCA62C1D6
  }

  /** Word `n` of a block, high-order byte first (section 2). */
  function BigWord(block: Block, n: nat): bv32
    requires n < 16
  {
    BigOf(block[4 * n] as bv8, block[4 * n + 1] as bv8, block[4 * n + 2] as bv8, block[4 * n + 3] as bv8)
  }

  function BigOf(b0: bv8, b1: bv8, b2: bv8, b3: bv8): bv32 {
    (b0 as bv32 << 24) | (b1 as bv32 << 16) | (b2 as bv32 << 8) | (b3 as bv32)
  }

  /** The 80 words of section 7. */
  function W(block: Block, t: nat): bv32 {
    if t < 16 then BigWord(block, t)
    else Rotl(W(block, t - 3) ^ W(block, t - 8) ^ W(block, t - 14) ^ W(block, t - 16), 1)
  }

  /** S5(A) + f(B,C,D) + E + W + K */
  function Temp(a: bv32, f: bv32, e: bv32, w: bv32, k: bv32): bv32 {
    Rotl(a, 5) + f + e + w + k
  }

  /** One turn of step d: the five words shift by one. */
  function Turn(st: State, block: Block, t: nat): State {
    State(Temp(st.a, F(t, st.b, st.c, st.d), st.e, W(block, t), K(t)), st.a, Rotl(st.b, 30), st.c, st.d)
  }

  function Run(st: State, block: Block, n: nat): State {
    if n == 0 then st else Turn(Run(st, block, n - 1), block, n - 1)
  }

  function Compress(st: State, block: Block): State {
    var r := Run(st, block, 80);
    State(Plus(st.a, r.a), Plus(st.b, r.b), Plus(st.c, r.c), Plus(st.d, r.d), Plus(st.e, r.e))
  }

  /** `n` bytes of a number, high-order byte first. */
  function BigEndian(v: nat, n: nat): (s: seq<byte>)
    ensures |s| == n
  {
    if n == 0 then [] else BigEndian(v / 256, n - 1) + [v % 256]
  }

  /** Section 4. */
  function Padded(message: seq<byte>): seq<byte> {
    message + Padding(|message|, BigEndian(8 * |message| % 0x1_0000_0000_0000_0000, 8))
  }

  function WordBytes(w: bv32): (s: seq<byte>)
    ensures |s| == 4
  {
    BigEndian(w as int, 4)
  }

  function Digest(message: seq<byte>): (s: seq<byte>)
    ensures |s| == 20
  {
    StateBytes(Fold(Compress, INITIAL, Padded(message)))
  }

  function StateBytes(st: State): (s: seq<byte>)
    ensures |s| == 20
  {
    WordBytes(st.a) + WordBytes(st.b) + WordBytes(st.c) + WordBytes(st.d) + WordBytes(st.e)
  }

  // ----- SHA1Transform -----

  /** Word `n` of the block as memory holds it on a little-endian machine. */
  function LittleWord(block: Block, n: nat): bv32
    requires n < 16
  {
    LittleOf(block[4 * n] as bv8, block[4 * n + 1] as bv8, block[4 * n + 2] as bv8, block[4 * n + 3] as bv8)
  }

  function LittleOf(b0: bv8, b1: bv8, b2: bv8, b3: bv8): bv32 {
    (b0 as bv32) | (b1 as bv32 << 8) | (b2 as bv32 << 16) | (b3 as bv32 << 24)
  }

  /** The expression of the macro blk0, with its two rotations written out. */
  function Swapped(l: bv32): bv32 {
    (((l << 24) | (l >> 8)) & 0xFF00FF00) | (((l << 8) | (l >> 24)) & 0x00FF00FF)
  }

  lemma SwappedIsBig(block: Block, n: nat)
    requires n < 16
    ensures Swapped(LittleWord(block, n)) == BigWord(block, n)
  {
    hide Swapped, LittleOf, BigOf;
    ByteSwap(block[4 * n] as bv8, block[4 * n + 1] as bv8, block[4 * n + 2] as bv8, block[4 * n + 3] as bv8);
  }

  lemma ByteSwap(b0: bv8, b1: bv8, b2: bv8, b3: bv8)
    ensures Swapped(LittleOf(b0, b1, b2, b3)) == BigOf(b0, b1, b2, b3)
  {
  }

  /** The last word below `i` that belongs in slot `j` of the workspace. */
  function LastIndex(i: nat, j: nat): (t: nat)
    requires j < i
  {
    j + 16 * ((i - 1 - j) / 16)
  }

  /** What slot `j` holds before operation `i`. */
  function Slot(block: Block, i: nat, j: nat): bv32
    requires j < 16
  {
    if j < i then W(block, LastIndex(i, j)) else LittleWord(block, j)
  }

  /** The 16-word workspace holds the last 16 of the words. */
  ghost predicate Window(l: seq<bv32>, block: Block, i: nat) {
    |l| == 16 && forall j | 0 <= j < 16 :: l[j] == Slot(block, i, j)
  }

  lemma WindowAt(l: seq<bv32>, block: Block, i: nat, j: nat)
    requires Window(l, block, i) && j < 16
    ensures |l| == 16 && l[j] == Slot(block, i, j)
  {
    hide Slot;
  }

  lemma SlotStays(block: Block, i: nat, j: nat)
    requires j < 16 && j != i % 16
    ensures Slot(block, i + 1, j) == Slot(block, i, j)
  {
    hide W, LittleWord;
    if j < i {
      assert (i - j) / 16 == (i - 1 - j) / 16;
    }
  }

  lemma SlotChanges(block: Block, i: nat)
    ensures Slot(block, i + 1, i % 16) == W(block, i)
  {
    hide W, LittleWord;
    assert LastIndex(i + 1, i % 16) == i;
  }

  lemma WindowNext(l: seq<bv32>, block: Block, i: nat, word: bv32)
    requires Window(l, block, i) && word == W(block, i)
    ensures |l| == 16 && Window(l[i % 16 := word], block, i + 1)
  {
    hide W, Slot;
    SlotChanges(block, i);
    var after := l[i % 16 := word];
    forall j | 0 <= j < 16 ensures after[j] == Slot(block, i + 1, j) {
      if j != i % 16 {
        SlotStays(block, i, j);
      }
    }
  }

  /** The slots that the macro blk reads. */
  lemma FourSlots(l: seq<bv32>, block: Block, i: nat)
    requires Window(l, block, i) && i >= 16
    ensures |l| == 16
    ensures l[(i + 13) % 16] == W(block, i - 3) && l[(i + 8) % 16] == W(block, i - 8)
    ensures l[(i + 2) % 16] == W(block, i - 14) && l[i % 16] == W(block, i - 16)
  {
    hide W, LittleWord, Slot, Window;
    SlotHolds(l, block, i, 3);
    SlotHolds(l, block, i, 8);
    SlotHolds(l, block, i, 14);
    SlotHolds(l, block, i, 16);
    SixteenBack(i);
  }

  lemma SixteenBack(i: nat)
    requires i >= 16
    ensures (i + 13) % 16 == (i - 3) % 16 && (i + 8) % 16 == (i - 8) % 16 && (i + 2) % 16 == (i - 14) % 16 && i % 16 == (i - 16) % 16
  {
    SixteenMore(i - 3);
    SixteenMore(i - 8);
    SixteenMore(i - 14);
    SixteenMore(i - 16);
  }

  lemma SixteenMore(n: nat)
    ensures (n + 16) % 16 == n % 16
  {
  }

  /** Word number `i - d` is still in its slot. */
  lemma SlotHolds(l: seq<bv32>, block: Block, i: nat, d: nat)
    requires Window(l, block, i) && 1 <= d <= 16 <= i
    ensures |l| == 16 && l[(i - d) % 16] == W(block, i - d)
  {
    hide W, LittleWord, Window;
    WindowAt(l, block, i, (i - d) % 16);
    assert LastIndex(i, (i - d) % 16) == i - d;
  }

  method Blk0(l: array<bv32>, i: nat, ghost block: Block) returns (word: bv32)
    requires i < 16 && Window(l[..], block, i)
    modifies l
    ensures Window(l[..], block, i + 1) && word == W(block, i)
  {
    hide Window, W, Swapped, LittleWord, BigWord;
    WindowAt(l[..], block, i, i);
    SwappedIsBig(block, i);
    FirstWords(block, i);
    word := Swapped(l[i]);
    WindowNext(l[..], block, i, word);
    ghost var was := l[..];
    l[i] := word;
    assert l[..] == was[i % 16 := word];
  }

  lemma FirstWords(block: Block, i: nat)
    requires i < 16
    ensures W(block, i) == BigWord(block, i)
  {
    hide BigWord;
  }

  method Blk(l: array<bv32>, i: nat, ghost block: Block) returns (word: bv32)
    requires i >= 16 && Window(l[..], block, i)
    modifies l
    ensures Window(l[..], block, i + 1) && word == W(block, i)
  {
    hide Window, W, Mixed;
    FourSlots(l[..], block, i);
    NextWord(block, i);
    word := Mixed(l[(i + 13) % 16], l[(i + 8) % 16], l[(i + 2) % 16], l[i % 16]);
    WindowNext(l[..], block, i, word);
    ghost var was := l[..];
    l[i % 16] := word;
    assert l[..] == was[i % 16 := word];
  }

  function Mixed(w3: bv32, w8: bv32, w14: bv32, w16: bv32): bv32 {
    Rotl(w3 ^ w8 ^ w14 ^ w16, 1)
  }

  lemma NextWord(block: Block, i: nat)
    requires i >= 16
    ensures W(block, i) == Mixed(W(block, i - 3), W(block, i - 8), W(block, i - 14), W(block, i - 16))
  {
  }

  // The functions as the macros R0 to R4 write them.

  function ChoiceOf(w: bv32, x: bv32, y: bv32): bv32 { (w & (x ^ y)) ^ y }

  function MajorityOf(w: bv32, x: bv32, y: bv32): bv32 { ((w | x) & y) | (w & x) }

  lemma ChoiceIsCh(w: bv32, x: bv32, y: bv32)
    ensures ChoiceOf(w, x, y) == Ch(w, x, y)
  {
    ChoiceBits(w, x, y);
  }

  lemma ChoiceBits(w: bv32, x: bv32, y: bv32)
    ensures (w & (x ^ y)) ^ y == (w & x) | (!w & y)
  {
  }

  lemma MajorityIsMaj(w: bv32, x: bv32, y: bv32)
    ensures MajorityOf(w, x, y) == Maj(w, x, y)
  {
    MajorityBits(w, x, y);
  }

  lemma MajorityBits(w: bv32, x: bv32, y: bv32)
    ensures ((w | x) & y) | (w & x) == (w & x) | (w & y) | (x & y)
  {
  }

  /** The sum in the order of the macros. */
  function Sum(v: bv32, f: bv32, z: bv32, word: bv32, k: bv32): (r: bv32)
    ensures r == Temp(v, f, z, word, k)
  {
    hide Rotl;
    SumOrder(Rotl(v, 5), f, z, word, k);
    z + (f + word + k + Rotl(v, 5))
  }

  lemma SumOrder(v: bv32, f: bv32, z: bv32, word: bv32, k: bv32)
    ensures z + (f + word + k + v) == v + f + z + word + k
  {
  }

  lemma TurnIs(start: State, block: Block, i: nat, v: bv32, w: bv32, x: bv32, y: bv32, z: bv32)
    requires Run(start, block, i) == State(v, w, x, y, z)
    ensures Run(start, block, i + 1) == State(Temp(v, F(i, w, x, y), z, W(block, i), K(i)), v, Rotl(w, 30), x, y)
  {
    hide F, W, K, Temp, Rotl;
  }

  method R0(v: bv32, w: bv32, x: bv32, y: bv32, z: bv32, i: nat, l: array<bv32>, ghost block: Block, ghost start: State)
    returns (newZ: bv32, newW: bv32)
    requires i < 16 && Run(start, block, i) == State(v, w, x, y, z) && Window(l[..], block, i)
    modifies l
    ensures Run(start, block, i + 1) == State(newZ, v, newW, x, y) && Window(l[..], block, i + 1)
  {
    hide Run, Window, W, Temp, Rotl, Ch, Parity, Maj, ChoiceOf, MajorityOf, Sum;
    ChoiceIsCh(w, x, y);
    TurnIs(start, block, i, v, w, x, y, z);
    var word := Blk0(l, i, block);
    newZ := Sum(v, ChoiceOf(w, x, y), z, word, 0x5A827999);
    newW := Rotl(w, 30);
  }

  method R1(v: bv32, w: bv32, x: bv32, y: bv32, z: bv32, i: nat, l: array<bv32>, ghost block: Block, ghost start: State)
    returns (newZ: bv32, newW: bv32)
    requires 16 <= i < 20 && Run(start, block, i) == State(v, w, x, y, z) && Window(l[..], block, i)
    modifies l
    ensures Run(start, block, i + 1) == State(newZ, v, newW, x, y) && Window(l[..], block, i + 1)
  {
    hide Run, Window, W, Temp, Rotl, Ch, Parity, Maj, ChoiceOf, MajorityOf, Sum;
    ChoiceIsCh(w, x, y);
    TurnIs(start, block, i, v, w, x, y, z);
    var word := Blk(l, i, block);
    newZ := Sum(v, ChoiceOf(w, x, y), z, word, 0x5A827999);
    newW := Rotl(w, 30);
  }

  method R2(v: bv32, w: bv32, x: bv32, y: bv32, z: bv32, i: nat, l: array<bv32>, ghost block: Block, ghost start: State)
    returns (newZ: bv32, newW: bv32)
    requires 20 <= i < 40 && Run(start, block, i) == State(v, w, x, y, z) && Window(l[..], block, i)
    modifies l
    ensures Run(start, block, i + 1) == State(newZ, v, newW, x, y) && Window(l[..], block, i + 1)
  {
    hide Run, Window, W, Temp, Rotl, Ch, Parity, Maj, ChoiceOf, MajorityOf, Sum;
    TurnIs(start, block, i, v, w, x, y, z);
    var word := Blk(l, i, block);
    newZ := Sum(v, Parity(w, x, y), z, word, 0x6ED9EBA1);
    newW := Rotl(w, 30);
  }

  method R3(v: bv32, w: bv32, x: bv32, y: bv32, z: bv32, i: nat, l: array<bv32>, ghost block: Block, ghost start: State)
    returns (newZ: bv32, newW: bv32)
    requires 40 <= i < 60 && Run(start, block, i) == State(v, w, x, y, z) && Window(l[..], block, i)
    modifies l
    ensures Run(start, block, i + 1) == State(newZ, v, newW, x, y) && Window(l[..], block, i + 1)
  {
    hide Run, Window, W, Temp, Rotl, Ch, Parity, Maj, ChoiceOf, MajorityOf, Sum;
    MajorityIsMaj(w, x, y);
    TurnIs(start, block, i, v, w, x, y, z);
    var word := Blk(l, i, block);
    newZ := Sum(v, MajorityOf(w, x, y), z, word, 0x8F1BBCDC);
    newW := Rotl(w, 30);
  }

  method R4(v: bv32, w: bv32, x: bv32, y: bv32, z: bv32, i: nat, l: array<bv32>, ghost block: Block, ghost start: State)
    returns (newZ: bv32, newW: bv32)
    requires 60 <= i < 80 && Run(start, block, i) == State(v, w, x, y, z) && Window(l[..], block, i)
    modifies l
    ensures Run(start, block, i + 1) == State(newZ, v, newW, x, y) && Window(l[..], block, i + 1)
  {
    hide Run, Window, W, Temp, Rotl, Ch, Parity, Maj, ChoiceOf, MajorityOf, Sum;
    TurnIs(start, block, i, v, w, x, y, z);
    var word := Blk(l, i, block);
    newZ := Sum(v, Parity(w, x, y), z, word, 0xCA62C1D6);
    newW := Rotl(w, 30);
  }

  // The 80 operations, 20 at a time, with their arguments rotated by one place each time.

  method Operations1(a0: bv32, b0: bv32, c0: bv32, d0: bv32, e0: bv32, l: array<bv32>, ghost block: Block, ghost start: State)
    returns (a: bv32, b: bv32, c: bv32, d: bv32, e: bv32)
    requires Run(start, block, 0) == State(a0, b0, c0, d0, e0) && Window(l[..], block, 0)
    modifies l
    ensures Run(start, block, 20) == State(a, b, c, d, e) && Window(l[..], block, 20)
  {
    hide *;
    a, b, c, d, e := a0, b0, c0, d0, e0;
    e, b := R0(a, b, c, d, e, 0, l, block, start);
    d, a := R0(e, a, b, c, d, 1, l, block, start);
    c, e := R0(d, e, a, b, c, 2, l, block, start);
    b, d := R0(c, d, e, a, b, 3, l, block, start);
    a, c := R0(b, c, d, e, a, 4, l, block, start);
    e, b := R0(a, b, c, d, e, 5, l, block, start);
    d, a := R0(e, a, b, c, d, 6, l, block, start);
    c, e := R0(d, e, a, b, c, 7, l, block, start);
    b, d := R0(c, d, e, a, b, 8, l, block, start);
    a, c := R0(b, c, d, e, a, 9, l, block, start);
    e, b := R0(a, b, c, d, e, 10, l, block, start);
    d, a := R0(e, a, b, c, d, 11, l, block, start);
    c, e := R0(d, e, a, b, c, 12, l, block, start);
    b, d := R0(c, d, e, a, b, 13, l, block, start);
    a, c := R0(b, c, d, e, a, 14, l, block, start);
    e, b := R0(a, b, c, d, e, 15, l, block, start);
    d, a := R1(e, a, b, c, d, 16, l, block, start);
    c, e := R1(d, e, a, b, c, 17, l, block, start);
    b, d := R1(c, d, e, a, b, 18, l, block, start);
    a, c := R1(b, c, d, e, a, 19, l, block, start);
  }

  method Operations2(a0: bv32, b0: bv32, c0: bv32, d0: bv32, e0: bv32, l: array<bv32>, ghost block: Block, ghost start: State)
    returns (a: bv32, b: bv32, c: bv32, d: bv32, e: bv32)
    requires Run(start, block, 20) == State(a0, b0, c0, d0, e0) && Window(l[..], block, 20)
    modifies l
    ensures Run(start, block, 40) == State(a, b, c, d, e) && Window(l[..], block, 40)
  {
    hide *;
    a, b, c, d, e := a0, b0, c0, d0, e0;
    e, b := R2(a, b, c, d, e, 20, l, block, start);
    d, a := R2(e, a, b, c, d, 21, l, block, start);
    c, e := R2(d, e, a, b, c, 22, l, block, start);
    b, d := R2(c, d, e, a, b, 23, l, block, start);
    a, c := R2(b, c, d, e, a, 24, l, block, start);
    e, b := R2(a, b, c, d, e, 25, l, block, start);
    d, a := R2(e, a, b, c, d, 26, l, block, start);
    c, e := R2(d, e, a, b, c, 27, l, block, start);
    b, d := R2(c, d, e, a, b, 28, l, block, start);
    a, c := R2(b, c, d, e, a, 29, l, block, start);
    e, b := R2(a, b, c, d, e, 30, l, block, start);
    d, a := R2(e, a, b, c, d, 31, l, block, start);
    c, e := R2(d, e, a, b, c, 32, l, block, start);
    b, d := R2(c, d, e, a, b, 33, l, block, start);
    a, c := R2(b, c, d, e, a, 34, l, block, start);
    e, b := R2(a, b, c, d, e, 35, l, block, start);
    d, a := R2(e, a, b, c, d, 36, l, block, start);
    c, e := R2(d, e, a, b, c, 37, l, block, start);
    b, d := R2(c, d, e, a, b, 38, l, block, start);
    a, c := R2(b, c, d, e, a, 39, l, block, start);
  }

  method Operations3(a0: bv32, b0: bv32, c0: bv32, d0: bv32, e0: bv32, l: array<bv32>, ghost block: Block, ghost start: State)
    returns (a: bv32, b: bv32, c: bv32, d: bv32, e: bv32)
    requires Run(start, block, 40) == State(a0, b0, c0, d0, e0) && Window(l[..], block, 40)
    modifies l
    ensures Run(start, block, 60) == State(a, b, c, d, e) && Window(l[..], block, 60)
  {
    hide *;
    a, b, c, d, e := a0, b0, c0, d0, e0;
    e, b := R3(a, b, c, d, e, 40, l, block, start);
    d, a := R3(e, a, b, c, d, 41, l, block, start);
    c, e := R3(d, e, a, b, c, 42, l, block, start);
    b, d := R3(c, d, e, a, b, 43, l, block, start);
    a, c := R3(b, c, d, e, a, 44, l, block, start);
    e, b := R3(a, b, c, d, e, 45, l, block, start);
    d, a := R3(e, a, b, c, d, 46, l, block, start);
    c, e := R3(d, e, a, b, c, 47, l, block, start);
    b, d := R3(c, d, e, a, b, 48, l, block, start);
    a, c := R3(b, c, d, e, a, 49, l, block, start);
    e, b := R3(a, b, c, d, e, 50, l, block, start);
    d, a := R3(e, a, b, c, d, 51, l, block, start);
    c, e := R3(d, e, a, b, c, 52, l, block, start);
    b, d := R3(c, d, e, a, b, 53, l, block, start);
    a, c := R3(b, c, d, e, a, 54, l, block, start);
    e, b := R3(a, b, c, d, e, 55, l, block, start);
    d, a := R3(e, a, b, c, d, 56, l, block, start);
    c, e := R3(d, e, a, b, c, 57, l, block, start);
    b, d := R3(c, d, e, a, b, 58, l, block, start);
    a, c := R3(b, c, d, e, a, 59, l, block, start);
  }

  method Operations4(a0: bv32, b0: bv32, c0: bv32, d0: bv32, e0: bv32, l: array<bv32>, ghost block: Block, ghost start: State)
    returns (a: bv32, b: bv32, c: bv32, d: bv32, e: bv32)
    requires Run(start, block, 60) == State(a0, b0, c0, d0, e0) && Window(l[..], block, 60)
    modifies l
    ensures Run(start, block, 80) == State(a, b, c, d, e) && Window(l[..], block, 80)
  {
    hide *;
    a, b, c, d, e := a0, b0, c0, d0, e0;
    e, b := R4(a, b, c, d, e, 60, l, block, start);
    d, a := R4(e, a, b, c, d, 61, l, block, start);
    c, e := R4(d, e, a, b, c, 62, l, block, start);
    b, d := R4(c, d, e, a, b, 63, l, block, start);
    a, c := R4(b, c, d, e, a, 64, l, block, start);
    e, b := R4(a, b, c, d, e, 65, l, block, start);
    d, a := R4(e, a, b, c, d, 66, l, block, start);
    c, e := R4(d, e, a, b, c, 67, l, block, start);
    b, d := R4(c, d, e, a, b, 68, l, block, start);
    a, c := R4(b, c, d, e, a, 69, l, block, start);
    e, b := R4(a, b, c, d, e, 70, l, block, start);
    d, a := R4(e, a, b, c, d, 71, l, block, start);
    c, e := R4(d, e, a, b, c, 72, l, block, start);
    b, d := R4(c, d, e, a, b, 73, l, block, start);
    a, c := R4(b, c, d, e, a, 74, l, block, start);
    e, b := R4(a, b, c, d, e, 75, l, block, start);
    d, a := R4(e, a, b, c, d, 76, l, block, start);
    c, e := R4(d, e, a, b, c, 77, l, block, start);
    b, d := R4(c, d, e, a, b, 78, l, block, start);
    a, c := R4(b, c, d, e, a, 79, l, block, start);
  }

  /** The words of the block are copied to a workspace, in which the 80 words are computed in place. */
  method Transform(state: State, buffer: Block) returns (newState: State)
    ensures newState == Compress(state, buffer)
  {
    hide *;
    var l := new bv32[16](n requires 0 <= n < 16 => LittleWord(buffer, n));
    StartWindow(l[..], buffer);
    var a, b, c, d, e := state.a, state.b, state.c, state.d, state.e;
    RunStart(state, buffer);
    a, b, c, d, e := Operations1(a, b, c, d, e, l, buffer, state);
    a, b, c, d, e := Operations2(a, b, c, d, e, l, buffer, state);
    a, b, c, d, e := Operations3(a, b, c, d, e, l, buffer, state);
    a, b, c, d, e := Operations4(a, b, c, d, e, l, buffer, state);
    CompressAdds(state, buffer, State(a, b, c, d, e));
    newState := State(Plus(state.a, a), Plus(state.b, b), Plus(state.c, c), Plus(state.d, d), Plus(state.e, e));
  }

  lemma StartWindow(l: seq<bv32>, block: Block)
    requires |l| == 16 && forall n | 0 <= n < 16 :: l[n] == LittleWord(block, n)
    ensures Window(l, block, 0)
  {
    hide LittleWord, W;
  }

  lemma RunStart(st: State, block: Block)
    ensures Run(st, block, 0) == st
  {
  }

  lemma CompressAdds(st: State, block: Block, r: State)
    requires r == Run(st, block, 80)
    ensures Compress(st, block) == State(Plus(st.a, r.a), Plus(st.b, r.b), Plus(st.c, r.c), Plus(st.d, r.d), Plus(st.e, r.e))
  {
    hide Run, Plus;
  }

  // ----- SHA1Init, SHA1Update, SHA1Final -----

  /** Length of a string of data for which `j + len` and `i + 63` stay below 2^32. */
  const MAX_LEN: nat := 0x1_0000_0000 - 64

  /** The two counters after `len` more bytes, as SHA1Update computes them. */
  lemma CountersAdd(count0: nat, count1: nat, len: nat, bytes: nat)
    requires count0 < 0x1_0000_0000 && count1 < 0x1_0000_0000 && len < 0x1_0000_0000
    requires count1 * 0x1_0000_0000 + count0 == 8 * bytes % 0x1_0000_0000_0000_0000
    ensures var shifted := len * 8 % 0x1_0000_0000; var c0 := (count0 + shifted) % 0x1_0000_0000;
            var c1 := ((if c0 < shifted then (count1 + 1) % 0x1_0000_0000 else count1) + len / 0x2000_0000) % 0x1_0000_0000;
            c0 < 0x1_0000_0000 && c1 < 0x1_0000_0000 && c1 * 0x1_0000_0000 + c0 == 8 * (bytes + len) % 0x1_0000_0000_0000_0000
  {
    var shifted := len * 8 % 0x1_0000_0000;
    var c0 := (count0 + shifted) % 0x1_0000_0000;
    var carry := if c0 < shifted then 1 else 0;
    var h := count1 + carry + len / 0x2000_0000;
    var c1 := h % 0x1_0000_0000;
    ShiftedLength(len);
    CarryOut(count0, shifted);
    CarryTwice(count1, carry, len / 0x2000_0000);
    var wraps := h / 0x1_0000_0000 + 8 * bytes / 0x1_0000_0000_0000_0000;
    assert 8 * (bytes + len) == wraps * 0x1_0000_0000_0000_0000 + (c1 * 0x1_0000_0000 + c0);
    Remainder(wraps, c1 * 0x1_0000_0000 + c0, 0x1_0000_0000_0000_0000);
  }

  lemma ShiftedLength(len: nat)
    ensures len * 8 == len / 0x2000_0000 * 0x1_0000_0000 + len * 8 % 0x1_0000_0000
  {
    var q, r := len / 0x2000_0000, len % 0x2000_0000;
    assert len == q * 0x2000_0000 + r;
    Remainder(q, r * 8, 0x1_0000_0000);
  }

  lemma CarryOut(count0: nat, shifted: nat)
    requires count0 < 0x1_0000_0000 && shifted < 0x1_0000_0000
    ensures var c0 := (count0 + shifted) % 0x1_0000_0000;
            count0 + shifted == (if c0 < shifted then 1 else 0) * 0x1_0000_0000 + c0
  {
  }

  lemma CarryTwice(count1: nat, carry: nat, q: nat)
    requires count1 < 0x1_0000_0000 && carry <= 1
    ensures ((if carry == 1 then (count1 + 1) % 0x1_0000_0000 else count1) + q) % 0x1_0000_0000 == (count1 + carry + q) % 0x1_0000_0000
  {
  }

  lemma BytesInBlock(count0: nat, count1: nat, bytes: nat)
    requires count0 < 0x1_0000_0000 && count1 * 0x1_0000_0000 + count0 == 8 * bytes % 0x1_0000_0000_0000_0000
    ensures count0 / 8 % 64 == bytes % 64
  {
    var w := 8 * bytes / 0x1_0000_0000_0000_0000;
    assert bytes == 64 * (w * 0x80_0000_0000_0000 + count1 * 0x80_0000) + count0 / 8;
  }

  class Context {
    var state: State
    var count0: nat
    var count1: nat
    var buffer: array<byte>
    /** all the bytes since initialisation */
    ghost var message: seq<byte>

    ghost predicate Valid()
      reads this, buffer
    {
      && buffer.Length == 64
      && count0 < 0x1_0000_0000 && count1 < 0x1_0000_0000
      && count1 * 0x1_0000_0000 + count0 == 8 * |message| % 0x1_0000_0000_0000_0000
      && state == Fold(Compress, INITIAL, message)
      && buffer[..|message| % 64] == Tail(message)
    }

    /** SHA1Init. */
    constructor ()
      ensures Valid() && message == [] && fresh(buffer)
    {
      state := State(0x67452301, 0xEFCDAB89, 0x98BADCFE, 0x10325476, 0xC3D2E1F0);
      count0, count1 := 0, 0;
      buffer := new byte[64](i => 0);
      message := [];
    }

    /** SHA1Update: the context stands for the old message followed by `data`. */
    method Update(data: seq<byte>)
      requires Valid() && |data| < MAX_LEN
      modifies this, buffer
      ensures Valid() && message == old(message) + data && buffer == old(buffer)
    {
      hide Fold, Compress, Tail;
      ghost var was, st := message, state;
      var j := count0 / 8 % 64;
      BytesInBlock(count0, count1, |was|);
      assert buffer[..j] == Tail(was);
      Count(data);
      if j + |data| > 63 {
        var i := 64 - j;
        Memcpy(buffer, j, data[..i]);
        BlockCompleted(was, data, i, buffer[..]);
        state := Transform(state, buffer[..]);
        AppendFillsBlock(Compress, INITIAL, was, data, buffer[..], data[i..]);
        i := FoldBlocks(data, i);
        Memcpy(buffer, 0, data[i..]);
      } else {
        Memcpy(buffer, j, data);
        AppendWithinBlock(Compress, INITIAL, was, data);
      }
    }

    method Count(data: seq<byte>)
      requires count0 < 0x1_0000_0000 && count1 < 0x1_0000_0000 && |data| < 0x1_0000_0000
      requires count1 * 0x1_0000_0000 + count0 == 8 * |message| % 0x1_0000_0000_0000_0000
      modifies this`count0, this`count1, this`message
      ensures count0 < 0x1_0000_0000 && count1 < 0x1_0000_0000
      ensures count1 * 0x1_0000_0000 + count0 == 8 * |message| % 0x1_0000_0000_0000_0000
      ensures message == old(message) + data
    {
      CountersAdd(count0, count1, |data|, |message|);
      var shifted := |data| * 8 % 0x1_0000_0000;
      count0 := (count0 + shifted) % 0x1_0000_0000;
      if count0 < shifted {
        count1 := (count1 + 1) % 0x1_0000_0000;
      }
      count1 := (count1 + |data| / 0x2000_0000) % 0x1_0000_0000;
      message := message + data;
    }

    /** The loop of SHA1Update over the complete blocks of the data from `start` on. */
    method FoldBlocks(data: seq<byte>, start: nat) returns (i: nat)
      requires start <= |data|
      modifies this`state
      ensures i <= |data| && data[i..] == Tail(data[start..])
      ensures state == Fold(Compress, old(state), data[start..])
    {
      hide Fold, Tail, Compress;
      i := start;
      ghost var st := state;
      while i + 63 < |data|
        invariant start <= i <= |data| && (i - start) % 64 == 0
        invariant Fold(Compress, state, data[i..]) == Fold(Compress, st, data[start..])
        invariant Tail(data[i..]) == Tail(data[start..])
      {
        assert data[i..] == data[i..i + 64] + data[i + 64..];
        FoldBlockFirst(Compress, state, data[i..i + 64], data[i + 64..]);
        TailSuffix(data[i..i + 64], data[i + 64..]);
        state := Transform(state, data[i..i + 64]);
        i := i + 64;
      }
      ShortIsTail(data[i..]);
      ShortFoldsNothing(Compress, state, data[i..]);
    }

    /** SHA1Final: the padding is fed through SHA1Update, byte by byte but for the length; the context is wiped. */
    method Final() returns (digest: seq<byte>)
      requires Valid()
      modifies this, buffer
      ensures digest == Digest(old(message)) && buffer == old(buffer)
      ensures count0 == count1 == 0 && state == State(0, 0, 0, 0, 0) && buffer[..] == Zeros(64)
    {
      hide Fold, Compress, Tail, StateBytes, BigEndian;
      PadByUpdates();
      digest := StateBytes(state);
      Memcpy(buffer, 0, Zeros(64));
      state := State(0, 0, 0, 0, 0);
      count0, count1 := 0, 0;
    }

    method PadByUpdates()
      requires Valid()
      modifies this, buffer
      ensures Valid() && message == Padded(old(message)) && buffer == old(buffer)
    {
      hide Valid, Zeros, BigEndian;
      ghost var was := message;
      CountFacts();
      var finalcount := CountBytes(count0, count1);
      CountField(count0, count1, |was|, finalcount);
      Update([0x80]);
      CountFacts();
      ghost var n := 0;
      assert message == was + [0x80] + Zeros(0) by { NoZeros(was + [0x80]); }
      while count0 / 8 % 64 * 8 != 448
        invariant Valid() && buffer == old(buffer) && count0 / 8 % 64 == |message| % 64
        invariant n <= PadZeros(|was|) && message == was + [0x80] + Zeros(n)
        decreases PadZeros(|was|) - n
      {
        NotYet(|was|, n);
        Update([0]);
        OneMoreZero(was + [0x80], n);
        n := n + 1;
        CountFacts();
      }
      PadZerosIsLeast(|was|, n);
      Update(finalcount);
      PaddedParts(was, finalcount);
    }

    /** What the context says of the length of the message. */
    lemma CountFacts()
      requires Valid()
      ensures count0 < 0x1_0000_0000 && count1 < 0x1_0000_0000
      ensures count1 * 0x1_0000_0000 + count0 == 8 * |message| % 0x1_0000_0000_0000_0000
      ensures count0 / 8 % 64 == |message| % 64
    {
      hide Fold, Tail, Compress;
      BytesInBlock(count0, count1, |message|);
    }
  }

  lemma ShortFoldsNothing<S>(f: (S, Block) -> S, st: S, data: seq<byte>)
    requires |data| < 64
    ensures Fold(f, st, data) == st
  {
  }

  lemma NoZeros(s: seq<byte>)
    ensures s + Zeros(0) == s
  {
  }

  lemma OneMoreZero(s: seq<byte>, n: nat)
    ensures s + Zeros(n) + [0] == s + Zeros(n + 1)
  {
  }

  /** While the message is not 8 bytes short of a block, zeros are missing. */
  lemma NotYet(length: nat, n: nat)
    requires n <= PadZeros(length) && (length + 1 + n) % 64 != 56
    ensures n < PadZeros(length)
  {
  }

  lemma PaddedParts(message: seq<byte>, field: seq<byte>)
    requires field == BigEndian(8 * |message| % 0x1_0000_0000_0000_0000, 8)
    ensures message + [0x80] + Zeros(PadZeros(|message|)) + field == Padded(message)
  {
    hide Zeros, BigEndian, PadZeros;
    PaddingUnfolds(|message|, field);
    Regroup(message, [0x80], Zeros(PadZeros(|message|)), field);
  }

  /** Byte `k` of a number, counted from the low-order end. */
  function ByteOf(v: nat, k: nat): byte
    requires k < 4
  {
    (match k case 0 => v case 1 => v / 0x100 case 2 => v / 0x1_0000 case _ => v / 0x100_0000) % 256
  }

  lemma FourBytes(v: nat)
    ensures BigEndian(v, 4) == [ByteOf(v, 3), ByteOf(v, 2), ByteOf(v, 1), ByteOf(v, 0)]
  {
    var v1, v2, v3 := v / 256, v / 256 / 256, v / 256 / 256 / 256;
    assert BigEndian(v3, 1) == BigEndian(v3 / 256, 0) + [v3 % 256];
    assert BigEndian(v2, 2) == [v3 % 256, v2 % 256];
    assert BigEndian(v1, 3) == [v3 % 256, v2 % 256, v1 % 256];
    assert v2 == v / 0x1_0000 && v3 == v / 0x100_0000;
  }

  lemma {:induction false} BigEndianConcat(y: nat, x: nat, n: nat, m: nat)
    requires x < Power256(m)
    ensures BigEndian(y * Power256(m) + x, n + m) == BigEndian(y, n) + BigEndian(x, m)
  {
    if m == 0 {
      assert BigEndian(x, m) == [];
    } else {
      var v, q := y * Power256(m) + x, y * Power256(m - 1);
      assert y * Power256(m) == 256 * q by { TimesPower(y, Power256(m - 1)); }
      assert v % 256 == x % 256 && v / 256 == q + x / 256;
      BigEndianConcat(y, x / 256, n, m - 1);
    }
  }

  /** The eight bytes of finalcount are the length in bits, modulo 2^64. */
  lemma CountField(count0: nat, count1: nat, bytes: nat, field: seq<byte>)
    requires count0 < 0x1_0000_0000 && count1 * 0x1_0000_0000 + count0 == 8 * bytes % 0x1_0000_0000_0000_0000
    requires |field| == 8 && forall i | 0 <= i < 8 :: field[i] == ByteOf(if i >= 4 then count0 else count1, 3 - i % 4)
    ensures field == BigEndian(8 * bytes % 0x1_0000_0000_0000_0000, 8)
  {
    hide BigEndian, ByteOf, Power256;
    FourthPower();
    BigEndianConcat(count1, count0, 4, 4);
    FourBytes(count0);
    FourBytes(count1);
    assert field == BigEndian(count1, 4) + BigEndian(count0, 4);
  }

  /** The loop that fills finalcount. */
  method CountBytes(count0: nat, count1: nat) returns (finalcount: seq<byte>)
    ensures |finalcount| == 8
    ensures forall i | 0 <= i < 8 :: finalcount[i] == ByteOf(if i >= 4 then count0 else count1, 3 - i % 4)
  {
    hide ByteOf;
    finalcount := [];
    for i := 0 to 8
      invariant |finalcount| == i
      invariant forall j | 0 <= j < i :: finalcount[j] == ByteOf(if j >= 4 then count0 else count1, 3 - j % 4)
    {
      finalcount := finalcount + [ByteOf(if i >= 4 then count0 else count1, 3 - i % 4)];
    }
  }
}
