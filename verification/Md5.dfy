/**
 MD5 (md5.c), against sections 3.1 to 3.5 of RFC 1321.
 */
module Md5 {
  import opened Blocks
  import opened Memory

  // ----- RFC 1321, section 3.4 -----

  datatype State = State(a: bv32, b: bv32, c: bv32, d: bv32)

  /** Section 3.3. */
  const INITIAL := State(0x67452301, 0xefcdab89, 0x98badcfe, 0x10325476)

  function RfcF(x: bv32, y: bv32, z: bv32): bv32 { (x & y) | (!x & z) }

  function RfcG(x: bv32, y: bv32, z: bv32): bv32 { (x & z) | (y & !z) }

  function RfcH(x: bv32, y: bv32, z: bv32): bv32 { x ^ y ^ z }

  function RfcI(x: bv32, y: bv32, z: bv32): bv32 { y ^ (x | !z) }

  /** The table of section 3.4, a row for each round. */
  function T(i: nat): bv32 {
    if i < 16 then T1(i) else if i < 32 then T2(i - 16) else if i < 48 then T3(i - 32) else T4(i - 48)
  }

  function T1(i: nat): bv32 {
    match i
    case 0 => 0xd76aa478
    case 1 => 0xe8c7b756
    case 2 => 0x242070db
    case 3 => 0xc1bdceee
    case 4 => 0xf57c0faf
    case 5 => 0x4787c62a
    case 6 => 0xa8304613
    case 7 => 0xfd469501
    case 8 => 0x698098d8
    case 9 => 0x8b44f7af
    case 10 => 0xffff5bb1
    case 11 => 0x895cd7be
    case 12 => 0x6b901122
    case 13 => 0xfd987193
    case 14 => 0xa679438e
    case _ => 0x49b40821
  }

  function T2(i: nat): bv32 {
    match i
    case 0 => 0xf61e2562
    case 1 => 0xc040b340
    case 2 => 0x265e5a51
    case 3 => 0xe9b6c7aa
    case 4 => 0xd62f105d
    case 5 => 0x02441453
    case 6 => 0xd8a1e681
    case 7 => 0xe7d3fbc8
    case 8 => 0x21e1cde6
    case 9 => 0xc33707d6
    case 10 => 0xf4d50d87
    case 11 => 0x455a14ed
    case 12 => 0xa9e3e905
    case 13 => 0xfcefa3f8
    case 14 => 0x676f02d9
    case _ => 0x8d2a4c8a
  }

  function T3(i: nat): bv32 {
    match i
    case 0 => 0xfffa3942
    case 1 => 0x8771f681
    case 2 => 0x6d9d6122
    case 3 => 0xfde5380c
    case 4 => 0xa4beea44
    case 5 => 0x4bdecfa9
    case 6 => 0xf6bb4b60
    case 7 => 0xbebfbc70
    case 8 => 0x289b7ec6
    case 9 => 0xeaa127fa
    case 10 => 0xd4ef3085
    case 11 => 0x04881d05
    case 12 => 0xd9d4d039
    case 13 => 0xe6db99e5
    case 14 => 0x1fa27cf8
    case _ => 0xc4ac5665
  }

  function T4(i: nat): bv32 {
    match i
    case 0 => 0xf4292244
    case 1 => 0x432aff97
    case 2 => 0xab9423a7
    case 3 => 0xfc93a039
    case 4 => 0x655b59c3
    case 5 => 0x8f0ccc92
    case 6 => 0xffeff47d
    case 7 => 0x85845dd1
    case 8 => 0x6fa87e4f
    case 9 => 0xfe2ce6e0
    case 10 => 0xa3014314
    case 11 => 0x4e0811a1
    case 12 => 0xf7537e82
    case 13 => 0xbd3af235
    case 14 => 0x2ad7d2bb
    case _ => 0xeb86d391
  }

  /** The function of the round that step `i` belongs to. */
  function Func(i: nat, x: bv32, y: bv32, z: bv32): bv32 {
    if i < 16 then RfcF(x, y, z)
    else if i < 32 then RfcG(x, y, z)
    else if i < 48 then RfcH(x, y, z)
    else RfcI(x, y, z)
  }

  /** Which word of the block step `i` adds. */
  function WordIndex(i: nat): (k: nat)
    ensures k < 16
  {
    if i < 16 then i
    else if i < 32 then (5 * i + 1) % 16
    else if i < 48 then (3 * i + 5) % 16
    else 7 * i % 16
  }

  /** By how many places step `i` rotates. */
  function Shift(i: nat): (s: nat)
    ensures s <= 32
  {
    if i < 16 then Quarter(i, 7, 12, 17, 22)
    else if i < 32 then Quarter(i, 5, 9, 14, 20)
    else if i < 48 then Quarter(i, 4, 11, 16, 23)
    else Quarter(i, 6, 10, 15, 21)
  }

  function Quarter(i: nat, s0: nat, s1: nat, s2: nat, s3: nat): nat {
    if i % 4 == 0 then s0 else if i % 4 == 1 then s1 else if i % 4 == 2 then s2 else s3
  }

  /** b + ((a + f + X[k] + T(i)) <<< s) */
  function Mixed(a: bv32, b: bv32, f: bv32, word: bv32, t: bv32, s: nat): bv32
    requires s <= 32
  {
    b + Rotl(a + f + word + t, s)
  }

  /** One operation [abcd k s i], after which the four words change roles: the next one is [dabc ..]. */
  function Operation(st: State, x: seq<bv32>, i: nat): State
    requires |x| == 16 && i < 64
  {
    State(st.d, Mixed(st.a, st.b, Func(i, st.b, st.c, st.d), x[WordIndex(i)], T(i), Shift(i)), st.b, st.c)
  }

  function Run(st: State, x: seq<bv32>, n: nat): State
    requires |x| == 16 && n <= 64
  {
    if n == 0 then st else Operation(Run(st, x, n - 1), x, n - 1)
  }

  /** Word `n` of a block, low-order byte first (section 2). */
  function Word(block: seq<byte>, n: nat): bv32
    requires 4 * n + 4 <= |block|
  {
    ((block[4 * n] as bv8) as bv32) | ((block[4 * n + 1] as bv8) as bv32 << 8)
    | ((block[4 * n + 2] as bv8) as bv32 << 16) | ((block[4 * n + 3] as bv8) as bv32 << 24)
  }

  function Words(block: Block): (x: seq<bv32>)
    ensures |x| == 16
  {
    seq(16, n requires 0 <= n < 16 => Word(block, n))
  }

  function Compress(st: State, block: Block): State {
    var r := Run(st, Words(block), 64);
    State(Plus(r.a, st.a), Plus(r.b, st.b), Plus(r.c, st.c), Plus(r.d, st.d))
  }

  /** `n` bytes of a number, low-order byte first. */
  function LittleEndian(v: nat, n: nat): (s: seq<byte>)
    ensures |s| == n
  {
    if n == 0 then [] else [v % 256] + LittleEndian(v / 256, n - 1)
  }

  /** Sections 3.1 and 3.2: the length in bits is written modulo 2^64. */
  function Padded(message: seq<byte>): seq<byte> {
    message + Padding(|message|, LengthBytes(message))
  }

  function WordBytes(w: bv32): (s: seq<byte>)
    ensures |s| == 4
  {
    LittleEndian(w as int, 4)
  }

  function LengthBytes(message: seq<byte>): (s: seq<byte>)
    ensures |s| == 8
  {
    LittleEndian(8 * |message| % 0x1_0000_0000_0000_0000, 8)
  }

  lemma PaddedUnfolds(message: seq<byte>)
    ensures Padded(message) == message + Padding(|message|, LengthBytes(message))
  {
  }

  /** The tail of the message and its padding, when they fit in one block. */
  predicate OnlyBlock(message: seq<byte>, block: seq<byte>) {
    |message| % 64 < 56 && block == Tail(message) + [0x80] + Zeros(55 - |message| % 64) + LengthBytes(message)
  }

  lemma OnlyBlockIsPadded(message: seq<byte>, block: seq<byte>)
    requires OnlyBlock(message, block)
    ensures Tail(message) + Padding(|message|, LengthBytes(message)) == block
  {
    hide Padding, Zeros, LengthBytes, Tail;
    PaddingInOneBlock(Tail(message), |message|, LengthBytes(message));
  }

  lemma OneLastBlock(message: seq<byte>, block: Block)
    requires OnlyBlock(message, block)
    ensures Fold(Compress, INITIAL, Padded(message)) == Compress(Fold(Compress, INITIAL, message), block)
  {
    hide *;
    OnlyBlockIsPadded(message, block);
    FoldPadded(Compress, INITIAL, message, Padding(|message|, LengthBytes(message)), block);
    PaddedUnfolds(message);
  }

  lemma TwoLastBlocks(message: seq<byte>, block: Block, last: Block)
    requires |message| % 64 >= 56
    requires block == Tail(message) + [0x80] + Zeros(63 - |message| % 64) && last == Zeros(56) + LengthBytes(message)
    ensures Fold(Compress, INITIAL, Padded(message)) == Compress(Compress(Fold(Compress, INITIAL, message), block), last)
  {
    hide *;
    var padding := Padding(|message|, LengthBytes(message));
    assert Tail(message) + padding == block + last by {
      PaddingInTwoBlocks(Tail(message), |message|, LengthBytes(message));
    }
    FoldPaddedTwice(Compress, INITIAL, message, padding, block, last);
    PaddedUnfolds(message);
  }

  /** Section 3.5. */
  function Digest(message: seq<byte>): (s: seq<byte>)
    ensures |s| == 16
  {
    var st := Fold(Compress, INITIAL, Padded(message));
    WordBytes(st.a) + WordBytes(st.b) + WordBytes(st.c) + WordBytes(st.d)
  }

  /** No two messages shorter than 2^61 bytes have the same padded form. */
  lemma PaddedIsInjective(m1: seq<byte>, m2: seq<byte>)
    requires |m1| < 0x2000_0000_0000_0000 && |m2| < 0x2000_0000_0000_0000 && Padded(m1) == Padded(m2)
    ensures m1 == m2
  {
    hide Padding, LittleEndian;
    var l1, l2 := 8 * |m1| % 0x1_0000_0000_0000_0000, 8 * |m2| % 0x1_0000_0000_0000_0000;
    if LittleEndian(l1, 8) == LittleEndian(l2, 8) {
      LittleEndianInjective(l1, l2, 8, 0x1_0000_0000_0000_0000);
    }
    PaddingIsInjective(m1, m2, LittleEndian(l1, 8), LittleEndian(l2, 8));
  }

  lemma {:induction false} LittleEndianInjective(v: nat, w: nat, n: nat, bound: nat)
    requires LittleEndian(v, n) == LittleEndian(w, n) && bound == Power256(n) && v < bound && w < bound
    ensures v == w
  {
    if n > 0 {
      assert LittleEndian(v, n)[0] == v % 256 && LittleEndian(v, n)[1..] == LittleEndian(v / 256, n - 1);
      assert LittleEndian(w, n)[0] == w % 256 && LittleEndian(w, n)[1..] == LittleEndian(w / 256, n - 1);
      LittleEndianInjective(v / 256, w / 256, n - 1, Power256(n - 1));
    }
  }

  // ----- md5.c -----

  // The forms of the round functions that the macros use; the last one is that of the standard.

  function F(x: bv32, y: bv32, z: bv32): bv32 { z ^ (x & (y ^ z)) }

  function G(x: bv32, y: bv32, z: bv32): bv32 { y ^ (z & (x ^ y)) }

  function H(x: bv32, y: bv32, z: bv32): bv32 { (x ^ y) ^ z }

  function H2(x: bv32, y: bv32, z: bv32): bv32 { x ^ (y ^ z) }

  // They are the functions of the standard.

  lemma FFunc(i: nat, x: bv32, y: bv32, z: bv32)
    requires i < 16
    ensures F(x, y, z) == Func(i, x, y, z)
  {
    SelectF(x, y, z);
  }

  lemma GFunc(i: nat, x: bv32, y: bv32, z: bv32)
    requires 16 <= i < 32
    ensures G(x, y, z) == Func(i, x, y, z)
  {
    SelectG(x, y, z);
  }

  lemma HFunc(i: nat, x: bv32, y: bv32, z: bv32)
    requires 32 <= i < 48
    ensures H(x, y, z) == Func(i, x, y, z)
  {
  }

  lemma H2Func(i: nat, x: bv32, y: bv32, z: bv32)
    requires 32 <= i < 48
    ensures H2(x, y, z) == Func(i, x, y, z)
  {
    XorGroups(x, y, z);
  }

  lemma IFunc(i: nat, x: bv32, y: bv32, z: bv32)
    requires 48 <= i < 64
    ensures RfcI(x, y, z) == Func(i, x, y, z)
  {
  }

  lemma SelectF(x: bv32, y: bv32, z: bv32)
    ensures z ^ (x & (y ^ z)) == (x & y) | (!x & z)
  {
  }

  lemma SelectG(x: bv32, y: bv32, z: bv32)
    ensures y ^ (z & (x ^ y)) == (x & z) | (y & !z)
  {
  }

  lemma XorGroups(x: bv32, y: bv32, z: bv32)
    ensures x ^ (y ^ z) == x ^ y ^ z
  {
  }

  /** The three statements of the macro STEP. */
  function StepValue(f: bv32, a: bv32, b: bv32, word: bv32, t: bv32, s: nat): (r: bv32)
    requires s <= 32
    ensures r == Mixed(a, b, f, word, t, s)
  {
    hide Rotl;
    SumOrder(a, f, word, t);
    SumSwap(b, Rotl(a + f + word + t, s));
    Rotl(a + (f + word + t), s) + b
  }

  lemma SumOrder(a: bv32, f: bv32, word: bv32, t: bv32)
    ensures a + (f + word + t) == a + f + word + t
  {
  }

  lemma SumSwap(b: bv32, r: bv32)
    ensures r + b == b + r
  {
  }

  lemma RunNext(st: State, x: seq<bv32>, i: nat)
    requires |x| == 16 && i < 64
    ensures Run(st, x, i + 1) == Operation(Run(st, x, i), x, i)
  {
    hide Operation;
  }

  /** The macro STEP with its arguments in the roles a, b, c and d, as operation number `i`. */
  method Step(f: bv32, a: bv32, b: bv32, c: bv32, d: bv32, word: bv32, t: bv32, s: nat,
              ghost i: nat, ghost start: State, ghost x: seq<bv32>) returns (r: bv32)
    requires i < 64 && |x| == 16 && Run(start, x, i) == State(a, b, c, d)
    requires f == Func(i, b, c, d)
    requires word == x[WordIndex(i)]
    requires t == T(i)
    requires s == Shift(i)
    ensures Run(start, x, i + 1) == State(d, r, b, c)
  {
    hide Func, WordIndex, Shift, Run, Mixed, StepValue, T;
    r := StepValue(f, a, b, word, t, s);
    RunNext(start, x, i);
  }

  lemma Table1()
    ensures T(0) == 0xd76aa478 && T(1) == 0xe8c7b756 && T(2) == 0x242070db && T(3) == 0xc1bdceee
    ensures T(4) == 0xf57c0faf && T(5) == 0x4787c62a && T(6) == 0xa8304613 && T(7) == 0xfd469501
    ensures T(8) == 0x698098d8 && T(9) == 0x8b44f7af && T(10) == 0xffff5bb1 && T(11) == 0x895cd7be
    ensures T(12) == 0x6b901122 && T(13) == 0xfd987193 && T(14) == 0xa679438e && T(15) == 0x49b40821
  {
  }

  lemma Order1()
    ensures WordIndex(0) == 0 && WordIndex(1) == 1 && WordIndex(2) == 2 && WordIndex(3) == 3
    ensures WordIndex(4) == 4 && WordIndex(5) == 5 && WordIndex(6) == 6 && WordIndex(7) == 7
    ensures WordIndex(8) == 8 && WordIndex(9) == 9 && WordIndex(10) == 10 && WordIndex(11) == 11
    ensures WordIndex(12) == 12 && WordIndex(13) == 13 && WordIndex(14) == 14 && WordIndex(15) == 15
    ensures Shift(0) == 7 && Shift(1) == 12 && Shift(2) == 17 && Shift(3) == 22
    ensures Shift(4) == 7 && Shift(5) == 12 && Shift(6) == 17 && Shift(7) == 22
    ensures Shift(8) == 7 && Shift(9) == 12 && Shift(10) == 17 && Shift(11) == 22
    ensures Shift(12) == 7 && Shift(13) == 12 && Shift(14) == 17 && Shift(15) == 22
  {
  }

  lemma Table2()
    ensures T(16) == 0xf61e2562 && T(17) == 0xc040b340 && T(18) == 0x265e5a51 && T(19) == 0xe9b6c7aa
    ensures T(20) == 0xd62f105d && T(21) == 0x02441453 && T(22) == 0xd8a1e681 && T(23) == 0xe7d3fbc8
    ensures T(24) == 0x21e1cde6 && T(25) == 0xc33707d6 && T(26) == 0xf4d50d87 && T(27) == 0x455a14ed
    ensures T(28) == 0xa9e3e905 && T(29) == 0xfcefa3f8 && T(30) == 0x676f02d9 && T(31) == 0x8d2a4c8a
  {
  }

  lemma Order2()
    ensures WordIndex(16) == 1 && WordIndex(17) == 6 && WordIndex(18) == 11 && WordIndex(19) == 0
    ensures WordIndex(20) == 5 && WordIndex(21) == 10 && WordIndex(22) == 15 && WordIndex(23) == 4
    ensures WordIndex(24) == 9 && WordIndex(25) == 14 && WordIndex(26) == 3 && WordIndex(27) == 8
    ensures WordIndex(28) == 13 && WordIndex(29) == 2 && WordIndex(30) == 7 && WordIndex(31) == 12
    ensures Shift(16) == 5 && Shift(17) == 9 && Shift(18) == 14 && Shift(19) == 20
    ensures Shift(20) == 5 && Shift(21) == 9 && Shift(22) == 14 && Shift(23) == 20
    ensures Shift(24) == 5 && Shift(25) == 9 && Shift(26) == 14 && Shift(27) == 20
    ensures Shift(28) == 5 && Shift(29) == 9 && Shift(30) == 14 && Shift(31) == 20
  {
  }

  lemma Table3()
    ensures T(32) == 0xfffa3942 && T(33) == 0x8771f681 && T(34) == 0x6d9d6122 && T(35) == 0xfde5380c
    ensures T(36) == 0xa4beea44 && T(37) == 0x4bdecfa9 && T(38) == 0xf6bb4b60 && T(39) == 0xbebfbc70
    ensures T(40) == 0x289b7ec6 && T(41) == 0xeaa127fa && T(42) == 0xd4ef3085 && T(43) == 0x04881d05
    ensures T(44) == 0xd9d4d039 && T(45) == 0xe6db99e5 && T(46) == 0x1fa27cf8 && T(47) == 0xc4ac5665
  {
  }

  lemma Order3()
    ensures WordIndex(32) == 5 && WordIndex(33) == 8 && WordIndex(34) == 11 && WordIndex(35) == 14
    ensures WordIndex(36) == 1 && WordIndex(37) == 4 && WordIndex(38) == 7 && WordIndex(39) == 10
    ensures WordIndex(40) == 13 && WordIndex(41) == 0 && WordIndex(42) == 3 && WordIndex(43) == 6
    ensures WordIndex(44) == 9 && WordIndex(45) == 12 && WordIndex(46) == 15 && WordIndex(47) == 2
    ensures Shift(32) == 4 && Shift(33) == 11 && Shift(34) == 16 && Shift(35) == 23
    ensures Shift(36) == 4 && Shift(37) == 11 && Shift(38) == 16 && Shift(39) == 23
    ensures Shift(40) == 4 && Shift(41) == 11 && Shift(42) == 16 && Shift(43) == 23
    ensures Shift(44) == 4 && Shift(45) == 11 && Shift(46) == 16 && Shift(47) == 23
  {
  }

  lemma Table4()
    ensures T(48) == 0xf4292244 && T(49) == 0x432aff97 && T(50) == 0xab9423a7 && T(51) == 0xfc93a039
    ensures T(52) == 0x655b59c3 && T(53) == 0x8f0ccc92 && T(54) == 0xffeff47d && T(55) == 0x85845dd1
    ensures T(56) == 0x6fa87e4f && T(57) == 0xfe2ce6e0 && T(58) == 0xa3014314 && T(59) == 0x4e0811a1
    ensures T(60) == 0xf7537e82 && T(61) == 0xbd3af235 && T(62) == 0x2ad7d2bb && T(63) == 0xeb86d391
  {
  }

  lemma Order4()
    ensures WordIndex(48) == 0 && WordIndex(49) == 7 && WordIndex(50) == 14 && WordIndex(51) == 5
    ensures WordIndex(52) == 12 && WordIndex(53) == 3 && WordIndex(54) == 10 && WordIndex(55) == 1
    ensures WordIndex(56) == 8 && WordIndex(57) == 15 && WordIndex(58) == 6 && WordIndex(59) == 13
    ensures WordIndex(60) == 4 && WordIndex(61) == 11 && WordIndex(62) == 2 && WordIndex(63) == 9
    ensures Shift(48) == 6 && Shift(49) == 10 && Shift(50) == 15 && Shift(51) == 21
    ensures Shift(52) == 6 && Shift(53) == 10 && Shift(54) == 15 && Shift(55) == 21
    ensures Shift(56) == 6 && Shift(57) == 10 && Shift(58) == 15 && Shift(59) == 21
    ensures Shift(60) == 6 && Shift(61) == 10 && Shift(62) == 15 && Shift(63) == 21
  {
  }

  /** Round 1 of body. */
  method Round1(a0: bv32, b0: bv32, c0: bv32, d0: bv32, x: seq<bv32>, ghost start: State)
    returns (a: bv32, b: bv32, c: bv32, d: bv32)
    requires |x| == 16 && Run(start, x, 0) == State(a0, b0, c0, d0)
    ensures Run(start, x, 16) == State(a, b, c, d)
  {
    hide *;
    Table1();
    Order1();
    a, b, c, d := a0, b0, c0, d0;
    FFunc(0, b, c, d);
    a := Step(F(b, c, d), a, b, c, d, x[0], 0xd76aa478, 7, 0, start, x);
    FFunc(1, a, b, c);
    d := Step(F(a, b, c), d, a, b, c, x[1], 0xe8c7b756, 12, 1, start, x);
    FFunc(2, d, a, b);
    c := Step(F(d, a, b), c, d, a, b, x[2], 0x242070db, 17, 2, start, x);
    FFunc(3, c, d, a);
    b := Step(F(c, d, a), b, c, d, a, x[3], 0xc1bdceee, 22, 3, start, x);
    FFunc(4, b, c, d);
    a := Step(F(b, c, d), a, b, c, d, x[4], 0xf57c0faf, 7, 4, start, x);
    FFunc(5, a, b, c);
    d := Step(F(a, b, c), d, a, b, c, x[5], 0x4787c62a, 12, 5, start, x);
    FFunc(6, d, a, b);
    c := Step(F(d, a, b), c, d, a, b, x[6], 0xa8304613, 17, 6, start, x);
    FFunc(7, c, d, a);
    b := Step(F(c, d, a), b, c, d, a, x[7], 0xfd469501, 22, 7, start, x);
    FFunc(8, b, c, d);
    a := Step(F(b, c, d), a, b, c, d, x[8], 0x698098d8, 7, 8, start, x);
    FFunc(9, a, b, c);
    d := Step(F(a, b, c), d, a, b, c, x[9], 0x8b44f7af, 12, 9, start, x);
    FFunc(10, d, a, b);
    c := Step(F(d, a, b), c, d, a, b, x[10], 0xffff5bb1, 17, 10, start, x);
    FFunc(11, c, d, a);
    b := Step(F(c, d, a), b, c, d, a, x[11], 0x895cd7be, 22, 11, start, x);
    FFunc(12, b, c, d);
    a := Step(F(b, c, d), a, b, c, d, x[12], 0x6b901122, 7, 12, start, x);
    FFunc(13, a, b, c);
    d := Step(F(a, b, c), d, a, b, c, x[13], 0xfd987193, 12, 13, start, x);
    FFunc(14, d, a, b);
    c := Step(F(d, a, b), c, d, a, b, x[14], 0xa679438e, 17, 14, start, x);
    FFunc(15, c, d, a);
    b := Step(F(c, d, a), b, c, d, a, x[15], 0x49b40821, 22, 15, start, x);
  }

  /** Round 2 of body. */
  method Round2(a0: bv32, b0: bv32, c0: bv32, d0: bv32, x: seq<bv32>, ghost start: State)
    returns (a: bv32, b: bv32, c: bv32, d: bv32)
    requires |x| == 16 && Run(start, x, 16) == State(a0, b0, c0, d0)
    ensures Run(start, x, 32) == State(a, b, c, d)
  {
    hide *;
    Table2();
    Order2();
    a, b, c, d := a0, b0, c0, d0;
    GFunc(16, b, c, d);
    a := Step(G(b, c, d), a, b, c, d, x[1], 0xf61e2562, 5, 16, start, x);
    GFunc(17, a, b, c);
    d := Step(G(a, b, c), d, a, b, c, x[6], 0xc040b340, 9, 17, start, x);
    GFunc(18, d, a, b);
    c := Step(G(d, a, b), c, d, a, b, x[11], 0x265e5a51, 14, 18, start, x);
    GFunc(19, c, d, a);
    b := Step(G(c, d, a), b, c, d, a, x[0], 0xe9b6c7aa, 20, 19, start, x);
    GFunc(20, b, c, d);
    a := Step(G(b, c, d), a, b, c, d, x[5], 0xd62f105d, 5, 20, start, x);
    GFunc(21, a, b, c);
    d := Step(G(a, b, c), d, a, b, c, x[10], 0x02441453, 9, 21, start, x);
    GFunc(22, d, a, b);
    c := Step(G(d, a, b), c, d, a, b, x[15], 0xd8a1e681, 14, 22, start, x);
    GFunc(23, c, d, a);
    b := Step(G(c, d, a), b, c, d, a, x[4], 0xe7d3fbc8, 20, 23, start, x);
    GFunc(24, b, c, d);
    a := Step(G(b, c, d), a, b, c, d, x[9], 0x21e1cde6, 5, 24, start, x);
    GFunc(25, a, b, c);
    d := Step(G(a, b, c), d, a, b, c, x[14], 0xc33707d6, 9, 25, start, x);
    GFunc(26, d, a, b);
    c := Step(G(d, a, b), c, d, a, b, x[3], 0xf4d50d87, 14, 26, start, x);
    GFunc(27, c, d, a);
    b := Step(G(c, d, a), b, c, d, a, x[8], 0x455a14ed, 20, 27, start, x);
    GFunc(28, b, c, d);
    a := Step(G(b, c, d), a, b, c, d, x[13], 0xa9e3e905, 5, 28, start, x);
    GFunc(29, a, b, c);
    d := Step(G(a, b, c), d, a, b, c, x[2], 0xfcefa3f8, 9, 29, start, x);
    GFunc(30, d, a, b);
    c := Step(G(d, a, b), c, d, a, b, x[7], 0x676f02d9, 14, 30, start, x);
    GFunc(31, c, d, a);
    b := Step(G(c, d, a), b, c, d, a, x[12], 0x8d2a4c8a, 20, 31, start, x);
  }

  /** Round 3 of body, with the two groupings of the same function. */
  method Round3(a0: bv32, b0: bv32, c0: bv32, d0: bv32, x: seq<bv32>, ghost start: State)
    returns (a: bv32, b: bv32, c: bv32, d: bv32)
    requires |x| == 16 && Run(start, x, 32) == State(a0, b0, c0, d0)
    ensures Run(start, x, 48) == State(a, b, c, d)
  {
    hide *;
    Table3();
    Order3();
    a, b, c, d := a0, b0, c0, d0;
    HFunc(32, b, c, d);
    a := Step(H(b, c, d), a, b, c, d, x[5], 0xfffa3942, 4, 32, start, x);
    H2Func(33, a, b, c);
    d := Step(H2(a, b, c), d, a, b, c, x[8], 0x8771f681, 11, 33, start, x);
    HFunc(34, d, a, b);
    c := Step(H(d, a, b), c, d, a, b, x[11], 0x6d9d6122, 16, 34, start, x);
    H2Func(35, c, d, a);
    b := Step(H2(c, d, a), b, c, d, a, x[14], 0xfde5380c, 23, 35, start, x);
    HFunc(36, b, c, d);
    a := Step(H(b, c, d), a, b, c, d, x[1], 0xa4beea44, 4, 36, start, x);
    H2Func(37, a, b, c);
    d := Step(H2(a, b, c), d, a, b, c, x[4], 0x4bdecfa9, 11, 37, start, x);
    HFunc(38, d, a, b);
    c := Step(H(d, a, b), c, d, a, b, x[7], 0xf6bb4b60, 16, 38, start, x);
    H2Func(39, c, d, a);
    b := Step(H2(c, d, a), b, c, d, a, x[10], 0xbebfbc70, 23, 39, start, x);
    HFunc(40, b, c, d);
    a := Step(H(b, c, d), a, b, c, d, x[13], 0x289b7ec6, 4, 40, start, x);
    H2Func(41, a, b, c);
    d := Step(H2(a, b, c), d, a, b, c, x[0], 0xeaa127fa, 11, 41, start, x);
    HFunc(42, d, a, b);
    c := Step(H(d, a, b), c, d, a, b, x[3], 0xd4ef3085, 16, 42, start, x);
    H2Func(43, c, d, a);
    b := Step(H2(c, d, a), b, c, d, a, x[6], 0x04881d05, 23, 43, start, x);
    HFunc(44, b, c, d);
    a := Step(H(b, c, d), a, b, c, d, x[9], 0xd9d4d039, 4, 44, start, x);
    H2Func(45, a, b, c);
    d := Step(H2(a, b, c), d, a, b, c, x[12], 0xe6db99e5, 11, 45, start, x);
    HFunc(46, d, a, b);
    c := Step(H(d, a, b), c, d, a, b, x[15], 0x1fa27cf8, 16, 46, start, x);
    H2Func(47, c, d, a);
    b := Step(H2(c, d, a), b, c, d, a, x[2], 0xc4ac5665, 23, 47, start, x);
  }

  /** Round 4 of body. */
  method Round4(a0: bv32, b0: bv32, c0: bv32, d0: bv32, x: seq<bv32>, ghost start: State)
    returns (a: bv32, b: bv32, c: bv32, d: bv32)
    requires |x| == 16 && Run(start, x, 48) == State(a0, b0, c0, d0)
    ensures Run(start, x, 64) == State(a, b, c, d)
  {
    hide *;
    Table4();
    Order4();
    a, b, c, d := a0, b0, c0, d0;
    IFunc(48, b, c, d);
    a := Step(RfcI(b, c, d), a, b, c, d, x[0], 0xf4292244, 6, 48, start, x);
    IFunc(49, a, b, c);
    d := Step(RfcI(a, b, c), d, a, b, c, x[7], 0x432aff97, 10, 49, start, x);
    IFunc(50, d, a, b);
    c := Step(RfcI(d, a, b), c, d, a, b, x[14], 0xab9423a7, 15, 50, start, x);
    IFunc(51, c, d, a);
    b := Step(RfcI(c, d, a), b, c, d, a, x[5], 0xfc93a039, 21, 51, start, x);
    IFunc(52, b, c, d);
    a := Step(RfcI(b, c, d), a, b, c, d, x[12], 0x655b59c3, 6, 52, start, x);
    IFunc(53, a, b, c);
    d := Step(RfcI(a, b, c), d, a, b, c, x[3], 0x8f0ccc92, 10, 53, start, x);
    IFunc(54, d, a, b);
    c := Step(RfcI(d, a, b), c, d, a, b, x[10], 0xffeff47d, 15, 54, start, x);
    IFunc(55, c, d, a);
    b := Step(RfcI(c, d, a), b, c, d, a, x[1], 0x85845dd1, 21, 55, start, x);
    IFunc(56, b, c, d);
    a := Step(RfcI(b, c, d), a, b, c, d, x[8], 0x6fa87e4f, 6, 56, start, x);
    IFunc(57, a, b, c);
    d := Step(RfcI(a, b, c), d, a, b, c, x[15], 0xfe2ce6e0, 10, 57, start, x);
    IFunc(58, d, a, b);
    c := Step(RfcI(d, a, b), c, d, a, b, x[6], 0xa3014314, 15, 58, start, x);
    IFunc(59, c, d, a);
    b := Step(RfcI(c, d, a), b, c, d, a, x[13], 0x4e0811a1, 21, 59, start, x);
    IFunc(60, b, c, d);
    a := Step(RfcI(b, c, d), a, b, c, d, x[4], 0xf7537e82, 6, 60, start, x);
    IFunc(61, a, b, c);
    d := Step(RfcI(a, b, c), d, a, b, c, x[11], 0xbd3af235, 10, 61, start, x);
    IFunc(62, d, a, b);
    c := Step(RfcI(d, a, b), c, d, a, b, x[2], 0x2ad7d2bb, 15, 62, start, x);
    IFunc(63, c, d, a);
    b := Step(RfcI(c, d, a), b, c, d, a, x[9], 0xeb86d391, 21, 63, start, x);
  }


  /** The two counters after `size` more bytes, as MD5_Update computes them. */
  function NewLo(lo: nat, size: nat): nat {
    (lo + size) % 0x2000_0000
  }

  function NewHi(lo: nat, hi: nat, size: nat): nat {
    ((if NewLo(lo, size) < lo then (hi + 1) % 0x1_0000_0000 else hi) + size / 0x2000_0000) % 0x1_0000_0000
  }

  /** Together they count the bytes modulo 2^61. */
  lemma CountersAdd(lo: nat, hi: nat, size: nat, count: nat)
    requires lo < 0x2000_0000 && hi < 0x1_0000_0000 && hi * 0x2000_0000 + lo == count % 0x2000_0000_0000_0000
    ensures NewLo(lo, size) < 0x2000_0000 && NewHi(lo, hi, size) < 0x1_0000_0000
    ensures NewHi(lo, hi, size) * 0x2000_0000 + NewLo(lo, size) == (count + size) % 0x2000_0000_0000_0000
  {
    hide NewLo, NewHi;
    var carry := if NewLo(lo, size) < lo then 1 else 0;
    LowPart(lo, size);
    HighPart(lo, hi, size, carry);
    var h := hi + carry + size / 0x2000_0000;
    var wraps := h / 0x1_0000_0000 + count / 0x2000_0000_0000_0000;
    assert count + size == wraps * 0x2000_0000_0000_0000 + (NewHi(lo, hi, size) * 0x2000_0000 + NewLo(lo, size));
    Remainder(wraps, NewHi(lo, hi, size) * 0x2000_0000 + NewLo(lo, size), 0x2000_0000_0000_0000);
  }

  lemma LowPart(lo: nat, size: nat)
    requires lo < 0x2000_0000
    ensures NewLo(lo, size) < 0x2000_0000
    ensures lo + size == (size / 0x2000_0000 + if NewLo(lo, size) < lo then 1 else 0) * 0x2000_0000 + NewLo(lo, size)
  {
    var q, r := size / 0x2000_0000, size % 0x2000_0000;
    assert size == q * 0x2000_0000 + r;
    if lo + r < 0x2000_0000 {
      Remainder(q, lo + r, 0x2000_0000);
    } else {
      Remainder(q + 1, lo + r - 0x2000_0000, 0x2000_0000);
    }
  }

  lemma HighPart(lo: nat, hi: nat, size: nat, carry: nat)
    requires hi < 0x1_0000_0000 && carry == if NewLo(lo, size) < lo then 1 else 0
    ensures NewHi(lo, hi, size) == (hi + carry + size / 0x2000_0000) % 0x1_0000_0000
  {
    hide NewLo;
  }

  /** One turn of the loop of body. */
  method DoBlock(a0: bv32, b0: bv32, c0: bv32, d0: bv32, block: Block) returns (a: bv32, b: bv32, c: bv32, d: bv32)
    ensures State(a, b, c, d) == Compress(State(a0, b0, c0, d0), block)
  {
    hide *;
    ghost var start := State(a0, b0, c0, d0);
    var x := Words(block);
    RunStart(start, x);
    a, b, c, d := Round1(a0, b0, c0, d0, x, start);
    a, b, c, d := Round2(a, b, c, d, x, start);
    a, b, c, d := Round3(a, b, c, d, x, start);
    a, b, c, d := Round4(a, b, c, d, x, start);
    CompressAdds(start, block, State(a, b, c, d));
    a, b, c, d := Plus(a, a0), Plus(b, b0), Plus(c, c0), Plus(d, d0);
  }

  lemma CompressAdds(st: State, block: Block, r: State)
    requires r == Run(st, Words(block), 64)
    ensures Compress(st, block) == State(Plus(r.a, st.a), Plus(r.b, st.b), Plus(r.c, st.c), Plus(r.d, st.d))
  {
    hide Run, Words, Plus;
  }

  lemma RunStart(st: State, x: seq<bv32>)
    requires |x| == 16
    ensures Run(st, x, 0) == st
  {
  }

  class Context {
    var lo: nat
    var hi: nat
    var a: bv32
    var b: bv32
    var c: bv32
    var d: bv32
    var buffer: array<byte>
    /** all the bytes since initialisation */
    ghost var message: seq<byte>

    ghost predicate Valid()
      reads this, buffer
    {
      && buffer.Length == 64
      && lo < 0x2000_0000 && hi < 0x1_0000_0000
      && hi * 0x2000_0000 + lo == |message| % 0x2000_0000_0000_0000
      && State(a, b, c, d) == Fold(Compress, INITIAL, message)
      && buffer[..|message| % 64] == Tail(message)
    }

    /** MD5_Init. */
    constructor ()
      ensures Valid() && message == [] && fresh(buffer)
    {
      a, b, c, d := 0x67452301, 0xefcdab89, 0x98badcfe, 0x10325476;
      lo, hi := 0, 0;
      buffer := new byte[64](i => 0);
      message := [];
    }

    /** body: folds one or more complete blocks into the state. */
    method Body(data: seq<byte>)
      requires |data| > 0 && |data| % 64 == 0
      modifies this`a, this`b, this`c, this`d
      ensures State(a, b, c, d) == Fold(Compress, old(State(a, b, c, d)), data)
    {
      hide Fold, Run, Words, Plus;
      var a1, b1, c1, d1 := a, b, c, d;
      ghost var st := State(a, b, c, d);
      var ptr, size := data, |data|;
      while true
        invariant |ptr| == size > 0 && size % 64 == 0
        invariant Fold(Compress, State(a1, b1, c1, d1), ptr) == Fold(Compress, st, data)
        decreases size
      {
        assert ptr == ptr[..64] + ptr[64..];
        FoldBlockFirst(Compress, State(a1, b1, c1, d1), ptr[..64], ptr[64..]);
        a1, b1, c1, d1 := DoBlock(a1, b1, c1, d1, ptr[..64]);
        ptr := ptr[64..];
        size := size - 64;
        if size == 0 {
          break;
        }
      }
      assert ptr == [];
      FoldNothing(Compress, State(a1, b1, c1, d1));
      a, b, c, d := a1, b1, c1, d1;
    }

    /** MD5_Update: the context stands for the old message followed by `data`. */
    method Update(data: seq<byte>)
      requires Valid()
      modifies this, buffer
      ensures Valid() && message == old(message) + data && buffer == old(buffer)
    {
      hide Fold, Compress, Tail;
      ghost var was, st := message, State(a, b, c, d);
      var used := lo % 64;
      assert used == |was| % 64 by { UsedBytes(lo, hi, |was|); }
      assert buffer[..used] == Tail(was);
      Count(data);
      var rest := data;
      if used != 0 {
        var available := 64 - used;
        if |data| < available {
          Memcpy(buffer, used, data);
          AppendWithinBlock(Compress, INITIAL, was, data);
          return;
        }
        Memcpy(buffer, used, data[..available]);
        BlockCompleted(was, data, available, buffer[..]);
        rest := data[available..];
        Body(buffer[..]);
        FoldOneBlock(Compress, st, buffer[..]);
        AppendFillsBlock(Compress, INITIAL, was, data, buffer[..], rest);
      } else {
        FoldAppend(Compress, INITIAL, was, data);
        assert Tail(was) + data == data;
      }
      FoldRest(rest);
    }

    /** The counters and, for the proof, the message. */
    method Count(data: seq<byte>)
      requires lo < 0x2000_0000 && hi < 0x1_0000_0000 && hi * 0x2000_0000 + lo == |message| % 0x2000_0000_0000_0000
      modifies this`lo, this`hi, this`message
      ensures lo < 0x2000_0000 && hi < 0x1_0000_0000 && hi * 0x2000_0000 + lo == |message| % 0x2000_0000_0000_0000
      ensures message == old(message) + data
    {
      var savedLo := lo;
      CountersAdd(lo, hi, |data|, |message|);
      lo := (savedLo + |data|) % 0x2000_0000;
      if lo < savedLo {
        hi := (hi + 1) % 0x1_0000_0000;
      }
      hi := (hi + |data| / 0x2000_0000) % 0x1_0000_0000;
      message := message + data;
    }

    /** MD5_Final: the digest of the message; the context is wiped. */
    method Final() returns (result: seq<byte>)
      requires Valid()
      modifies this, buffer
      ensures result == Digest(old(message)) && buffer == old(buffer)
      ensures lo == hi == 0 && State(a, b, c, d) == State(0, 0, 0, 0) && buffer[..] == Zeros(64)
    {
      hide Fold, Compress, Tail, WordBytes, LittleEndian;
      PadBlocks();
      result := WordBytes(a) + WordBytes(b) + WordBytes(c) + WordBytes(d);
      lo, hi := 0, 0;
      a, b, c, d := 0, 0, 0, 0;
      Memcpy(buffer, 0, Zeros(64));
    }

    /** The padding, without an update of the counters. */
    method PadBlocks()
      requires Valid()
      modifies this`a, this`b, this`c, this`d, this`lo, buffer
      ensures State(a, b, c, d) == Fold(Compress, INITIAL, Padded(message))
    {
      hide Fold, Compress, Tail, LittleEndian;
      ghost var st := State(a, b, c, d);
      var used := lo % 64;
      UsedBytes(lo, hi, |message|);
      LengthField(lo, hi, |message|);
      assert buffer[..used] == Tail(message);
      Memcpy(buffer, used, [0x80]);
      used := used + 1;
      var available := 64 - used;
      if available < 8 {
        Memcpy(buffer, used, Zeros(available));
        ghost var block := buffer[..];
        Body(buffer[..]);
        FoldOneBlock(Compress, st, block);
        used := 0;
        available := 64;
        ghost var st1 := State(a, b, c, d);
        WriteLength(used);
        TwoLastBlocks(message, block, buffer[..]);
        FoldOneBlock(Compress, st1, buffer[..]);
      } else {
        WriteLength(used);
        OneLastBlock(message, buffer[..]);
        FoldOneBlock(Compress, st, buffer[..]);
      }
      Body(buffer[..]);
    }

    /** Zeros up to the last 8 bytes of the block, then the two counters. */
    method WriteLength(used: nat)
      requires buffer.Length == 64 && used <= 56 && lo < 0x2000_0000 && hi < 0x1_0000_0000
      modifies this`lo, buffer
      ensures buffer[..] == old(buffer[..used]) + Zeros(56 - used) + (LittleEndian(8 * old(lo), 4) + LittleEndian(hi, 4))
    {
      hide LittleEndian;
      var available := 64 - used;
      Memcpy(buffer, used, Zeros(available - 8));
      lo := lo * 8;
      FourBytes(lo);
      FourBytes(hi);
      buffer[56], buffer[57], buffer[58], buffer[59] := lo % 256, lo / 0x100 % 256, lo / 0x1_0000 % 256, lo / 0x100_0000 % 256;
      buffer[60], buffer[61], buffer[62], buffer[63] := hi % 256, hi / 0x100 % 256, hi / 0x1_0000 % 256, hi / 0x100_0000 % 256;
    }

    /** The end of MD5_Update: complete blocks are folded in, the others bytes are kept. */
    method FoldRest(data: seq<byte>)
      requires buffer.Length == 64
      modifies this`a, this`b, this`c, this`d, buffer
      ensures State(a, b, c, d) == Fold(Compress, old(State(a, b, c, d)), data)
      ensures buffer[..|data| % 64] == Tail(data)
    {
      hide Fold, Compress;
      FoldIgnoresTail(Compress, State(a, b, c, d), data);
      var rest := data;
      if |data| >= 64 {
        var whole := |data| - |data| % 64;
        Body(data[..whole]);
        rest := data[whole..];
      } else {
        assert HeadOf(data) == [];
        FoldNothing(Compress, State(a, b, c, d));
      }
      Memcpy(buffer, 0, rest);
    }
  }

  lemma {:induction false} LittleEndianConcat(x: nat, y: nat, n: nat, m: nat)
    requires x < Power256(n)
    ensures LittleEndian(x + y * Power256(n), n + m) == LittleEndian(x, n) + LittleEndian(y, m)
  {
    if n == 0 {
      assert LittleEndian(x, n) == [];
    } else {
      var v, q := x + y * Power256(n), y * Power256(n - 1);
      assert y * Power256(n) == 256 * q by { TimesPower(y, Power256(n - 1)); }
      assert v % 256 == x % 256 && v / 256 == x / 256 + q;
      LittleEndianConcat(x / 256, y, n - 1, m);
    }
  }

  lemma FourBytes(v: nat)
    ensures LittleEndian(v, 4) == [v % 256, v / 0x100 % 256, v / 0x1_0000 % 256, v / 0x100_0000 % 256]
  {
    var v1, v2, v3 := v / 256, v / 256 / 256, v / 256 / 256 / 256;
    assert LittleEndian(v3, 1) == [v3 % 256] + LittleEndian(v3 / 256, 0);
    assert LittleEndian(v2, 2) == [v2 % 256, v3 % 256];
    assert LittleEndian(v1, 3) == [v1 % 256, v2 % 256, v3 % 256];
    assert v2 == v / 0x1_0000 && v3 == v / 0x100_0000;
  }

  lemma BitLength(lo: nat, hi: nat, count: nat, w: nat)
    requires lo < 0x2000_0000 && hi < 0x1_0000_0000 && count == w * 0x2000_0000_0000_0000 + hi * 0x2000_0000 + lo
    ensures 8 * count % 0x1_0000_0000_0000_0000 == 8 * lo + hi * 0x1_0000_0000
  {
    Remainder(w, 8 * lo + hi * 0x1_0000_0000, 0x1_0000_0000_0000_0000);
  }

  /** The two counters, written out, are the length in bits. */
  lemma LengthField(lo: nat, hi: nat, count: nat)
    requires lo < 0x2000_0000 && hi < 0x1_0000_0000 && hi * 0x2000_0000 + lo == count % 0x2000_0000_0000_0000
    ensures LittleEndian(8 * count % 0x1_0000_0000_0000_0000, 8) == LittleEndian(8 * lo, 4) + LittleEndian(hi, 4)
  {
    hide Power256, LittleEndian;
    BitLength(lo, hi, count, count / 0x2000_0000_0000_0000);
    FourthPower();
    LittleEndianConcat(8 * lo, hi, 4, 4);
  }

  lemma UsedBytes(lo: nat, hi: nat, count: nat)
    requires hi * 0x2000_0000 + lo == count % 0x2000_0000_0000_0000
    ensures lo % 64 == count % 64
  {
    var w := count / 0x2000_0000_0000_0000;
    assert count == 64 * (w * 0x80_0000_0000_0000 + hi * 0x80_0000) + lo;
  }

  /** However a message is split, its digest is the same. */
  method DigestOfFragments(fragments: seq<seq<byte>>) returns (result: seq<byte>)
    ensures result == Digest(Flatten(fragments))
  {
    hide Digest, Context.Valid;
    var ctx := new Context();
    for i := 0 to |fragments|
      invariant ctx.Valid() && ctx.message == Flatten(fragments[..i])
      invariant fresh(ctx) && fresh(ctx.buffer)
    {
      ctx.Update(fragments[i]);
      FlattenSnoc(fragments, i);
    }
    assert fragments[..|fragments|] == fragments;
    result := ctx.Final();
  }
}
