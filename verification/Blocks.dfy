/**
 What MD5 and SHA-1 share: bytes, 64-byte blocks, and a state that is folded
 over the complete blocks of a message.
 */
module Blocks {

  type byte = x: int | 0 <= x < 256

  type Block = b: seq<byte> | |b| == 64 witness Zeros(64)

  /** `n` zero bytes. */
  function Zeros(n: nat): (z: seq<byte>)
    ensures |z| == n
  {
    seq(n, i => 0)
  }

  /** A word rotated left by `s` places. */
  function Rotl(x: bv32, s: nat): bv32
    requires s <= 32
  {
    (x << s) | (x >> (32 - s))
  }

  function Plus(x: bv32, y: bv32): bv32 { x + y }

  /** `f` applied to the complete 64-byte blocks of `data`, first block first. */
  function Fold<S>(f: (S, Block) -> S, st: S, data: seq<byte>): S
    decreases |data|
  {
    if |data| < 64 then st else Fold(f, f(st, data[..64]), data[64..])
  }

  /** The bytes after the last complete block. */
  function Tail(data: seq<byte>): (t: seq<byte>)
    ensures |t| == |data| % 64
  {
    data[|data| - |data| % 64..]
  }

  lemma {:induction false} FoldConcat<S>(f: (S, Block) -> S, st: S, a: seq<byte>, b: seq<byte>)
    requires |a| % 64 == 0
    ensures Fold(f, st, a + b) == Fold(f, Fold(f, st, a), b)
    decreases |a|
  {
    if |a| == 0 {
      assert a + b == b;
    } else {
      assert (a + b)[..64] == a[..64];
      assert (a + b)[64..] == a[64..] + b;
      FoldConcat(f, f(st, a[..64]), a[64..], b);
    }
  }

  /** An incomplete block at the end is not folded in. */
  lemma {:induction false} FoldIgnoresTail<S>(f: (S, Block) -> S, st: S, data: seq<byte>)
    ensures Fold(f, st, data) == Fold(f, st, HeadOf(data))
    decreases |data|
  {
    if |data| >= 64 {
      FoldIgnoresTail(f, f(st, data[..64]), data[64..]);
      assert HeadOf(data)[..64] == data[..64];
      assert HeadOf(data)[64..] == HeadOf(data[64..]);
    }
  }

  /**
   Appending to a message: the complete blocks are those of the old tail and the
   new data, and so is the new tail.
   */
  lemma FoldAppend<S>(f: (S, Block) -> S, st: S, message: seq<byte>, data: seq<byte>)
    ensures Fold(f, st, message + data) == Fold(f, Fold(f, st, message), Tail(message) + data)
    ensures Tail(message + data) == Tail(Tail(message) + data)
  {
    hide Fold, Tail;
    var head := HeadOf(message);
    FoldIgnoresTail(f, st, message);
    HeadAndTail(message, data);
    FoldConcat(f, st, head, Tail(message) + data);
    TailSuffix(head, Tail(message) + data);
  }

  function HeadOf(data: seq<byte>): (h: seq<byte>)
    ensures |h| % 64 == 0
  {
    data[..|data| - |data| % 64]
  }

  lemma HeadAndTail(message: seq<byte>, data: seq<byte>)
    ensures HeadOf(message) + (Tail(message) + data) == message + data
  {
    assert HeadOf(message) + Tail(message) == message;
  }

  lemma TailSuffix(a: seq<byte>, b: seq<byte>)
    requires |a| % 64 == 0
    ensures Tail(a + b) == Tail(b)
  {
    assert |a + b| % 64 == |b| % 64;
  }

  /** The fragments one after the other. */
  function Flatten(fragments: seq<seq<byte>>): seq<byte> {
    if fragments == [] then [] else fragments[0] + Flatten(fragments[1..])
  }

  lemma {:induction false} FlattenSnoc(fragments: seq<seq<byte>>, i: nat)
    requires i < |fragments|
    ensures Flatten(fragments[..i + 1]) == Flatten(fragments[..i]) + fragments[i]
  {
    if i > 0 {
      FlattenSnoc(fragments[1..], i - 1);
      assert fragments[..i + 1][1..] == fragments[1..][..i];
      assert fragments[..i][1..] == fragments[1..][..i - 1];
    } else {
      assert fragments[..1][1..] == [];
    }
  }

  /** How many zero bytes follow the byte 0x80: the fewest that leave 8 bytes before the end of a block. */
  function PadZeros(length: nat): (n: nat)
    ensures n < 64 && (length + 1 + n) % 64 == 56
  {
    (119 - length % 64) % 64
  }

  /** The same padding in both algorithms, up to the byte order of the length. */
  function Padding(length: nat, lengthField: seq<byte>): (p: seq<byte>)
    requires |lengthField| == 8
    ensures (length + |p|) % 64 == 0
  {
    [0x80] + Zeros(PadZeros(length)) + lengthField
  }

  /** The padding is the shortest of its form. */
  lemma PadZerosIsLeast(length: nat, n: nat)
    requires (length + 1 + n) % 64 == 56
    ensures PadZeros(length) <= n
  {
  }

  /** Two messages of which the padded forms are equal are equal, whatever their length fields. */
  lemma PaddingIsInjective(m1: seq<byte>, m2: seq<byte>, f1: seq<byte>, f2: seq<byte>)
    requires |f1| == 8 && |f2| == 8
    requires m1 + Padding(|m1|, f1) == m2 + Padding(|m2|, f2)
    requires f1 == f2 ==> |m1| == |m2|
    ensures m1 == m2
  {
    hide Padding;
    var p1, p2 := m1 + Padding(|m1|, f1), m2 + Padding(|m2|, f2);
    PaddingEnds(m1, f1);
    PaddingEnds(m2, f2);
    assert p1[|p1| - 8..] == f1 && p2[|p2| - 8..] == f2;
    assert m1 == p1[..|m1|];
    assert m2 == p2[..|m2|];
  }

  lemma PaddingEnds(m: seq<byte>, f: seq<byte>)
    requires |f| == 8
    ensures var p := m + Padding(|m|, f); |p| >= 8 && p[|p| - 8..] == f
  {
    hide Zeros, PadZeros, Padding;
    PaddingUnfolds(|m|, f);
    Regroup(m, [0x80], Zeros(PadZeros(|m|)), f);
    EndsIn(m + [0x80] + Zeros(PadZeros(|m|)), f);
  }

  lemma EndsIn(a: seq<byte>, f: seq<byte>)
    ensures (a + f)[|a + f| - |f|..] == f
  {
  }

  // How the tail of a message grows.

  /** The new data do not fill the block. */
  lemma AppendWithinBlock<S>(f: (S, Block) -> S, st: S, message: seq<byte>, data: seq<byte>)
    requires |message| % 64 + |data| < 64
    ensures Fold(f, st, message + data) == Fold(f, st, message)
    ensures Tail(message + data) == Tail(message) + data
  {
    hide Tail;
    FoldAppend(f, st, message, data);
    ShortIsTail(Tail(message) + data);
  }

  lemma ShortIsTail(data: seq<byte>)
    requires |data| < 64
    ensures Tail(data) == data
  {
  }

  /** The first of the new data complete the block; the others start the next one. */
  lemma AppendFillsBlock<S>(f: (S, Block) -> S, st: S, message: seq<byte>, data: seq<byte>, block: Block, rest: seq<byte>)
    requires |message| % 64 + |data| >= 64 && Tail(message) + data == block + rest
    ensures Fold(f, st, message + data) == Fold(f, f(Fold(f, st, message), block), rest)
    ensures Tail(message + data) == Tail(rest)
  {
    hide Tail;
    FoldAppend(f, st, message, data);
    TailSuffix(block, rest);
    FoldBlockFirst(f, Fold(f, st, message), block, rest);
  }

  lemma FoldNothing<S>(f: (S, Block) -> S, st: S)
    ensures Fold(f, st, []) == st
  {
  }

  lemma FoldBlockFirst<S>(f: (S, Block) -> S, st: S, block: Block, rest: seq<byte>)
    ensures Fold(f, st, block + rest) == Fold(f, f(st, block), rest)
  {
    assert (block + rest)[..64] == block;
    assert (block + rest)[64..] == rest;
  }

  lemma FoldOneBlock<S>(f: (S, Block) -> S, st: S, block: Block)
    ensures Fold(f, st, block) == f(st, block)
  {
    assert block[..64] == block && block[64..] == [];
  }

  /** Start of a block in the buffer, completed by the first of the new data. */
  lemma BlockCompleted(was: seq<byte>, data: seq<byte>, available: nat, buffer: seq<byte>)
    requires available == 64 - |was| % 64 && available <= |data| && buffer == Tail(was) + data[..available]
    ensures |buffer| == 64 && Tail(was) + data == buffer + data[available..]
  {
    assert data == data[..available] + data[available..];
  }

  // ----- padding seen from the last blocks -----

  lemma PaddingText(length: nat, lengthField: seq<byte>)
    requires |lengthField| == 8
    ensures length % 64 < 56 ==> Padding(length, lengthField) == [0x80] + Zeros(55 - length % 64) + lengthField
    ensures length % 64 >= 56 ==> Padding(length, lengthField) == [0x80] + Zeros(119 - length % 64) + lengthField
  {
    hide Zeros;
  }

  lemma PaddingUnfolds(length: nat, lengthField: seq<byte>)
    requires |lengthField| == 8
    ensures Padding(length, lengthField) == [0x80] + Zeros(PadZeros(length)) + lengthField
  {
  }

  lemma ZerosConcat(n: nat, m: nat)
    ensures Zeros(n) + Zeros(m) == Zeros(n + m)
  {
  }

  lemma Regroup(t: seq<byte>, mark: seq<byte>, zeros: seq<byte>, field: seq<byte>)
    ensures t + (mark + zeros + field) == t + mark + zeros + field
  {
  }

  lemma RegroupBlocks(t: seq<byte>, mark: seq<byte>, z1: seq<byte>, z2: seq<byte>, field: seq<byte>)
    ensures t + mark + (z1 + z2) + field == (t + mark + z1) + (z2 + field)
  {
  }

  /** Padding that completes one block with the tail of the message. */
  lemma FoldPadded<S>(f: (S, Block) -> S, st: S, message: seq<byte>, padding: seq<byte>, block: Block)
    requires Tail(message) + padding == block
    ensures Fold(f, st, message + padding) == f(Fold(f, st, message), block)
  {
    hide Fold, Tail;
    FoldAppend(f, st, message, padding);
    FoldOneBlock(f, Fold(f, st, message), block);
  }

  /** Padding that completes two. */
  lemma FoldPaddedTwice<S>(f: (S, Block) -> S, st: S, message: seq<byte>, padding: seq<byte>, block: Block, last: Block)
    requires Tail(message) + padding == block + last
    ensures Fold(f, st, message + padding) == f(f(Fold(f, st, message), block), last)
  {
    hide Fold, Tail;
    FoldAppend(f, st, message, padding);
    FoldBlockFirst(f, Fold(f, st, message), block, last);
    FoldOneBlock(f, f(Fold(f, st, message), block), last);
  }

  /** Room for the length in the block that the message ends in. */
  lemma PaddingInOneBlock(t: seq<byte>, length: nat, lengthField: seq<byte>)
    requires |lengthField| == 8 && length % 64 < 56
    ensures t + Padding(length, lengthField) == t + [0x80] + Zeros(55 - length % 64) + lengthField
  {
    hide Zeros, PadZeros, Padding;
    PaddingText(length, lengthField);
    Regroup(t, [0x80], Zeros(55 - length % 64), lengthField);
  }

  /** No room: a block of zeros but for the length follows. */
  lemma PaddingInTwoBlocks(t: seq<byte>, length: nat, lengthField: seq<byte>)
    requires |lengthField| == 8 && length % 64 >= 56
    ensures t + Padding(length, lengthField) == (t + [0x80] + Zeros(63 - length % 64)) + (Zeros(56) + lengthField)
  {
    hide Zeros, PadZeros, Padding;
    PaddingText(length, lengthField);
    ZerosConcat(63 - length % 64, 56);
    Regroup(t, [0x80], Zeros(63 - length % 64) + Zeros(56), lengthField);
    RegroupBlocks(t, [0x80], Zeros(63 - length % 64), Zeros(56), lengthField);
  }

  lemma Remainder(w: nat, r: nat, m: nat)
    requires r < m
    ensures (w * m + r) % m == r
  {
    var x := w * m + r;
    var q := x / m;
    assert x == q * m + x % m;
    assert (w + 1) * m == w * m + m;
    assert (q + 1) * m == q * m + m;
    if q > w {
      Grows(w + 1, q, m);
    } else if q < w {
      Grows(q + 1, w, m);
    }
  }

  lemma {:induction false} Grows(a: nat, b: nat, m: nat)
    requires a <= b
    ensures a * m <= b * m
  {
    if a < b {
      Grows(a, b - 1, m);
      assert b * m == (b - 1) * m + m;
    }
  }

  function Power256(n: nat): nat {
    if n == 0 then 1 else 256 * Power256(n - 1)
  }

  lemma FourthPower()
    ensures Power256(4) == 0x1_0000_0000
  {
    assert Power256(2) == 0x1_0000;
  }

  lemma TimesPower(y: nat, p: nat)
    ensures y * (256 * p) == 256 * (y * p)
  {
  }
}
