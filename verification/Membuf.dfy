/**
 The growable byte buffer of the ixml library (ixmlmembuf.c).  `buf` is null
 until the first allocation; afterwards it holds `capacity + 1` bytes so that a
 terminating NUL always fits after the contents.  Allocation always succeeds.
 */
module Membufs {
  import opened Memory

  const DEF_SIZE_INC: nat := 20

  function Max(a: nat, b: nat): nat {
    if a > b then a else b
  }

  /** The capacity that ixml_membuf_set_size leaves behind. */
  function NewCapacity(length: nat, capacity: nat, newLength: nat): (c: nat)
    requires length <= capacity
    ensures newLength <= c
  {
    if length <= newLength then
      if newLength <= capacity then capacity else Max(DEF_SIZE_INC, newLength - length) + capacity
    else
      if capacity - newLength <= DEF_SIZE_INC then capacity else newLength + DEF_SIZE_INC
  }

  /** The result of realloc: the old bytes as far as they fit, then arbitrary bytes. */
  method Realloc(block: array?<char>, size: nat) returns (b: array<char>)
    ensures fresh(b) && b.Length == size
    ensures block != null ==> forall i | 0 <= i < size && i < block.Length :: b[i] == block[i]
  {
    b := new char[size](i => '\0');
    if block != null {
      var n := if size < block.Length then size else block.Length;
      forall i | 0 <= i < n {
        b[i] := block[i];
      }
    }
  }

  class Membuf {
    var buf: array?<char>
    var length: nat
    var capacity: nat

    ghost predicate Valid()
      reads this, buf
    {
      && length <= capacity
      && (buf == null ==> capacity == 0)
      && (buf != null ==> buf.Length == capacity + 1 && buf[length] == '\0')
    }

    /** The bytes held, without the terminating NUL. */
    function Contents(): (s: string)
      requires Valid()
      reads this, buf
      ensures |s| == length
    {
      if buf == null then "" else buf[..length]
    }

    constructor ()
      ensures Valid() && Contents() == "" && buf == null
    {
      buf, length, capacity := null, 0, 0;
    }

    /** ixml_membuf_destroy, which is also what ixml_membuf_assign does with a null pointer: back to the initial state. */
    method Destroy()
      modifies this
      ensures Valid() && Contents() == "" && buf == null
    {
      buf, length, capacity := null, 0, 0;
    }

    /**
     ixml_membuf_set_size: room for `newLength` bytes.  The bytes that survive
     are those below both the old length and the new capacity.
     */
    method SetSize(newLength: nat)
      requires Valid()
      modifies this`buf, this`capacity
      ensures length == old(length) && capacity == NewCapacity(old(length), old(capacity), newLength)
      ensures newLength <= capacity
      ensures buf == old(buf) || fresh(buf)
      ensures buf == null ==> capacity == 0
      ensures buf != null ==> buf.Length == capacity + 1
      ensures newLength > 0 ==> buf != null
      ensures old(buf) != null ==> buf != null
      ensures old(buf) != null ==> forall i | 0 <= i < length && i <= capacity :: buf[i] == old(buf[i])
      ensures newLength >= length ==> capacity >= old(capacity)
      ensures length <= newLength <= old(capacity) ==> buf == old(buf)
    {
      var allocLen: nat;
      if newLength >= length {
        if newLength <= capacity {
          return;
        }
        var diff := newLength - length;
        allocLen := Max(DEF_SIZE_INC, diff) + capacity;
      } else {
        if capacity - newLength <= DEF_SIZE_INC {
          return;
        }
        allocLen := newLength + DEF_SIZE_INC;
      }
      var tempBuf := Realloc(buf, allocLen + 1);
      buf := tempBuf;
      capacity := allocLen;
    }

    /**
     ixml_membuf_assign of a non-null string.  An empty string, and a buffer that was
     never allocated, make it write the NUL through a null pointer.
     */
    method Assign(s: string) returns (crashed: bool)
      requires Valid()
      modifies this, buf
      ensures Valid() && crashed == (s == "" && old(buf) == null)
      ensures Contents() == (if crashed then old(Contents()) else s) && (buf == null <==> crashed)
      ensures buf == old(buf) || fresh(buf)
    {
      SetSize(|s|);
      if buf == null {
        return true;
      }
      forall i | 0 <= i < |s| {
        buf[i] := s[i];
      }
      buf[|s|] := '\0';
      length := |s|;
      assert buf[..|s|] == s;
      crashed := false;
    }

    /** ixml_membuf_insert: false is IXML_INDEX_SIZE_ERR. */
    method Insert(s: string, index: int) returns (ok: bool)
      requires Valid()
      modifies this, buf
      ensures Valid()
      ensures buf == old(buf) || fresh(buf)
      ensures ok == (0 <= index <= old(length))
      ensures buf == null <==> old(buf) == null && !(ok && s != "")
      ensures Contents() == if ok then old(Contents())[..index] + s + old(Contents())[index..] else old(Contents())
    {
      if index < 0 || index > length {
        return false;
      }
      ghost var was := Contents();
      if s == "" {
        assert was == was[..index] + s + was[index..];
        return true;
      }
      SetSize(length + |s|);
      assert buf[..length] == was;
      InsertInPlace(buf, length, s, index);
      length := length + |s|;
      ok := true;
    }

    /** ixml_membuf_append_str. */
    method AppendStr(s: string)
      requires Valid()
      modifies this, buf
      ensures Valid() && Contents() == old(Contents()) + s
      ensures (buf == old(buf) || fresh(buf)) && (buf == null <==> old(buf) == null && s == "")
    {
      var ok := Insert(s, length);
    }

    /** ixml_membuf_append: one byte. */
    method Append(c: char)
      requires Valid()
      modifies this, buf
      ensures Valid() && Contents() == old(Contents()) + [c]
      ensures (buf == old(buf) || fresh(buf)) && buf != null
    {
      var ok := Insert([c], length);
    }
  }

  /** The memmove, memcpy and terminator of ixml_membuf_insert. */
  method InsertInPlace(b: array<char>, length: nat, s: string, index: nat)
    requires index <= length && length + |s| < b.Length
    modifies b
    ensures b[..length + |s|] == old(b[..index]) + s + old(b[index..length])
    ensures b[length + |s|] == '\0'
  {
    ghost var was := b[..];
    MoveRight(b, index, |s|, length);
    ghost var moved := b[..];
    Memcpy(b, index, s);
    Spliced(was, moved, b[..], length, s, index);
    b[length + |s|] := '\0';
  }

  /** memmove then memcpy, said of whole slices. */
  lemma Spliced(was: string, moved: string, now: string, length: nat, s: string, index: nat)
    requires index <= length && length + |s| < |was| == |moved| == |now|
    requires moved[..index] == was[..index] && moved[index + |s|..length + |s|] == was[index..length]
    requires now == moved[..index] + s + moved[index + |s|..]
    ensures now[..length + |s|] == was[..index] + s + was[index..length]
  {
    assert moved[index + |s|..][..length - index] == moved[index + |s|..length + |s|];
  }

  /** memmove: the bytes from `index` up to `length` go `shift` places to the right, last byte first. */
  method MoveRight(b: array<char>, index: nat, shift: nat, length: nat)
    requires index <= length && length + shift <= b.Length
    modifies b
    ensures b[..index] == old(b[..index])
    ensures b[index + shift..length + shift] == old(b[index..length])
  {
    var i := length;
    while i > index
      invariant index <= i <= length
      invariant forall k | 0 <= k < i :: b[k] == old(b[k])
      invariant b[i + shift..length + shift] == old(b[i..length])
    {
      i := i - 1;
      ghost var done := b[i + 1 + shift..length + shift];
      b[i + shift] := b[i];
      assert b[i + shift..length + shift] == [b[i + shift]] + done;
      assert old(b[i..length]) == [old(b[i])] + old(b[i + 1..length]);
    }
  }

  // ----- sequences of operations -----

  datatype Operation =
    | Insertion(s: string, index: int)
    | AppendString(s: string)
    | AppendByte(c: char)
    | Assignment(s: string)
    | Clearing

  /** A plain string, with a note whether it has a block of memory. */
  datatype Held = Holding(contents: string, hasBlock: bool) | Crashed

  /** The same operation on a plain string. */
  function OnString(held: Held, op: Operation): Held {
    match held
    case Crashed => Crashed
    case Holding(contents, hasBlock) =>
      match op
      case Insertion(s, index) =>
        if 0 <= index <= |contents| && s != "" then Holding(contents[..index] + s + contents[index..], true) else held
      case AppendString(s) => Holding(contents + s, hasBlock || s != "")
      case AppendByte(c) => Holding(contents + [c], true)
      case Assignment(s) => if s == "" && !hasBlock then Crashed else Holding(s, true)
      case Clearing => Holding("", false)
  }

  function AllOnString(held: Held, ops: seq<Operation>): Held
    decreases |ops|
  {
    if ops == [] then held else OnString(AllOnString(held, ops[..|ops| - 1]), ops[|ops| - 1])
  }

  /** After a null pointer was written through nothing more happens. */
  lemma {:induction false} CrashIsFinal(held: Held, ops: seq<Operation>, i: nat)
    requires i <= |ops| && AllOnString(held, ops[..i]) == Crashed
    ensures AllOnString(held, ops) == Crashed
    decreases |ops| - i
  {
    if i < |ops| {
      assert ops[..i + 1][..i] == ops[..i];
      CrashIsFinal(held, ops, i + 1);
    } else {
      assert ops[..i] == ops;
    }
  }

  /** One operation on the buffer. */
  method PerformOne(buf: Membuf, op: Operation) returns (crashed: bool)
    requires buf.Valid()
    modifies buf, buf.buf
    ensures buf.Valid()
    ensures OnString(Holding(old(buf.Contents()), old(buf.buf) != null), op)
         == if crashed then Crashed else Holding(buf.Contents(), buf.buf != null)
    ensures buf.buf == null || buf.buf == old(buf.buf) || fresh(buf.buf)
  {
    crashed := false;
    match op {
      case Insertion(s, index) =>
        ghost var was := buf.Contents();
        assert s == "" && 0 <= index <= |was| ==> was[..index] + s + was[index..] == was;
        var _ := buf.Insert(s, index);
      case AppendString(s) => buf.AppendStr(s);
      case AppendByte(c) => buf.Append(c);
      case Assignment(s) => crashed := buf.Assign(s);
      case Clearing => buf.Destroy();
    }
  }

  /** Whatever the operations, growing and shrinking the buffer as they go, it holds what they make of a plain string. */
  method Perform(buf: Membuf, ops: seq<Operation>) returns (crashed: bool)
    requires buf.Valid()
    modifies buf, buf.buf
    ensures buf.Valid()
    ensures AllOnString(Holding(old(buf.Contents()), old(buf.buf) != null), ops)
         == if crashed then Crashed else Holding(buf.Contents(), buf.buf != null)
    ensures buf.buf == null || buf.buf == old(buf.buf) || fresh(buf.buf)
  {
    hide Membuf.Valid, Membuf.Contents, OnString;
    ghost var held := Holding(buf.Contents(), buf.buf != null);
    for i := 0 to |ops|
      invariant buf.Valid() && AllOnString(held, ops[..i]) == Holding(buf.Contents(), buf.buf != null)
      invariant buf.buf == null || buf.buf == old(buf.buf) || fresh(buf.buf)
    {
      crashed := PerformOne(buf, ops[i]);
      assert ops[..i + 1][..i] == ops[..i];
      if crashed {
        CrashIsFinal(held, ops, i + 1);
        return;
      }
    }
    assert ops[..|ops|] == ops;
    crashed := false;
  }
}
