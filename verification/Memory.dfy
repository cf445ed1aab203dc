/**
 The block copy of the C library.
 */
module Memory {

  /** memcpy of `s` to offset `at`. */
  method Memcpy<T>(b: array<T>, at: nat, s: seq<T>)
    requires at + |s| <= b.Length
    modifies b
    ensures b[..] == old(b[..at]) + s + old(b[at + |s|..])
  {
    for i := 0 to |s|
      invariant b[..] == old(b[..at]) + s[..i] + old(b[at + i..])
    {
      b[at + i] := s[i];
    }
    assert s[..|s|] == s;
  }
}
