/**
 The characters of names: the tables Letter and NameChar of the XML parser, and the
 binary search in them (ixmlparser.c, after appendix B of XML 1.0).
 */
module XmlNames {

  /** char_info_t: the first and the last character of a range. */
  datatype CharInfo = CharInfo(l: int, h: int)

  predicate Contains(range: CharInfo, c: int) {
    range.l <= c <= range.h
  }

  predicate InTable(c: int, tbl: seq<CharInfo>) {
    exists i | 0 <= i < |tbl| :: Contains(tbl[i], c)
  }

  predicate Sorted(tbl: seq<CharInfo>) {
    && (forall i | 0 <= i < |tbl| :: tbl[i].l <= tbl[i].h)
    && (forall i, j | 0 <= i < j < |tbl| :: tbl[i].h < tbl[j].l)
  }

  lemma SortedConcat(a: seq<CharInfo>, b: seq<CharInfo>)
    requires Sorted(a) && Sorted(b) && a != [] && b != [] && a[|a| - 1].h < b[0].l
    ensures Sorted(a + b) && |a + b| == |a| + |b| && (a + b)[0] == a[0] && (a + b)[|a + b| - 1] == b[|b| - 1]
  {
    var all := a + b;
    forall i, j | 0 <= i < j < |all| ensures all[i].h < all[j].l {
      if i < |a| <= j {
        assert all[i] == a[i] && all[j] == b[j - |a|];
        assert a[i].h <= a[|a| - 1].h && b[0].l <= b[j - |a|].l;
      }
    }
  }

  /**
   Parser_isCharInTable.  The search also compares with the entry behind the table,
   which a character above the last range is found in if it happens to be there.
   */
  method IsCharInTable(c: int, tbl: seq<CharInfo>, behind: CharInfo) returns (found: bool)
    requires tbl != [] && Sorted(tbl)
    ensures found <==> InTable(c, tbl) || (tbl[|tbl| - 1].h < c && Contains(behind, c))
  {
    var t, b := 0, |tbl|;
    while t <= b
      invariant 0 <= t <= |tbl| + 1 && -1 <= b <= |tbl|
      invariant forall i | 0 <= i < t && i < |tbl| :: tbl[i].h < c
      invariant forall i | b < i < |tbl| :: c < tbl[i].l
      invariant t == |tbl| + 1 ==> !Contains(behind, c)
      invariant b < |tbl| ==> c <= tbl[|tbl| - 1].h || !Contains(behind, c)
      decreases b - t
    {
      var m := (t + b) / 2;
      var entry := if m < |tbl| then tbl[m] else behind;
      if c < entry.l {
        b := m - 1;
      } else if c > entry.h {
        t := m + 1;
      } else {
        return true;
      }
    }
    found := false;
  }

  /** Parser_isNameChar; `inside` admits the characters that cannot start a name. */
  predicate IsNameChar(c: int, inside: bool) {
    || 'A' as int <= c <= 'Z' as int || 'a' as int <= c <= 'z' as int
    || c == '_' as int || c == ':' as int
    || (inside && (c == '-' as int || c == '.' as int || '0' as int <= c <= '9' as int))
    || IsHighNameChar(c, inside)
  }

  /** The same beyond ASCII. */
  predicate IsHighNameChar(c: int, inside: bool) {
    0xB7 <= c <= 0xD7A3 && InTables(c, inside)
  }

  predicate InTables(c: int, inside: bool) {
    InTable(c, Letter()) || (inside && InTable(c, NameChar()))
  }

  /** Those are the characters in the tables. */
  lemma NameCharsAreTables(c: int, inside: bool)
    ensures IsNameChar(c, inside) <==> InTables(c, inside)
  {
    LetterStart(c);
    NameCharStart(c);
    hide Letter, NameChar, InTable;
  }

  lemma LetterStart(c: int)
    ensures c < 0xB7 ==>
      (InTable(c, Letter()) <==> 'A' as int <= c <= 'Z' as int || 'a' as int <= c <= 'z' as int || c == '_' as int || c == ':' as int)
    ensures InTable(c, Letter()) ==> c <= 0xD7A3
  {
    LetterIsSorted();
    LetterFirst();
    hide Letter;
    var tbl := Letter();
    assert Contains(tbl[0], c) || Contains(tbl[1], c) || Contains(tbl[2], c) || Contains(tbl[3], c) ==> InTable(c, tbl);
    assert forall i | 4 <= i < |tbl| :: 0xB7 < tbl[i].l <= tbl[i].h <= 0xD7A3;
  }

  lemma LetterFirst()
    ensures var tbl := Letter();
      tbl[0] == CharInfo(0x3A, 0x3A) && tbl[1] == CharInfo(0x41, 0x5A) && tbl[2] == CharInfo(0x5F, 0x5F)
      && tbl[3] == CharInfo(0x61, 0x7A) && tbl[4] == CharInfo(0xC0, 0xD6)
  {
    hide Letter1, Letter2, Letter3, Letter4, Letter5, Letter6, Letter7, Letter8, Letter9, Letter10, Letter11, Letter12;
  }

  lemma NameCharStart(c: int)
    ensures c < 0xB7 ==> (InTable(c, NameChar()) <==> c == '-' as int || c == '.' as int || '0' as int <= c <= '9' as int)
    ensures InTable(c, NameChar()) ==> c <= 0x30FE
  {
    NameCharIsSorted();
    NameCharFirst();
    hide NameChar;
    var tbl := NameChar();
    assert Contains(tbl[0], c) || Contains(tbl[1], c) || Contains(tbl[2], c) ==> InTable(c, tbl);
    assert forall i | 3 <= i < |tbl| :: 0xB7 <= tbl[i].l <= tbl[i].h <= 0x30FE;
  }

  lemma NameCharFirst()
    ensures var tbl := NameChar();
      tbl[0] == CharInfo(0x2D, 0x2D) && tbl[1] == CharInfo(0x2E, 0x2E) && tbl[2] == CharInfo(0x30, 0x39) && tbl[3] == CharInfo(0xB7, 0xB7)
  {
    hide NameChar1, NameChar2, NameChar3, NameChar4, NameChar5, NameChar6, NameChar7;
  }

  /** Parser_isNameChar as it searches, with what lies behind the two tables. */
  method IsNameCharSearch(c: int, bNameChar: bool, afterLetter: CharInfo, afterNameChar: CharInfo) returns (found: bool)
    ensures found <==> IsNameChar(c, bNameChar)
                       || (c > 0xD7A3 && Contains(afterLetter, c))
                       || (bNameChar && c > 0x30FE && Contains(afterNameChar, c))
  {
    hide Letter, NameChar, InTable, Sorted, IsNameChar;
    LetterIsSorted();
    NameCharIsSorted();
    NameCharsAreTables(c, bNameChar);
    found := IsCharInTable(c, Letter(), afterLetter);
    if !found && bNameChar {
      found := IsCharInTable(c, NameChar(), afterNameChar);
    }
  }

  // ----- the tables -----

  /** Letters, ideographic characters, `:` and `_`. */
  function Letter(): seq<CharInfo> {
    Letter0() + Letter1() + Letter2() + Letter3() + Letter4() + Letter5() + Letter6()
    + Letter7() + Letter8() + Letter9() + Letter10() + Letter11() + Letter12()
  }

  function Letter0(): seq<CharInfo> {
    [CharInfo(0x003A, 0x003A), CharInfo(0x0041, 0x005A), CharInfo(0x005F, 0x005F), CharInfo(0x0061, 0x007A),
     CharInfo(0x00C0, 0x00D6), CharInfo(0x00D8, 0x00F6), CharInfo(0x00F8, 0x00FF), CharInfo(0x0100, 0x0131),
     CharInfo(0x0134, 0x013E), CharInfo(0x0141, 0x0148), CharInfo(0x014A, 0x017E), CharInfo(0x0180, 0x01C3),
     CharInfo(0x01CD, 0x01F0), CharInfo(0x01F4, 0x01F5), CharInfo(0x01FA, 0x0217), CharInfo(0x0250, 0x02A8)]
  }

  function Letter1(): seq<CharInfo> {
    [CharInfo(0x02BB, 0x02C1), CharInfo(0x0386, 0x0386), CharInfo(0x0388, 0x038A), CharInfo(0x038C, 0x038C),
     CharInfo(0x038E, 0x03A1), CharInfo(0x03A3, 0x03CE), CharInfo(0x03D0, 0x03D6), CharInfo(0x03DA, 0x03DA),
     CharInfo(0x03DC, 0x03DC), CharInfo(0x03DE, 0x03DE), CharInfo(0x03E0, 0x03E0), CharInfo(0x03E2, 0x03F3),
     CharInfo(0x0401, 0x040C), CharInfo(0x040E, 0x044F), CharInfo(0x0451, 0x045C), CharInfo(0x045E, 0x0481)]
  }

  function Letter2(): seq<CharInfo> {
    [CharInfo(0x0490, 0x04C4), CharInfo(0x04C7, 0x04C8), CharInfo(0x04CB, 0x04CC), CharInfo(0x04D0, 0x04EB),
     CharInfo(0x04EE, 0x04F5), CharInfo(0x04F8, 0x04F9), CharInfo(0x0531, 0x0556), CharInfo(0x0559, 0x0559),
     CharInfo(0x0561, 0x0586), CharInfo(0x05D0, 0x05EA), CharInfo(0x05F0, 0x05F2), CharInfo(0x0621, 0x063A),
     CharInfo(0x0641, 0x064A), CharInfo(0x0671, 0x06B7), CharInfo(0x06BA, 0x06BE), CharInfo(0x06C0, 0x06CE)]
  }

  function Letter3(): seq<CharInfo> {
    [CharInfo(0x06D0, 0x06D3), CharInfo(0x06D5, 0x06D5), CharInfo(0x06E5, 0x06E6), CharInfo(0x0905, 0x0939),
     CharInfo(0x093D, 0x093D), CharInfo(0x0958, 0x0961), CharInfo(0x0985, 0x098C), CharInfo(0x098F, 0x0990),
     CharInfo(0x0993, 0x09A8), CharInfo(0x09AA, 0x09B0), CharInfo(0x09B2, 0x09B2), CharInfo(0x09B6, 0x09B9),
     CharInfo(0x09DC, 0x09DD), CharInfo(0x09DF, 0x09E1), CharInfo(0x09F0, 0x09F1), CharInfo(0x0A05, 0x0A0A)]
  }

  function Letter4(): seq<CharInfo> {
    [CharInfo(0x0A0F, 0x0A10), CharInfo(0x0A13, 0x0A28), CharInfo(0x0A2A, 0x0A30), CharInfo(0x0A32, 0x0A33),
     CharInfo(0x0A35, 0x0A36), CharInfo(0x0A38, 0x0A39), CharInfo(0x0A59, 0x0A5C), CharInfo(0x0A5E, 0x0A5E),
     CharInfo(0x0A72, 0x0A74), CharInfo(0x0A85, 0x0A8B), CharInfo(0x0A8D, 0x0A8D), CharInfo(0x0A8F, 0x0A91),
     CharInfo(0x0A93, 0x0AA8), CharInfo(0x0AAA, 0x0AB0), CharInfo(0x0AB2, 0x0AB3), CharInfo(0x0AB5, 0x0AB9)]
  }

  function Letter5(): seq<CharInfo> {
    [CharInfo(0x0ABD, 0x0ABD), CharInfo(0x0AE0, 0x0AE0), CharInfo(0x0B05, 0x0B0C), CharInfo(0x0B0F, 0x0B10),
     CharInfo(0x0B13, 0x0B28), CharInfo(0x0B2A, 0x0B30), CharInfo(0x0B32, 0x0B33), CharInfo(0x0B36, 0x0B39),
     CharInfo(0x0B3D, 0x0B3D), CharInfo(0x0B5C, 0x0B5D), CharInfo(0x0B5F, 0x0B61), CharInfo(0x0B85, 0x0B8A),
     CharInfo(0x0B8E, 0x0B90), CharInfo(0x0B92, 0x0B95), CharInfo(0x0B99, 0x0B9A), CharInfo(0x0B9C, 0x0B9C)]
  }

  function Letter6(): seq<CharInfo> {
    [CharInfo(0x0B9E, 0x0B9F), CharInfo(0x0BA3, 0x0BA4), CharInfo(0x0BA8, 0x0BAA), CharInfo(0x0BAE, 0x0BB5),
     CharInfo(0x0BB7, 0x0BB9), CharInfo(0x0C05, 0x0C0C), CharInfo(0x0C0E, 0x0C10), CharInfo(0x0C12, 0x0C28),
     CharInfo(0x0C2A, 0x0C33), CharInfo(0x0C35, 0x0C39), CharInfo(0x0C60, 0x0C61), CharInfo(0x0C85, 0x0C8C),
     CharInfo(0x0C8E, 0x0C90), CharInfo(0x0C92, 0x0CA8), CharInfo(0x0CAA, 0x0CB3), CharInfo(0x0CB5, 0x0CB9)]
  }

  function Letter7(): seq<CharInfo> {
    [CharInfo(0x0CDE, 0x0CDE), CharInfo(0x0CE0, 0x0CE1), CharInfo(0x0D05, 0x0D0C), CharInfo(0x0D0E, 0x0D10),
     CharInfo(0x0D12, 0x0D28), CharInfo(0x0D2A, 0x0D39), CharInfo(0x0D60, 0x0D61), CharInfo(0x0E01, 0x0E2E),
     CharInfo(0x0E30, 0x0E30), CharInfo(0x0E32, 0x0E33), CharInfo(0x0E40, 0x0E45), CharInfo(0x0E81, 0x0E82),
     CharInfo(0x0E84, 0x0E84), CharInfo(0x0E87, 0x0E88), CharInfo(0x0E8A, 0x0E8A), CharInfo(0x0E8D, 0x0E8D)]
  }

  function Letter8(): seq<CharInfo> {
    [CharInfo(0x0E94, 0x0E97), CharInfo(0x0E99, 0x0E9F), CharInfo(0x0EA1, 0x0EA3), CharInfo(0x0EA5, 0x0EA5),
     CharInfo(0x0EA7, 0x0EA7), CharInfo(0x0EAA, 0x0EAB), CharInfo(0x0EAD, 0x0EAE), CharInfo(0x0EB0, 0x0EB0),
     CharInfo(0x0EB2, 0x0EB3), CharInfo(0x0EBD, 0x0EBD), CharInfo(0x0EC0, 0x0EC4), CharInfo(0x0F40, 0x0F47),
     CharInfo(0x0F49, 0x0F69), CharInfo(0x10A0, 0x10C5), CharInfo(0x10D0, 0x10F6), CharInfo(0x1100, 0x1100)]
  }

  function Letter9(): seq<CharInfo> {
    [CharInfo(0x1102, 0x1103), CharInfo(0x1105, 0x1107), CharInfo(0x1109, 0x1109), CharInfo(0x110B, 0x110C),
     CharInfo(0x110E, 0x1112), CharInfo(0x113C, 0x113C), CharInfo(0x113E, 0x113E), CharInfo(0x1140, 0x1140),
     CharInfo(0x114C, 0x114C), CharInfo(0x114E, 0x114E), CharInfo(0x1150, 0x1150), CharInfo(0x1154, 0x1155),
     CharInfo(0x1159, 0x1159), CharInfo(0x115F, 0x1161), CharInfo(0x1163, 0x1163), CharInfo(0x1165, 0x1165)]
  }

  function Letter10(): seq<CharInfo> {
    [CharInfo(0x1167, 0x1167), CharInfo(0x1169, 0x1169), CharInfo(0x116D, 0x116E), CharInfo(0x1172, 0x1173),
     CharInfo(0x1175, 0x1175), CharInfo(0x119E, 0x119E), CharInfo(0x11A8, 0x11A8), CharInfo(0x11AB, 0x11AB),
     CharInfo(0x11AE, 0x11AF), CharInfo(0x11B7, 0x11B8), CharInfo(0x11BA, 0x11BA), CharInfo(0x11BC, 0x11C2),
     CharInfo(0x11EB, 0x11EB), CharInfo(0x11F0, 0x11F0), CharInfo(0x11F9, 0x11F9), CharInfo(0x1E00, 0x1E9B)]
  }

  function Letter11(): seq<CharInfo> {
    [CharInfo(0x1EA0, 0x1EF9), CharInfo(0x1F00, 0x1F15), CharInfo(0x1F18, 0x1F1D), CharInfo(0x1F20, 0x1F45),
     CharInfo(0x1F48, 0x1F4D), CharInfo(0x1F50, 0x1F57), CharInfo(0x1F59, 0x1F59), CharInfo(0x1F5B, 0x1F5B),
     CharInfo(0x1F5D, 0x1F5D), CharInfo(0x1F5F, 0x1F7D), CharInfo(0x1F80, 0x1FB4), CharInfo(0x1FB6, 0x1FBC),
     CharInfo(0x1FBE, 0x1FBE), CharInfo(0x1FC2, 0x1FC4), CharInfo(0x1FC6, 0x1FCC), CharInfo(0x1FD0, 0x1FD3)]
  }

  function Letter12(): seq<CharInfo> {
    [CharInfo(0x1FD6, 0x1FDB), CharInfo(0x1FE0, 0x1FEC), CharInfo(0x1FF2, 0x1FF4), CharInfo(0x1FF6, 0x1FFC),
     CharInfo(0x2126, 0x2126), CharInfo(0x212A, 0x212B), CharInfo(0x212E, 0x212E), CharInfo(0x2180, 0x2182),
     CharInfo(0x3007, 0x3007), CharInfo(0x3021, 0x3029), CharInfo(0x3041, 0x3094), CharInfo(0x30A1, 0x30FA),
     CharInfo(0x3105, 0x312C), CharInfo(0x4E00, 0x9FA5), CharInfo(0xAC00, 0xD7A3)]
  }

  lemma LetterIsSorted()
    ensures |Letter()| == 207 && Sorted(Letter())
    ensures Letter()[0] == CharInfo(0x003A, 0x003A) && Letter()[206] == CharInfo(0xAC00, 0xD7A3)
  {
    hide Sorted, Letter0, Letter1, Letter2, Letter3, Letter4, Letter5, Letter6, Letter7, Letter8, Letter9, Letter10, Letter11, Letter12;
    Letter0IsSorted();
    Letter1IsSorted();
    Letter2IsSorted();
    Letter3IsSorted();
    Letter4IsSorted();
    Letter5IsSorted();
    Letter6IsSorted();
    Letter7IsSorted();
    Letter8IsSorted();
    Letter9IsSorted();
    Letter10IsSorted();
    Letter11IsSorted();
    Letter12IsSorted();
    var to1 := Letter0() + Letter1();
    SortedConcat(Letter0(), Letter1());
    var to2 := to1 + Letter2();
    SortedConcat(to1, Letter2());
    var to3 := to2 + Letter3();
    SortedConcat(to2, Letter3());
    var to4 := to3 + Letter4();
    SortedConcat(to3, Letter4());
    var to5 := to4 + Letter5();
    SortedConcat(to4, Letter5());
    var to6 := to5 + Letter6();
    SortedConcat(to5, Letter6());
    var to7 := to6 + Letter7();
    SortedConcat(to6, Letter7());
    var to8 := to7 + Letter8();
    SortedConcat(to7, Letter8());
    var to9 := to8 + Letter9();
    SortedConcat(to8, Letter9());
    var to10 := to9 + Letter10();
    SortedConcat(to9, Letter10());
    var to11 := to10 + Letter11();
    SortedConcat(to10, Letter11());
    var to12 := to11 + Letter12();
    SortedConcat(to11, Letter12());
  }

  lemma Letter0IsSorted()
    ensures Sorted(Letter0()) && |Letter0()| == 16
    ensures Letter0()[0] == CharInfo(0x003A, 0x003A) && Letter0()[15] == CharInfo(0x0250, 0x02A8)
  {
  }

  lemma Letter1IsSorted()
    ensures Sorted(Letter1()) && |Letter1()| == 16
    ensures Letter1()[0] == CharInfo(0x02BB, 0x02C1) && Letter1()[15] == CharInfo(0x045E, 0x0481)
  {
  }

  lemma Letter2IsSorted()
    ensures Sorted(Letter2()) && |Letter2()| == 16
    ensures Letter2()[0] == CharInfo(0x0490, 0x04C4) && Letter2()[15] == CharInfo(0x06C0, 0x06CE)
  {
  }

  lemma Letter3IsSorted()
    ensures Sorted(Letter3()) && |Letter3()| == 16
    ensures Letter3()[0] == CharInfo(0x06D0, 0x06D3) && Letter3()[15] == CharInfo(0x0A05, 0x0A0A)
  {
  }

  lemma Letter4IsSorted()
    ensures Sorted(Letter4()) && |Letter4()| == 16
    ensures Letter4()[0] == CharInfo(0x0A0F, 0x0A10) && Letter4()[15] == CharInfo(0x0AB5, 0x0AB9)
  {
  }

  lemma Letter5IsSorted()
    ensures Sorted(Letter5()) && |Letter5()| == 16
    ensures Letter5()[0] == CharInfo(0x0ABD, 0x0ABD) && Letter5()[15] == CharInfo(0x0B9C, 0x0B9C)
  {
  }

  lemma Letter6IsSorted()
    ensures Sorted(Letter6()) && |Letter6()| == 16
    ensures Letter6()[0] == CharInfo(0x0B9E, 0x0B9F) && Letter6()[15] == CharInfo(0x0CB5, 0x0CB9)
  {
  }

  lemma Letter7IsSorted()
    ensures Sorted(Letter7()) && |Letter7()| == 16
    ensures Letter7()[0] == CharInfo(0x0CDE, 0x0CDE) && Letter7()[15] == CharInfo(0x0E8D, 0x0E8D)
  {
  }

  lemma Letter8IsSorted()
    ensures Sorted(Letter8()) && |Letter8()| == 16
    ensures Letter8()[0] == CharInfo(0x0E94, 0x0E97) && Letter8()[15] == CharInfo(0x1100, 0x1100)
  {
  }

  lemma Letter9IsSorted()
    ensures Sorted(Letter9()) && |Letter9()| == 16
    ensures Letter9()[0] == CharInfo(0x1102, 0x1103) && Letter9()[15] == CharInfo(0x1165, 0x1165)
  {
  }

  lemma Letter10IsSorted()
    ensures Sorted(Letter10()) && |Letter10()| == 16
    ensures Letter10()[0] == CharInfo(0x1167, 0x1167) && Letter10()[15] == CharInfo(0x1E00, 0x1E9B)
  {
  }

  lemma Letter11IsSorted()
    ensures Sorted(Letter11()) && |Letter11()| == 16
    ensures Letter11()[0] == CharInfo(0x1EA0, 0x1EF9) && Letter11()[15] == CharInfo(0x1FD0, 0x1FD3)
  {
  }

  lemma Letter12IsSorted()
    ensures Sorted(Letter12()) && |Letter12()| == 15
    ensures Letter12()[0] == CharInfo(0x1FD6, 0x1FDB) && Letter12()[14] == CharInfo(0xAC00, 0xD7A3)
  {
  }

  /** Digits, `-`, `.`, combining characters and extenders. */
  function NameChar(): seq<CharInfo> {
    NameChar0() + NameChar1() + NameChar2() + NameChar3() + NameChar4() + NameChar5() + NameChar6()
    + NameChar7()
  }

  function NameChar0(): seq<CharInfo> {
    [CharInfo(0x002D, 0x002D), CharInfo(0x002E, 0x002E), CharInfo(0x0030, 0x0039), CharInfo(0x00B7, 0x00B7),
     CharInfo(0x02D0, 0x02D0), CharInfo(0x02D1, 0x02D1), CharInfo(0x0300, 0x0345), CharInfo(0x0360, 0x0361),
     CharInfo(0x0387, 0x0387), CharInfo(0x0483, 0x0486), CharInfo(0x0591, 0x05A1), CharInfo(0x05A3, 0x05B9),
     CharInfo(0x05BB, 0x05BD), CharInfo(0x05BF, 0x05BF), CharInfo(0x05C1, 0x05C2), CharInfo(0x05C4, 0x05C4)]
  }

  function NameChar1(): seq<CharInfo> {
    [CharInfo(0x0640, 0x0640), CharInfo(0x064B, 0x0652), CharInfo(0x0660, 0x0669), CharInfo(0x0670, 0x0670),
     CharInfo(0x06D6, 0x06DC), CharInfo(0x06DD, 0x06DF), CharInfo(0x06E0, 0x06E4), CharInfo(0x06E7, 0x06E8),
     CharInfo(0x06EA, 0x06ED), CharInfo(0x06F0, 0x06F9), CharInfo(0x0901, 0x0903), CharInfo(0x093C, 0x093C),
     CharInfo(0x093E, 0x094C), CharInfo(0x094D, 0x094D), CharInfo(0x0951, 0x0954), CharInfo(0x0962, 0x0963)]
  }

  function NameChar2(): seq<CharInfo> {
    [CharInfo(0x0966, 0x096F), CharInfo(0x0981, 0x0983), CharInfo(0x09BC, 0x09BC), CharInfo(0x09BE, 0x09BE),
     CharInfo(0x09BF, 0x09BF), CharInfo(0x09C0, 0x09C4), CharInfo(0x09C7, 0x09C8), CharInfo(0x09CB, 0x09CD),
     CharInfo(0x09D7, 0x09D7), CharInfo(0x09E2, 0x09E3), CharInfo(0x09E6, 0x09EF), CharInfo(0x0A02, 0x0A02),
     CharInfo(0x0A3C, 0x0A3C), CharInfo(0x0A3E, 0x0A3E), CharInfo(0x0A3F, 0x0A3F), CharInfo(0x0A40, 0x0A42)]
  }

  function NameChar3(): seq<CharInfo> {
    [CharInfo(0x0A47, 0x0A48), CharInfo(0x0A4B, 0x0A4D), CharInfo(0x0A66, 0x0A6F), CharInfo(0x0A70, 0x0A71),
     CharInfo(0x0A81, 0x0A83), CharInfo(0x0ABC, 0x0ABC), CharInfo(0x0ABE, 0x0AC5), CharInfo(0x0AC7, 0x0AC9),
     CharInfo(0x0ACB, 0x0ACD), CharInfo(0x0AE6, 0x0AEF), CharInfo(0x0B01, 0x0B03), CharInfo(0x0B3C, 0x0B3C),
     CharInfo(0x0B3E, 0x0B43), CharInfo(0x0B47, 0x0B48), CharInfo(0x0B4B, 0x0B4D), CharInfo(0x0B56, 0x0B57)]
  }

  function NameChar4(): seq<CharInfo> {
    [CharInfo(0x0B66, 0x0B6F), CharInfo(0x0B82, 0x0B83), CharInfo(0x0BBE, 0x0BC2), CharInfo(0x0BC6, 0x0BC8),
     CharInfo(0x0BCA, 0x0BCD), CharInfo(0x0BD7, 0x0BD7), CharInfo(0x0BE7, 0x0BEF), CharInfo(0x0C01, 0x0C03),
     CharInfo(0x0C3E, 0x0C44), CharInfo(0x0C46, 0x0C48), CharInfo(0x0C4A, 0x0C4D), CharInfo(0x0C55, 0x0C56),
     CharInfo(0x0C66, 0x0C6F), CharInfo(0x0C82, 0x0C83), CharInfo(0x0CBE, 0x0CC4), CharInfo(0x0CC6, 0x0CC8)]
  }

  function NameChar5(): seq<CharInfo> {
    [CharInfo(0x0CCA, 0x0CCD), CharInfo(0x0CD5, 0x0CD6), CharInfo(0x0CE6, 0x0CEF), CharInfo(0x0D02, 0x0D03),
     CharInfo(0x0D3E, 0x0D43), CharInfo(0x0D46, 0x0D48), CharInfo(0x0D4A, 0x0D4D), CharInfo(0x0D57, 0x0D57),
     CharInfo(0x0D66, 0x0D6F), CharInfo(0x0E31, 0x0E31), CharInfo(0x0E34, 0x0E3A), CharInfo(0x0E46, 0x0E46),
     CharInfo(0x0E47, 0x0E4E), CharInfo(0x0E50, 0x0E59), CharInfo(0x0EB1, 0x0EB1), CharInfo(0x0EB4, 0x0EB9)]
  }

  function NameChar6(): seq<CharInfo> {
    [CharInfo(0x0EBB, 0x0EBC), CharInfo(0x0EC6, 0x0EC6), CharInfo(0x0EC8, 0x0ECD), CharInfo(0x0ED0, 0x0ED9),
     CharInfo(0x0F18, 0x0F19), CharInfo(0x0F20, 0x0F29), CharInfo(0x0F35, 0x0F35), CharInfo(0x0F37, 0x0F37),
     CharInfo(0x0F39, 0x0F39), CharInfo(0x0F3E, 0x0F3E), CharInfo(0x0F3F, 0x0F3F), CharInfo(0x0F71, 0x0F84),
     CharInfo(0x0F86, 0x0F8B), CharInfo(0x0F90, 0x0F95), CharInfo(0x0F97, 0x0F97), CharInfo(0x0F99, 0x0FAD)]
  }

  function NameChar7(): seq<CharInfo> {
    [CharInfo(0x0FB1, 0x0FB7), CharInfo(0x0FB9, 0x0FB9), CharInfo(0x20D0, 0x20DC), CharInfo(0x20E1, 0x20E1),
     CharInfo(0x3005, 0x3005), CharInfo(0x302A, 0x302F), CharInfo(0x3031, 0x3035), CharInfo(0x3099, 0x3099),
     CharInfo(0x309A, 0x309A), CharInfo(0x309D, 0x309E), CharInfo(0x30FC, 0x30FE)]
  }

  lemma NameCharIsSorted()
    ensures |NameChar()| == 123 && Sorted(NameChar())
    ensures NameChar()[0] == CharInfo(0x002D, 0x002D) && NameChar()[122] == CharInfo(0x30FC, 0x30FE)
  {
    hide Sorted, NameChar0, NameChar1, NameChar2, NameChar3, NameChar4, NameChar5, NameChar6, NameChar7;
    NameChar0IsSorted();
    NameChar1IsSorted();
    NameChar2IsSorted();
    NameChar3IsSorted();
    NameChar4IsSorted();
    NameChar5IsSorted();
    NameChar6IsSorted();
    NameChar7IsSorted();
    var to1 := NameChar0() + NameChar1();
    SortedConcat(NameChar0(), NameChar1());
    var to2 := to1 + NameChar2();
    SortedConcat(to1, NameChar2());
    var to3 := to2 + NameChar3();
    SortedConcat(to2, NameChar3());
    var to4 := to3 + NameChar4();
    SortedConcat(to3, NameChar4());
    var to5 := to4 + NameChar5();
    SortedConcat(to4, NameChar5());
    var to6 := to5 + NameChar6();
    SortedConcat(to5, NameChar6());
    var to7 := to6 + NameChar7();
    SortedConcat(to6, NameChar7());
  }

  lemma NameChar0IsSorted()
    ensures Sorted(NameChar0()) && |NameChar0()| == 16
    ensures NameChar0()[0] == CharInfo(0x002D, 0x002D) && NameChar0()[15] == CharInfo(0x05C4, 0x05C4)
  {
  }

  lemma NameChar1IsSorted()
    ensures Sorted(NameChar1()) && |NameChar1()| == 16
    ensures NameChar1()[0] == CharInfo(0x0640, 0x0640) && NameChar1()[15] == CharInfo(0x0962, 0x0963)
  {
  }

  lemma NameChar2IsSorted()
    ensures Sorted(NameChar2()) && |NameChar2()| == 16
    ensures NameChar2()[0] == CharInfo(0x0966, 0x096F) && NameChar2()[15] == CharInfo(0x0A40, 0x0A42)
  {
  }

  lemma NameChar3IsSorted()
    ensures Sorted(NameChar3()) && |NameChar3()| == 16
    ensures NameChar3()[0] == CharInfo(0x0A47, 0x0A48) && NameChar3()[15] == CharInfo(0x0B56, 0x0B57)
  {
  }

  lemma NameChar4IsSorted()
    ensures Sorted(NameChar4()) && |NameChar4()| == 16
    ensures NameChar4()[0] == CharInfo(0x0B66, 0x0B6F) && NameChar4()[15] == CharInfo(0x0CC6, 0x0CC8)
  {
  }

  lemma NameChar5IsSorted()
    ensures Sorted(NameChar5()) && |NameChar5()| == 16
    ensures NameChar5()[0] == CharInfo(0x0CCA, 0x0CCD) && NameChar5()[15] == CharInfo(0x0EB4, 0x0EB9)
  {
  }

  lemma NameChar6IsSorted()
    ensures Sorted(NameChar6()) && |NameChar6()| == 16
    ensures NameChar6()[0] == CharInfo(0x0EBB, 0x0EBC) && NameChar6()[15] == CharInfo(0x0F99, 0x0FAD)
  {
  }

  lemma NameChar7IsSorted()
    ensures Sorted(NameChar7()) && |NameChar7()| == 11
    ensures NameChar7()[0] == CharInfo(0x0FB1, 0x0FB7) && NameChar7()[10] == CharInfo(0x30FC, 0x30FE)
  {
  }
}
