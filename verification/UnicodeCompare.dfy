/**
 The case-insensitive string comparison of Apple Technical Note TN1150, section
 "Case-Insensitive String Comparison Algorithm", as the catalog tree uses it.
 Strings are sequences of 16-bit code units.
 */
module UnicodeCompare {
  import opened Orderings

  const TABLE_SIZE: nat := 2816

  /** The high-byte part of the lower-case table: where the subtable of a high byte starts. */
  function SubtableOf(highByte: nat): nat {
    match highByte
    case 0x00 => 0x0100
    case 0x01 => 0x0200
    case 0x03 => 0x0300
    case 0x04 => 0x0400
    case 0x05 => 0x0500
    case 0x10 => 0x0600
    case 0x20 => 0x0700
    case 0x21 => 0x0800
    case 0xFE => 0x0900
    case 0xFF => 0x0A00
    case _ => 0
  }

  ghost predicate IsLowerCaseTable(table: seq<nat>) {
    |table| == TABLE_SIZE && forall h :: 0 <= h < 256 ==> table[h] == SubtableOf(h)
  }

  /** The lower-case table: the high-byte part above, followed by any subtables. */
  type CaseTable = table: seq<nat> | IsLowerCaseTable(table)
    ghost witness seq(TABLE_SIZE, i => if 0 <= i < 256 then SubtableOf(i) else 0)

  type CodeUnit = c: nat | c < 0x1_0000

  type HfsString = seq<CodeUnit>

  /** Folds one code unit; an ignorable unit folds to zero. */
  function Fold(table: CaseTable, c: CodeUnit): nat
  {
    var temp := table[c / 256];
    if temp != 0 then table[temp + c % 256] else c
  }

  /** Which entry of the table a unit folds to, block by block; units of other blocks are not folded. */
  lemma {:induction false} FoldIs(table: CaseTable, c: CodeUnit)
    ensures c < 0x0200 ==> Fold(table, c) == table[0x0100 + c]
    ensures 0x0300 <= c < 0x0600 ==> Fold(table, c) == table[c]
    ensures 0x1000 <= c < 0x1100 ==> Fold(table, c) == table[0x0600 + (c - 0x1000)]
    ensures 0x2000 <= c < 0x2200 ==> Fold(table, c) == table[0x0700 + (c - 0x2000)]
    ensures 0xFE00 <= c ==> Fold(table, c) == table[0x0900 + (c - 0xFE00)]
    ensures 0x0200 <= c < 0x0300 || 0x0600 <= c < 0x1000 || 0x1100 <= c < 0x2000 || 0x2200 <= c < 0xFE00 ==>
      Fold(table, c) == c
  {
    assert table[c / 256] == SubtableOf(c / 256);
  }

  /** The string after folding every unit and dropping the ignorable ones. */
  function Folded(table: CaseTable, s: HfsString): seq<nat>
  {
    if s == [] then []
    else if Fold(table, s[0]) == 0 then Folded(table, s[1..])
    else [Fold(table, s[0])] + Folded(table, s[1..])
  }

  /** Folding a string is folding its units, without those that fold to zero. */
  lemma {:induction false} FoldedIs(table: CaseTable, a: HfsString, b: HfsString, c: CodeUnit)
    ensures Folded(table, []) == []
    ensures Folded(table, [c]) == if Fold(table, c) == 0 then [] else [Fold(table, c)]
    ensures Folded(table, a + b) == Folded(table, a) + Folded(table, b)
  {
    assert [c][1..] == [];
    if a == [] {
      assert a + b == b;
    } else {
      assert (a + b)[1..] == a[1..] + b;
      FoldedIs(table, a[1..], b, c);
    }
  }

  /** Advances to the next unit that is not ignorable; returns zero when there is none. */
  method NextFolded(table: CaseTable, s: HfsString, start: nat) returns (c: nat, next: nat)
    requires start <= |s|
    ensures start <= next <= |s|
    ensures c == 0 ==> next == |s| && Folded(table, s[start..]) == []
    ensures c != 0 ==> start < next && Folded(table, s[start..]) == [c] + Folded(table, s[next..])
  {
    c, next := 0, start;
    while next < |s|
      invariant start <= next <= |s| && c == 0
      invariant Folded(table, s[start..]) == Folded(table, s[next..])
    {
      c := s[next];
      assert s[next..][1..] == s[next + 1..];
      next := next + 1;
      var temp := table[c / 256];
      if temp != 0 {
        c := table[temp + c % 256];
      }
      if c != 0 {
        break;
      }
    }
  }

  /** The order of TN1150: lexicographic on the folded strings. */
  function CompareFolded(table: CaseTable, s1: HfsString, s2: HfsString): Ordering
  {
    CompareSeq(Folded(table, s1), Folded(table, s2))
  }

  /** The comparison loop decides the lexicographic order of the folded strings. */
  method FastUnicodeCompare(table: CaseTable, str1: HfsString, str2: HfsString) returns (r: Ordering)
    ensures r == CompareFolded(table, str1, str2)
    ensures r == Less <==> LexBefore(Folded(table, str1), Folded(table, str2))
    ensures r == Greater <==> LexBefore(Folded(table, str2), Folded(table, str1))
  {
    CompareSeqIsLexicographic(Folded(table, str1), Folded(table, str2));
    var i1, i2, c1, c2 := 0, 0, 0, 0;
    assert str1[0..] == str1 && str2[0..] == str2;
    while true
      invariant i1 <= |str1| && i2 <= |str2|
      invariant CompareSeq(Folded(table, str1), Folded(table, str2))
             == CompareSeq(Folded(table, str1[i1..]), Folded(table, str2[i2..]))
      decreases |str1| - i1
    {
      c1, i1 := NextFolded(table, str1, i1);
      c2, i2 := NextFolded(table, str2, i2);
      if c1 != c2 {
        break;
      }
      if c1 == 0 {
        return Equal;
      }
    }
    r := if c1 < c2 then Less else Greater;
  }
}
