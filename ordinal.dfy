/**
  * VnPayCompare: the key order of both parameter lists. Equal strings compare
  * equal, null sorts first, and otherwise strings are compared ordinally, code
  * unit by code unit of their UTF-16 form, never by culture-aware collation.
  */
module Ordinal {
  import opened Wrappers

  /** A UTF-16 code unit, the element of a .NET string. */
  type CodeUnit = u: int | 0 <= u < 0x1_0000

  predicate IsHighSurrogate(u: int) { 0xD800 <= u < 0xDC00 }

  /** The UTF-16 code units of one character: one unit, or a surrogate pair. */
  function CharUnits(c: char): (r: seq<CodeUnit>)
    ensures |r| == 1 || |r| == 2
    ensures |r| == 2 <==> IsHighSurrogate(r[0])
  {
    var v := c as int;
    if v < 0x1_0000 then [v]
    else [0xD800 + (v - 0x1_0000) / 0x400, 0xDC00 + (v - 0x1_0000) % 0x400]
  }

  /** The UTF-16 form of a string. */
  function Utf16(s: string): (r: seq<CodeUnit>)
    ensures |r| >= |s|
  {
    if s == [] then [] else CharUnits(s[0]) + Utf16(s[1..])
  }

  /**
    * Ordinal comparison of two code-unit sequences: the difference of the first
    * pair of units that differ, or else the difference of the lengths.
    */
  function CompareUnits(x: seq<CodeUnit>, y: seq<CodeUnit>): (r: int)
  {
    if x == [] || y == [] then |x| - |y|
    else if x[0] != y[0] then x[0] - y[0]
    else CompareUnits(x[1..], y[1..])
  }

  /** VnPayCompare.Compare */
  function Compare(x: Option<string>, y: Option<string>): (r: int)
    ensures r == 0 <==> x == y
    ensures x.None? && y.Some? ==> r < 0
    ensures x.Some? && y.None? ==> r > 0
  {
    if x == y then 0
    else if x.None? then -1
    else if y.None? then 1
    else
      CompareUnitsZero(Utf16(x.value), Utf16(y.value));
      if Utf16(x.value) == Utf16(y.value) then Utf16Injective(x.value, y.value); 0
      else CompareUnits(Utf16(x.value), Utf16(y.value))
  }

  /** The strict order of keys in a sorted list. */
  predicate Less(a: string, b: string) {
    Compare(Some(a), Some(b)) < 0
  }

  lemma CharUnitsPrefixFree(c: char, d: char, s: seq<CodeUnit>, t: seq<CodeUnit>)
    requires CharUnits(c) + s == CharUnits(d) + t
    ensures c == d && s == t
  {
    var cu, du := CharUnits(c), CharUnits(d);
    assert cu[0] == (cu + s)[0] == (du + t)[0] == du[0];
    assert |cu| == |du|;
    if |cu| == 2 {
      assert cu[1] == (cu + s)[1] == (du + t)[1] == du[1];
      var p, q := c as int - 0x1_0000, d as int - 0x1_0000;
      assert p == (p / 0x400) * 0x400 + p % 0x400;
      assert q == (q / 0x400) * 0x400 + q % 0x400;
    }
    assert cu == du;
    assert s == (cu + s)[|cu|..] == (du + t)[|du|..] == t;
  }

  /** Distinct strings have distinct UTF-16 forms. */
  lemma {:induction false} Utf16Injective(a: string, b: string)
    requires Utf16(a) == Utf16(b)
    ensures a == b
  {
    if a != [] && b != [] {
      CharUnitsPrefixFree(a[0], b[0], Utf16(a[1..]), Utf16(b[1..]));
      Utf16Injective(a[1..], b[1..]);
      assert a == [a[0]] + a[1..];
      assert b == [b[0]] + b[1..];
    }
  }

  lemma {:induction false} CompareUnitsZero(x: seq<CodeUnit>, y: seq<CodeUnit>)
    ensures CompareUnits(x, y) == 0 <==> x == y
  {
    if x != [] && y != [] && x[0] == y[0] {
      CompareUnitsZero(x[1..], y[1..]);
      assert x == [x[0]] + x[1..];
      assert y == [y[0]] + y[1..];
    }
  }

  lemma {:induction false} CompareUnitsAntisymmetric(x: seq<CodeUnit>, y: seq<CodeUnit>)
    ensures CompareUnits(y, x) == -CompareUnits(x, y)
  {
    if x != [] && y != [] && x[0] == y[0] {
      CompareUnitsAntisymmetric(x[1..], y[1..]);
    }
  }

  lemma {:induction false} CompareUnitsTransitive(x: seq<CodeUnit>, y: seq<CodeUnit>, z: seq<CodeUnit>)
    requires CompareUnits(x, y) < 0 && CompareUnits(y, z) < 0
    ensures CompareUnits(x, z) < 0
  {
    if x != [] && y != [] && z != [] && x[0] == y[0] == z[0] {
      CompareUnitsTransitive(x[1..], y[1..], z[1..]);
    }
  }

  /** Swapping the arguments negates the result. */
  lemma CompareAntisymmetric(x: Option<string>, y: Option<string>)
    ensures Compare(y, x) == -Compare(x, y)
  {
    if x.Some? && y.Some? && x != y {
      CompareUnitsAntisymmetric(Utf16(x.value), Utf16(y.value));
    }
  }

  lemma CompareTransitive(x: Option<string>, y: Option<string>, z: Option<string>)
    requires Compare(x, y) < 0 && Compare(y, z) < 0
    ensures Compare(x, z) < 0
  {
    if x.Some? && y.Some? && z.Some? {
      CompareUnitsTransitive(Utf16(x.value), Utf16(y.value), Utf16(z.value));
      CompareUnitsZero(Utf16(x.value), Utf16(z.value));
    }
  }

  /** `Less` is a strict total order on strings. */
  lemma LessIsStrictTotalOrder()
    ensures forall a :: !Less(a, a)
    ensures forall a, b :: a != b ==> Less(a, b) || Less(b, a)
    ensures forall a, b :: Less(a, b) ==> !Less(b, a)
    ensures forall a, b, c :: Less(a, b) && Less(b, c) ==> Less(a, c)
  {
    forall a, b | a != b ensures Less(a, b) || Less(b, a) {
      LessTotal(a, b);
    }
    forall a, b | Less(a, b) ensures !Less(b, a) {
      LessAsymmetric(a, b);
    }
    forall a, b, c | Less(a, b) && Less(b, c) ensures Less(a, c) {
      LessTransitive(a, b, c);
    }
  }

  lemma LessAsymmetric(a: string, b: string)
    requires Less(a, b)
    ensures !Less(b, a) && a != b
  {
    CompareAntisymmetric(Some(a), Some(b));
  }

  lemma LessTotal(a: string, b: string)
    requires a != b
    ensures Less(a, b) || Less(b, a)
  {
    CompareAntisymmetric(Some(a), Some(b));
  }

  lemma LessTransitive(a: string, b: string, c: string)
    requires Less(a, b) && Less(b, c)
    ensures Less(a, c)
  {
    CompareTransitive(Some(a), Some(b), Some(c));
  }

  /**
    * The order is that of UTF-16 code units, not of code points: a character
    * outside the Basic Multilingual Plane (a surrogate pair) sorts before U+FFFD.
    */
  lemma SurrogatePairsSortBelowHighBmp()
    ensures Less("\U{1F600}", "\U{FFFD}")
  {
    assert Utf16("\U{1F600}") == [0xD83D, 0xDE00];
    assert Utf16("\U{FFFD}") == [0xFFFD];
  }

  /** Upper-case letters sort before lower-case ones, unlike in culture-aware collation. */
  lemma UpperBeforeLower()
    ensures Less("vnp_Z", "vnp_a")
  {
    assert Utf16("vnp_Z") == ['v' as int, 'n' as int, 'p' as int, '_' as int, 'Z' as int];
    assert Utf16("vnp_a") == ['v' as int, 'n' as int, 'p' as int, '_' as int, 'a' as int];
  }
}
