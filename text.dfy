/** The parts of the .NET string API that the payment client relies on. */
module Text {
  import opened Wrappers

  type byte = b: int | 0 <= b < 0x100

  /** string.IsNullOrEmpty */
  predicate IsNullOrEmpty(s: Option<string>) {
    s.None? || s.value == ""
  }

  /** Ordinal prefix test. */
  predicate StartsWith(s: string, prefix: string) {
    prefix <= s
  }

  /** Case folding of a single character (ASCII letters only). */
  function FoldCase(c: char): (r: char)
    ensures r == c || ('A' <= c <= 'Z' && r as int == c as int + 32)
  {
    if 'A' <= c <= 'Z' then (c as int + 32) as char else c
  }

  function ToUpper(s: string): (r: string)
    ensures |r| == |s|
    ensures forall i :: 0 <= i < |s| ==> FoldCase(r[i]) == FoldCase(s[i])
  {
    seq(|s|, i requires 0 <= i < |s| => if 'a' <= s[i] <= 'z' then (s[i] as int - 32) as char else s[i])
  }

  /**
    * `a.Equals(b, StringComparison.InvariantCultureIgnoreCase)` for a non-null `a`:
    * false when `b` is null, otherwise equality up to letter case.
    */
  predicate EqualsIgnoreCase(a: string, b: Option<string>) {
    b.Some? && |a| == |b.value| && forall i :: 0 <= i < |a| ==> FoldCase(a[i]) == FoldCase(b.value[i])
  }

  /** The UTF-8 encoding of one Unicode scalar value (Encoding.UTF8). */
  function Utf8(c: char): (r: seq<byte>)
    ensures 1 <= |r| <= 4
    ensures (|r| == 1) <==> c as int < 0x80
    ensures |r| > 1 ==> forall i :: 0 <= i < |r| ==> r[i] >= 0x80
  {
    var v := c as int;
    if v < 0x80 then [v]
    else if v < 0x800 then [0xC0 + v / 0x40, 0x80 + v % 0x40]
    else if v < 0x1_0000 then [0xE0 + v / 0x1000, 0x80 + (v / 0x40) % 0x40, 0x80 + v % 0x40]
    else [0xF0 + v / 0x4_0000, 0x80 + (v / 0x1000) % 0x40, 0x80 + (v / 0x40) % 0x40, 0x80 + v % 0x40]
  }

  /** The first byte of an encoding tells its length, as UTF-8 decoders rely on. */
  lemma Utf8LeadByte(c: char)
    ensures |Utf8(c)| == 1 <==> Utf8(c)[0] < 0x80
    ensures |Utf8(c)| == 2 <==> 0xC0 <= Utf8(c)[0] < 0xE0
    ensures |Utf8(c)| == 3 <==> 0xE0 <= Utf8(c)[0] < 0xF0
    ensures |Utf8(c)| == 4 <==> 0xF0 <= Utf8(c)[0]
  {
  }

  /** The code point a well-formed UTF-8 sequence of one to four bytes stands for. */
  function Utf8Value(bs: seq<byte>): int
    requires 1 <= |bs| <= 4
  {
    if |bs| == 1 then bs[0] as int
    else if |bs| == 2 then (bs[0] as int - 0xC0) * 0x40 + (bs[1] as int - 0x80)
    else if |bs| == 3 then
      (bs[0] as int - 0xE0) * 0x1000 + (bs[1] as int - 0x80) * 0x40 + (bs[2] as int - 0x80)
    else
      (bs[0] as int - 0xF0) * 0x4_0000 + (bs[1] as int - 0x80) * 0x1000
        + (bs[2] as int - 0x80) * 0x40 + (bs[3] as int - 0x80)
  }

  /** Decoding undoes the encoding. */
  lemma Utf8Decodes(c: char)
    ensures Utf8Value(Utf8(c)) == c as int
  {
    var v := c as int;
    if v < 0x80 {
    } else if v < 0x800 {
      assert v == (v / 0x40) * 0x40 + v % 0x40;
    } else if v < 0x1_0000 {
      assert v / 0x40 == (v / 0x1000) * 0x40 + (v / 0x40) % 0x40;
      assert v == (v / 0x40) * 0x40 + v % 0x40;
    } else {
      assert v / 0x1000 == (v / 0x4_0000) * 0x40 + (v / 0x1000) % 0x40;
      assert v / 0x40 == (v / 0x1000) * 0x40 + (v / 0x40) % 0x40;
      assert v == (v / 0x40) * 0x40 + v % 0x40;
    }
  }

  /** Distinct characters have distinct encodings. */
  lemma Utf8Injective(c1: char, c2: char)
    ensures Utf8(c1) == Utf8(c2) ==> c1 == c2
  {
    Utf8Decodes(c1);
    Utf8Decodes(c2);
  }
}
