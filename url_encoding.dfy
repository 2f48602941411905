/**
  * WebUtility.UrlEncode, the encoder both sides apply to every key and value
  * before signing. It is form-style: a space becomes '+', the characters
  * a-z, A-Z, 0-9 and - _ . ! * ( ) are kept, and every other character is
  * written as the UTF-8 bytes of that character, each as '%' and two
  * upper-case hexadecimal digits.
  */
module UrlEncoding {
  import opened Text

  /** The characters WebUtility.UrlEncode copies unchanged. */
  predicate IsUrlSafeChar(c: char) {
    'a' <= c <= 'z' || 'A' <= c <= 'Z' || '0' <= c <= '9'
    || c == '-' || c == '_' || c == '.' || c == '!' || c == '*' || c == '(' || c == ')'
  }

  predicate IsUpperHexDigit(c: char) {
    '0' <= c <= '9' || 'A' <= c <= 'F'
  }

  /** The characters that can appear in an encoded string. */
  predicate IsEncodedChar(c: char) {
    IsUrlSafeChar(c) || c == '+' || c == '%'
  }

  function UpperHexDigit(n: int): (c: char)
    requires 0 <= n < 16
    ensures IsUpperHexDigit(c)
  {
    if n < 10 then ('0' as int + n) as char else ('A' as int + n - 10) as char
  }

  /** Each byte as '%' followed by two upper-case hex digits. */
  function PercentEncode(bs: seq<byte>): (r: string)
    ensures |r| == 3 * |bs|
    ensures forall i :: 0 <= i < |r| ==> r[i] == '%' || IsUpperHexDigit(r[i])
  {
    if bs == [] then ""
    else PercentEncode(bs[..|bs| - 1]) + ['%', UpperHexDigit(bs[|bs| - 1] / 16), UpperHexDigit(bs[|bs| - 1] % 16)]
  }

  function EncodeChar(c: char): (r: string)
    ensures r != []
  {
    if IsUrlSafeChar(c) then [c]
    else if c == ' ' then "+"
    else PercentEncode(Utf8(c))
  }

  /** WebUtility.UrlEncode on a non-null string. */
  function UrlEncode(s: string): (r: string)
    ensures |r| >= |s|
  {
    if s == [] then ""
    else EncodeChar(s[0]) + UrlEncode(s[1..])
  }

  lemma EncodeCharAlphabet(c: char)
    ensures forall i :: 0 <= i < |EncodeChar(c)| ==> IsEncodedChar(EncodeChar(c)[i])
  {
    if !IsUrlSafeChar(c) && c != ' ' {
      var p := PercentEncode(Utf8(c));
      assert forall i :: 0 <= i < |p| ==> p[i] == '%' || IsUpperHexDigit(p[i]);
    }
  }

  /** The output holds only safe characters, '+' and '%'. */
  lemma {:induction false} UrlEncodeAlphabet(s: string)
    ensures forall i :: 0 <= i < |UrlEncode(s)| ==> IsEncodedChar(UrlEncode(s)[i])
  {
    if s != [] {
      UrlEncodeAlphabet(s[1..]);
      EncodeCharAlphabet(s[0]);
      EncodedConcat(EncodeChar(s[0]), UrlEncode(s[1..]));
    }
  }

  lemma EncodedConcat(p: string, e: string)
    requires forall i :: 0 <= i < |p| ==> IsEncodedChar(p[i])
    requires forall i :: 0 <= i < |e| ==> IsEncodedChar(e[i])
    ensures forall i :: 0 <= i < |p + e| ==> IsEncodedChar((p + e)[i])
  {
    forall i | 0 <= i < |p + e| ensures IsEncodedChar((p + e)[i]) {
      if i >= |p| { assert (p + e)[i] == e[i - |p|]; }
    }
  }

  /** So an encoded key or value never contains the separators '&' and '=' of the query string. */
  lemma UrlEncodeNoSeparators(s: string)
    ensures forall i :: 0 <= i < |UrlEncode(s)| ==> UrlEncode(s)[i] != '&' && UrlEncode(s)[i] != '='
  {
    UrlEncodeAlphabet(s);
  }

  /** Strings made only of safe characters, such as each of the twelve request keys, encode to themselves. */
  lemma {:induction false} UrlEncodeSafeIdentity(s: string)
    requires forall i :: 0 <= i < |s| ==> IsUrlSafeChar(s[i])
    ensures UrlEncode(s) == s
  {
    if s != [] {
      UrlEncodeSafeIdentity(s[1..]);
      assert s == [s[0]] + s[1..];
    }
  }

  /** The encoding is form-style: a space becomes '+', not "%20". */
  lemma SpaceIsPlus(s: string)
    ensures UrlEncode(s + " ") == UrlEncode(s) + "+"
  {
    UrlEncodeConcat(s, " ");
  }

  /** Byte i of the input sits at positions 3i to 3i+2 of the output. */
  lemma {:induction false} PercentEncodeAt(bs: seq<byte>, i: nat)
    requires i < |bs|
    ensures PercentEncode(bs)[3 * i] == '%'
    ensures PercentEncode(bs)[3 * i + 1] == UpperHexDigit(bs[i] / 16)
    ensures PercentEncode(bs)[3 * i + 2] == UpperHexDigit(bs[i] % 16)
  {
    var p := bs[..|bs| - 1];
    if i < |p| {
      PercentEncodeAt(p, i);
      assert bs[i] == p[i];
    }
  }

  lemma UpperHexDigitInjective(a: int, b: int)
    requires 0 <= a < 16 && 0 <= b < 16
    ensures UpperHexDigit(a) == UpperHexDigit(b) ==> a == b
  {
  }

  /** Distinct byte strings have distinct percent-encodings. */
  lemma PercentEncodeInjective(b1: seq<byte>, b2: seq<byte>)
    ensures PercentEncode(b1) == PercentEncode(b2) ==> b1 == b2
  {
    if PercentEncode(b1) == PercentEncode(b2) {
      forall i | 0 <= i < |b1| ensures b1[i] == b2[i] {
        PercentEncodeAt(b1, i);
        PercentEncodeAt(b2, i);
        UpperHexDigitInjective(b1[i] / 16, b2[i] / 16);
        UpperHexDigitInjective(b1[i] % 16, b2[i] % 16);
      }
    }
  }

  /**
    * The encoding of a character is never a proper prefix of another's, so
    * the first character of an encoded string is recovered whatever follows.
    */
  lemma EncodeCharPrefix(c1: char, c2: char, r1: string, r2: string)
    requires EncodeChar(c1) + r1 == EncodeChar(c2) + r2
    ensures c1 == c2 && r1 == r2
  {
    var x := EncodeChar(c1) + r1;
    if !IsUrlSafeChar(c1) && c1 != ' ' {
      PercentEncodeAt(Utf8(c1), 0);
    }
    if !IsUrlSafeChar(c2) && c2 != ' ' {
      PercentEncodeAt(Utf8(c2), 0);
    }
    assert x[0] == EncodeChar(c1)[0] == EncodeChar(c2)[0];
    if !IsUrlSafeChar(c1) && c1 != ' ' {
      PercentPrefix(c1, c2, r1, r2);
    }
    assert r1 == x[|EncodeChar(c1)|..];
  }

  /** The first byte of a percent-encoding is read back from its first three characters. */
  lemma PercentLeadByte(b1: seq<byte>, b2: seq<byte>, r1: string, r2: string)
    requires b1 != [] && b2 != []
    requires PercentEncode(b1) + r1 == PercentEncode(b2) + r2
    ensures b1[0] == b2[0]
  {
    var x := PercentEncode(b1) + r1;
    PercentEncodeAt(b1, 0);
    PercentEncodeAt(b2, 0);
    assert x[1] == UpperHexDigit(b1[0] / 16) == UpperHexDigit(b2[0] / 16);
    assert x[2] == UpperHexDigit(b1[0] % 16) == UpperHexDigit(b2[0] % 16);
    UpperHexDigitInjective(b1[0] / 16, b2[0] / 16);
    UpperHexDigitInjective(b1[0] % 16, b2[0] % 16);
  }

  /** Two percent-encoded characters agree once the encoded strings agree. */
  lemma PercentPrefix(c1: char, c2: char, r1: string, r2: string)
    requires PercentEncode(Utf8(c1)) + r1 == PercentEncode(Utf8(c2)) + r2
    ensures c1 == c2
  {
    var b1, b2 := Utf8(c1), Utf8(c2);
    PercentLeadByte(b1, b2, r1, r2);
    Utf8LeadByte(c1);
    Utf8LeadByte(c2);
    var x := PercentEncode(b1) + r1;
    assert PercentEncode(b1) == x[..3 * |b1|] == PercentEncode(b2);
    PercentEncodeInjective(b1, b2);
    Utf8Injective(c1, c2);
  }

  /** Encoding works character by character, so it distributes over concatenation. */
  lemma {:induction false} UrlEncodeConcat(a: string, b: string)
    ensures UrlEncode(a + b) == UrlEncode(a) + UrlEncode(b)
  {
    if a == [] {
      assert a + b == b;
    } else {
      assert (a + b)[0] == a[0] && (a + b)[1..] == a[1..] + b;
      UrlEncodeConcat(a[1..], b);
    }
  }

  /** Distinct strings have distinct encodings: the encoding loses nothing. */
  lemma {:induction false} UrlEncodeInjective(s1: string, s2: string)
    ensures UrlEncode(s1) == UrlEncode(s2) ==> s1 == s2
    decreases |s1|
  {
    if UrlEncode(s1) == UrlEncode(s2) && s1 != [] && s2 != [] {
      EncodeCharPrefix(s1[0], s2[0], UrlEncode(s1[1..]), UrlEncode(s2[1..]));
      UrlEncodeInjective(s1[1..], s2[1..]);
      assert s1 == [s1[0]] + s1[1..] && s2 == [s2[0]] + s2[1..];
    }
  }
}
