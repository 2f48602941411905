/**
  * Utils.HmacSHA512: the keyed digest of the message, rendered as lower-case
  * hexadecimal, two digits per byte, in byte order, with no separator. The
  * HMAC-SHA512 computation itself (RFC 2104 over FIPS 180-4 SHA-512, applied to
  * the UTF-8 bytes of key and message) is the parameter `mac`.
  */
module Signing {
  import opened Wrappers
  import opened Text

  /** A SHA-512 digest: 64 bytes. */
  type Digest = d: seq<byte> | |d| == 64 witness seq(64, i => 0)

  /** HMAC-SHA512 of a message under a key. */
  type Mac = (string, string) -> Digest

  predicate IsLowerHexDigit(c: char) {
    '0' <= c <= '9' || 'a' <= c <= 'f'
  }

  /** The lower-case digit of a nibble, as the "x2" format writes it. */
  function HexDigit(n: int): (c: char)
    requires 0 <= n < 16
    ensures IsLowerHexDigit(c)
  {
    if n < 10 then ('0' as int + n) as char else ('a' as int + n - 10) as char
  }

  /** `b.ToString("x2")` */
  function ByteHex(b: byte): (h: string) {
    [HexDigit(b / 16), HexDigit(b % 16)]
  }

  /** The hex rendering of a digest: two characters per byte. */
  function HexOf(d: seq<byte>): (h: string)
    ensures |h| == 2 * |d|
  {
    if d == [] then "" else HexOf(d[..|d| - 1]) + ByteHex(d[|d| - 1])
  }

  /** The value of a hex digit of either case. */
  function HexValue(c: char): (v: Option<int>) {
    if '0' <= c <= '9' then Some(c as int - '0' as int)
    else if 'a' <= c <= 'f' then Some(c as int - 'a' as int + 10)
    else if 'A' <= c <= 'F' then Some(c as int - 'A' as int + 10)
    else None
  }

  /** Decoding of a hex string of either case into bytes; the inverse of HexOf. */
  function ParseHex(s: string): (r: Option<seq<byte>>)
    ensures r.Some? ==> 2 * |r.value| == |s|
  {
    if |s| < 2 then (if s == [] then Some([]) else None)
    else
      var hi, lo := HexValue(s[|s| - 2]), HexValue(s[|s| - 1]);
      var prefix := ParseHex(s[..|s| - 2]);
      if hi.None? || lo.None? || prefix.None? then None
      else Some(prefix.value + [16 * hi.value + lo.value])
  }

  /**
    * Utils.HmacSHA512(key, inputData). A null key makes Encoding.UTF8.GetBytes
    * throw; otherwise the result is 128 lower-case hex digits, the two digits of
    * byte i at positions 2i and 2i + 1.
    */
  method HmacSha512(key: Option<string>, inputData: string, mac: Mac) returns (r: Result<string, Error>)
    ensures key.None? <==> r == Failure(NullArgument)
    ensures key.Some? ==> r.Success? && r.value == HexOf(mac(key.value, inputData))
    ensures r.Success? ==> |r.value| == 128 && forall i :: 0 <= i < 128 ==> IsLowerHexDigit(r.value[i])
  {
    if key.None? {
      return Failure(NullArgument);
    }
    var hashValue := mac(key.value, inputData);
    var hash := "";
    for i := 0 to |hashValue|
      invariant hash == HexOf(hashValue[..i])
    {
      assert hashValue[..i + 1][..i] == hashValue[..i];
      hash := hash + ByteHex(hashValue[i]);
    }
    assert hashValue[..|hashValue|] == hashValue;
    HexOfShape(hashValue);
    return Success(hash);
  }

  /** Two lower-case hex digits per byte, in byte order. */
  lemma {:induction false} HexOfShape(d: seq<byte>)
    ensures forall i :: 0 <= i < |d| ==> HexOf(d)[2 * i..2 * i + 2] == ByteHex(d[i])
    ensures forall i :: 0 <= i < |HexOf(d)| ==> IsLowerHexDigit(HexOf(d)[i])
  {
    if d != [] {
      var p := d[..|d| - 1];
      HexOfShape(p);
      forall i | 0 <= i < |d| ensures HexOf(d)[2 * i..2 * i + 2] == ByteHex(d[i]) {
        if i < |p| {
          assert HexOf(d)[2 * i..2 * i + 2] == HexOf(p)[2 * i..2 * i + 2];
        }
      }
    }
  }

  /** Decoding a rendered digest gives the digest back. */
  lemma HexRoundTrip(d: seq<byte>)
    ensures ParseHex(HexOf(d)) == Some(d)
  {
    EqualsIgnoreCaseIffSameDigest(d, HexOf(d));
  }

  /** A character matches the digit of a nibble, ignoring case, iff it is a hex digit of that value. */
  lemma DigitMatch(n: int, c: char)
    requires 0 <= n < 16
    ensures FoldCase(c) == HexDigit(n) <==> HexValue(c) == Some(n)
  {
  }

  lemma NibbleSplit(b: byte, hi: int, lo: int)
    requires 0 <= hi < 16 && 0 <= lo < 16
    ensures 16 * hi + lo == b <==> hi == b / 16 && lo == b % 16
  {
  }

  /** One byte: its two digits match a pair of characters ignoring case iff the pair decodes to it. */
  lemma ByteHexMatch(b: byte, c1: char, c2: char)
    ensures EqualsIgnoreCase(ByteHex(b), Some([c1, c2]))
        <==> HexValue(c1).Some? && HexValue(c2).Some? && 16 * HexValue(c1).value + HexValue(c2).value == b
  {
    var h := ByteHex(b);
    assert h[0] == HexDigit(b / 16) && h[1] == HexDigit(b % 16);
    DigitMatch(b / 16, c1);
    DigitMatch(b % 16, c2);
    if HexValue(c1).Some? && HexValue(c2).Some? {
      NibbleSplit(b, HexValue(c1).value, HexValue(c2).value);
    }
  }

  lemma EqualsIgnoreCaseSplit(a1: string, a2: string, s1: string, s2: string)
    requires |a1| == |s1|
    ensures EqualsIgnoreCase(a1 + a2, Some(s1 + s2)) <==> EqualsIgnoreCase(a1, Some(s1)) && EqualsIgnoreCase(a2, Some(s2))
  {
    var a, s := a1 + a2, s1 + s2;
    if EqualsIgnoreCase(a, Some(s)) {
      forall i | 0 <= i < |a2| ensures FoldCase(a2[i]) == FoldCase(s2[i]) {
        assert a[|a1| + i] == a2[i] && s[|a1| + i] == s2[i];
      }
      forall i | 0 <= i < |a1| ensures FoldCase(a1[i]) == FoldCase(s1[i]) {
        assert a[i] == a1[i] && s[i] == s1[i];
      }
    }
    if EqualsIgnoreCase(a1, Some(s1)) && EqualsIgnoreCase(a2, Some(s2)) {
      forall i | 0 <= i < |a| ensures FoldCase(a[i]) == FoldCase(s[i]) {
        if i < |a1| {
          assert a[i] == a1[i] && s[i] == s1[i];
        } else {
          assert a[i] == a2[i - |a1|] && s[i] == s2[i - |a1|];
        }
      }
    }
  }

  /**
    * A received hash matches the rendered digest, ignoring case, exactly when
    * it is a hex string of either case that decodes to the digest.
    */
  lemma {:induction false} EqualsIgnoreCaseIffSameDigest(d: seq<byte>, s: string)
    ensures EqualsIgnoreCase(HexOf(d), Some(s)) <==> ParseHex(s) == Some(d)
  {
    if d == [] {
    } else if |s| != 2 * |d| {
    } else {
      var p, b := d[..|d| - 1], d[|d| - 1];
      var t, c1, c2 := s[..|s| - 2], s[|s| - 2], s[|s| - 1];
      assert s == t + [c1, c2];
      assert d == p + [b];
      EqualsIgnoreCaseSplit(HexOf(p), ByteHex(b), t, [c1, c2]);
      ByteHexMatch(b, c1, c2);
      EqualsIgnoreCaseIffSameDigest(p, t);
      if ParseHex(s) == Some(d) {
        var pr := ParseHex(t);
        assert pr.Some? && pr.value + [16 * HexValue(c1).value + HexValue(c2).value] == p + [b];
        assert pr.value == (p + [b])[..|p|] == p;
      }
    }
  }

  /** A received hash that differs from the computed one only in letter case still matches. */
  lemma UpperCaseHashMatches(d: seq<byte>)
    ensures EqualsIgnoreCase(HexOf(d), Some(ToUpper(HexOf(d))))
  {
  }
}
