/**
  * Convert.ToInt64(string) and long.ToString(), which PaymentExecute applies to
  * vnp_TxnRef and vnp_TransactionNo. Parsing follows NumberStyles.Integer:
  * optional leading white space, an optional '+' or '-', one or more decimal
  * digits, optional trailing white space, then only NUL characters.
  */
module Numbers {
  import opened Wrappers

  const Int64Min: int := -0x8000_0000_0000_0000
  const Int64Max: int := 0x7FFF_FFFF_FFFF_FFFF

  /** The white space NumberStyles.AllowLeadingWhite and AllowTrailingWhite accept. */
  predicate IsWhite(c: char) {
    c == ' ' || '\t' <= c <= '\r'
  }

  predicate IsDigit(c: char) {
    '0' <= c <= '9'
  }

  predicate AllDigits(s: string) {
    forall i :: 0 <= i < |s| ==> IsDigit(s[i])
  }

  /** The number of leading characters of `s` that satisfy white space. */
  function WhiteRun(s: string): (n: nat)
    ensures n <= |s|
    ensures forall i :: 0 <= i < n ==> IsWhite(s[i])
    ensures n < |s| ==> !IsWhite(s[n])
  {
    if s == [] || !IsWhite(s[0]) then 0 else 1 + WhiteRun(s[1..])
  }

  /** The number of leading decimal digits of `s`. */
  function DigitRun(s: string): (n: nat)
    ensures n <= |s|
    ensures AllDigits(s[..n])
    ensures n < |s| ==> !IsDigit(s[n])
  {
    if s == [] || !IsDigit(s[0]) then 0
    else
      var n := 1 + DigitRun(s[1..]);
      assert s[..n] == [s[0]] + s[1..][..n - 1];
      n
  }

  /** The value of a string of decimal digits. */
  function DigitsValue(s: string): (n: nat)
    requires AllDigits(s)
  {
    if s == [] then 0 else 10 * DigitsValue(s[..|s| - 1]) + (s[|s| - 1] as int - '0' as int)
  }

  /** What may follow the digits: white space, then NUL characters only. */
  predicate IsNumberTail(s: string) {
    forall i :: WhiteRun(s) <= i < |s| ==> s[i] == '\0'
  }

  /** What follows the sign: one or more digits, a valid tail, and a value in the range of a long. */
  function ParseDigits(t: string, negative: bool): (r: Result<int, Error>)
    ensures r.Success? ==> Int64Min <= r.value <= Int64Max
    ensures r.Failure? ==> r.error == BadFormat || r.error == Overflow
  {
    var k := DigitRun(t);
    if k == 0 || !IsNumberTail(t[k..]) then Failure(BadFormat)
    else
      var n: int := DigitsValue(t[..k]);
      var v := if negative then -n else n;
      if Int64Min <= v <= Int64Max then Success(v) else Failure(Overflow)
  }

  /** Convert.ToInt64 on a non-null string, in the invariant culture. */
  function ToInt64(s: string): (r: Result<int, Error>)
    ensures r.Success? ==> Int64Min <= r.value <= Int64Max
    ensures r.Failure? ==> r.error == BadFormat || r.error == Overflow
  {
    var i := WhiteRun(s);
    var signed := i < |s| && (s[i] == '-' || s[i] == '+');
    ParseDigits(s[if signed then i + 1 else i..], signed && s[i] == '-')
  }

  /** The decimal digits of a natural number, without leading zeros. */
  function NatToString(n: nat): (s: string)
    ensures s != [] && AllDigits(s)
  {
    var d := [('0' as int + n % 10) as char];
    if n < 10 then d else NatToString(n / 10) + d
  }

  /** long.ToString() in the invariant culture. */
  function FormatInt64(n: int): (s: string)
    requires Int64Min <= n <= Int64Max
    ensures s != [] && (s[0] == '-' <==> n < 0)
  {
    if n < 0 then "-" + NatToString(-n) else NatToString(n)
  }

  lemma {:induction false} NatToStringValue(n: nat)
    ensures DigitsValue(NatToString(n)) == n
  {
    if n >= 10 {
      var s := NatToString(n);
      NatToStringValue(n / 10);
      assert s[..|s| - 1] == NatToString(n / 10);
    }
  }

  /** Formatting and then parsing gives the number back. */
  lemma FormatRoundTrip(n: int)
    requires Int64Min <= n <= Int64Max
    ensures ToInt64(FormatInt64(n)) == Success(n)
  {
    var s := FormatInt64(n);
    var digits := NatToString(if n < 0 then -n else n);
    var j := if n < 0 then 1 else 0;
    assert WhiteRun(s) == 0;
    assert s[j..] == digits;
    AllDigitsRun(digits);
    NatToStringValue(if n < 0 then -n else n);
    assert digits[..|digits|] == digits;
    assert digits[|digits|..] == [];
  }

  /** A character that has no place anywhere in a number: not white space, a digit, a sign or NUL. */
  predicate NeverInNumber(c: char) {
    !IsWhite(c) && !IsDigit(c) && c != '+' && c != '-' && c != '\0'
  }

  /** After the sign: such a character anywhere leaves no valid digits-and-tail. */
  lemma NonNumericDigits(t: string, j: nat, negative: bool)
    requires j < |t| && NeverInNumber(t[j])
    ensures ParseDigits(t, negative) == Failure(BadFormat)
  {
    var k := DigitRun(t);
    if k != 0 {
      assert k <= j;
      assert t[k..][j - k] == t[j];
    }
  }

  /** A string holding such a character anywhere, as "12a" or "abc" does, is a format error, never an overflow. */
  lemma NonNumericIsBadFormat(s: string, i: nat)
    requires i < |s| && NeverInNumber(s[i])
    ensures ToInt64(s) == Failure(BadFormat)
  {
    var w := WhiteRun(s);
    var signed := w < |s| && (s[w] == '-' || s[w] == '+');
    var p := if signed then w + 1 else w;
    assert w <= i;
    assert s[p..][i - p] == s[i];
    NonNumericDigits(s[p..], i - p, signed && s[w] == '-');
  }

  lemma AllDigitsRun(s: string)
    requires AllDigits(s)
    ensures DigitRun(s) == |s|
  {
  }

  lemma {:induction false} WhiteRunPrefix(w: string, t: string)
    requires forall i :: 0 <= i < |w| ==> IsWhite(w[i])
    requires t == [] || !IsWhite(t[0])
    ensures WhiteRun(w + t) == |w|
  {
    if w != [] {
      assert (w + t)[1..] == w[1..] + t;
      WhiteRunPrefix(w[1..], t);
    }
  }

  lemma {:induction false} DigitRunPrefix(d: string, t: string)
    requires AllDigits(d)
    requires t == [] || !IsDigit(t[0])
    ensures DigitRun(d + t) == |d|
  {
    if d != [] {
      assert (d + t)[1..] == d[1..] + t;
      DigitRunPrefix(d[1..], t);
    }
  }

  lemma {:induction false} ZerosValue(z: string)
    requires forall i :: 0 <= i < |z| ==> z[i] == '0'
    ensures AllDigits(z) && DigitsValue(z) == 0
  {
    if z != [] {
      ZerosValue(z[..|z| - 1]);
    }
  }

  /** Leading zeros do not change the value of a digit string. */
  lemma {:induction false} LeadingZerosValue(z: string, d: string)
    requires forall i :: 0 <= i < |z| ==> z[i] == '0'
    requires AllDigits(d)
    ensures AllDigits(z + d) && DigitsValue(z + d) == DigitsValue(d)
  {
    ZerosValue(z);
    if d == [] {
      assert z + d == z;
    } else {
      assert (z + d)[..|z + d| - 1] == z + d[..|d| - 1];
      LeadingZerosValue(z, d[..|d| - 1]);
    }
  }

  /** Digits followed by blanks parse to the value of the digits. */
  lemma DigitsThenBlanks(digits: string, w: string)
    requires digits != [] && AllDigits(digits) && DigitsValue(digits) <= Int64Max
    requires forall i :: 0 <= i < |w| ==> IsWhite(w[i])
    ensures ParseDigits(digits + w, false) == Success(DigitsValue(digits))
  {
    DigitRunPrefix(digits, w);
    assert (digits + w)[|digits|..] == w;
    assert (digits + w)[..|digits|] == digits;
    assert w + [] == w;
    WhiteRunPrefix(w, []);
  }

  /** Leading blanks and a '+' are skipped: what counts is the unsigned rest. */
  lemma SkipBlanksAndPlus(w: string, plus: bool, t: string)
    requires forall i :: 0 <= i < |w| ==> IsWhite(w[i])
    requires t != [] && IsDigit(t[0])
    ensures ToInt64(w + (if plus then "+" else "") + t) == ParseDigits(t, false)
  {
    var rest := (if plus then "+" else "") + t;
    assert w + (if plus then "+" else "") + t == w + rest;
    assert rest[0] == (if plus then '+' else t[0]);
    WhiteRunPrefix(w, rest);
    assert (w + rest)[|w|..] == rest;
    assert rest[|rest| - |t|..] == t;
  }

  lemma Regroup(a: string, b: string, c: string, d: string, e: string)
    ensures a + b + c + d + e == a + b + (c + d + e)
  {
  }

  /**
    * Blanks before and after the number, a '+' sign and leading zeros are
    * all accepted, and none of them changes the value.
    */
  lemma LenientSyntax(w1: string, plus: bool, z: string, n: nat, w2: string)
    requires forall i :: 0 <= i < |w1| ==> IsWhite(w1[i])
    requires forall i :: 0 <= i < |w2| ==> IsWhite(w2[i])
    requires forall i :: 0 <= i < |z| ==> z[i] == '0'
    requires n <= Int64Max
    ensures ToInt64(w1 + (if plus then "+" else "") + z + NatToString(n) + w2) == Success(n)
  {
    var d := NatToString(n);
    var t := z + d + w2;
    LeadingZerosValue(z, d);
    NatToStringValue(n);
    DigitsThenBlanks(z + d, w2);
    assert t[0] == (z + d)[0];
    SkipBlanksAndPlus(w1, plus, t);
    Regroup(w1, if plus then "+" else "", z, d, w2);
  }

  /** A missing field reads as "", which does not parse. */
  lemma EmptyIsBadFormat()
    ensures ToInt64("") == Failure(BadFormat)
  {
  }

  /** A well-formed number beyond the range of a long is an overflow, not a format error. */
  lemma TooLargeIsOverflow(n: nat)
    requires n > Int64Max
    ensures ToInt64(NatToString(n)) == Failure(Overflow)
  {
    var s := NatToString(n);
    assert WhiteRun(s) == 0;
    assert s[0..] == s;
    AllDigitsRun(s);
    NatToStringValue(n);
    assert s[..|s|] == s;
    assert s[|s|..] == [];
  }
}
