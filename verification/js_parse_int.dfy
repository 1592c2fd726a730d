/** The global `parseInt(string)` of ECMAScript (section 19.2.5 of ECMA-262),
    called without a radix, as the dashboard calls it. `NaN` is `None`; the
    result is an unbounded integer (see README for the Number precision gap). */
module JsParseInt {
  import opened Wrappers
  import opened JsText

  /** The two radixes reachable without an explicit radix argument. */
  type Radix = r: nat | r == 10 || r == 16 witness 10

  /** The value of a digit character in radixes up to 36: `0`-`9`, then the
      letters in either case; 36 for every other character. */
  function DigitValue(c: char): (v: nat)
    ensures v <= 36
  {
    if '0' <= c <= '9' then c as int - '0' as int
    else if 'a' <= c <= 'z' then c as int - 'a' as int + 10
    else if 'A' <= c <= 'Z' then c as int - 'A' as int + 10
    else 36
  }

  predicate IsRadixDigit(c: char, radix: Radix)
  {
    DigitValue(c) < radix
  }

  predicate IsDecimalDigit(c: char)
  {
    '0' <= c <= '9'
  }

  /** The longest prefix of `s` made of radix-`radix` digits. */
  function DigitPrefix(s: string, radix: Radix): (d: string)
    ensures |d| <= |s| && d == s[..|d|]
    ensures forall k :: 0 <= k < |d| ==> IsRadixDigit(d[k], radix)
    ensures |d| < |s| ==> !IsRadixDigit(s[|d|], radix)
  {
    if s != [] && IsRadixDigit(s[0], radix) then [s[0]] + DigitPrefix(s[1..], radix) else []
  }

  /** The number a digit string denotes in positional notation. */
  function DigitsValue(d: string, radix: Radix): nat
  {
    if d == [] then 0 else DigitsValue(d[..|d| - 1], radix) * radix + DigitValue(d[|d| - 1])
  }

  /** `parseInt(s)`: skip leading whitespace, take an optional sign, switch to
      radix 16 after a `0x`/`0X` prefix, read the longest run of digits and
      ignore whatever follows; with no digit the result is `NaN`. A parsed
      `-0` is the number 0. */
  function ParseInt(s: string): (r: Option<int>)
    ensures AllWhitespace(s) ==> r == None
  {
    AllWhitespaceTrimStart(s);
    ParseSigned(TrimStart(s))
  }

  /** The steps of `parseInt` after the whitespace is gone. */
  function ParseSigned(t: string): Option<int>
  {
    var negative := t != [] && t[0] == '-';
    var u := if t != [] && (t[0] == '-' || t[0] == '+') then t[1..] else t;
    match ParseUnsigned(u)
    case None => None
    case Some(m) => Some(if negative then -(m as int) else m)
  }

  predicate HasHexPrefix(u: string)
  {
    |u| >= 2 && u[0] == '0' && (u[1] == 'x' || u[1] == 'X')
  }

  /** The digit run after the sign, in radix 16 behind a `0x` prefix and in
      radix 10 otherwise. */
  function ParseUnsigned(u: string): Option<nat>
  {
    var radix: Radix := if HasHexPrefix(u) then 16 else 10;
    var digits := DigitPrefix(if HasHexPrefix(u) then u[2..] else u, radix);
    if digits == [] then None else Some(DigitsValue(digits, radix))
  }

  /** The character for a digit value below 16 (lower-case letters). */
  function DigitChar(v: nat): (c: char)
    requires v < 16
    ensures DigitValue(c) == v
  {
    if v < 10 then ('0' as int + v) as char else ('a' as int + v - 10) as char
  }

  /** The digits of `n` in `radix`, most significant first, without leading zeros. */
  function NatToDigits(n: nat, radix: Radix): (d: string)
    ensures |d| >= 1
    ensures forall k :: 0 <= k < |d| ==> IsRadixDigit(d[k], radix)
    ensures d[0] == '0' <==> n == 0
    decreases n
  {
    if n < radix then [DigitChar(n)]
    else NatToDigits(n / radix, radix) + [DigitChar(n % radix)]
  }

  /** A plain decimal rendering of an integer, an optional minus sign and
      the digits, used by the round-trip lemmas (unlike JavaScript's
      `String(n)` it never switches to exponent notation). */
  function IntToDecimal(n: int): (s: string)
    ensures s != [] && !IsJsWhitespace(s[0])
  {
    if n < 0 then ['-'] + NatToDigits(-n, 10) else NatToDigits(n, 10)
  }

  lemma {:induction false} DigitsValueOfNatToDigits(n: nat, radix: Radix)
    ensures DigitsValue(NatToDigits(n, radix), radix) == n
    decreases n
  {
    if n >= radix {
      var d := NatToDigits(n, radix);
      assert d[..|d| - 1] == NatToDigits(n / radix, radix);
      DigitsValueOfNatToDigits(n / radix, radix);
    }
  }

  /** The digit run stops exactly where the digits stop. */
  lemma {:induction false} DigitPrefixOfDigits(d: string, rest: string, radix: Radix)
    requires forall k :: 0 <= k < |d| ==> IsRadixDigit(d[k], radix)
    requires rest == [] || !IsRadixDigit(rest[0], radix)
    ensures DigitPrefix(d + rest, radix) == d
    decreases |d|
  {
    if d == [] {
      assert d + rest == rest;
    } else {
      assert (d + rest)[1..] == d[1..] + rest;
      DigitPrefixOfDigits(d[1..], rest, radix);
    }
  }

  /** Round trip: `parseInt` reads back the decimal rendering of any integer,
      whatever follows it, as long as what follows neither extends the digit
      run nor, after a lone `0`, turns it into a `0x` prefix. */
  lemma ParseIntDecimal(n: int, rest: string)
    requires rest == [] || !IsDecimalDigit(rest[0])
    requires n == 0 && rest != [] ==> rest[0] != 'x' && rest[0] != 'X'
    ensures ParseInt(IntToDecimal(n) + rest) == Some(n)
  {
    if n < 0 {
      ParseIntNegative(n, rest);
    } else {
      var u := NatToDigits(n, 10) + rest;
      TrimStartNoLead(u);
      ParseUnsignedDecimal(n, rest);
      ParseSignedUnsigned(u, n);
    }
  }

  lemma ParseIntNegative(n: int, rest: string)
    requires rest == [] || !IsDecimalDigit(rest[0])
    requires n < 0
    ensures ParseInt(IntToDecimal(n) + rest) == Some(n)
  {
    var u := NatToDigits(-n, 10) + rest;
    assert IntToDecimal(n) + rest == ['-'] + u;
    TrimStartNoLead(['-'] + u);
    ParseUnsignedDecimal(-n, rest);
    ParseSignedMinus(u, -n);
  }

  lemma TrimStartNoLead(s: string)
    requires s != [] && !IsJsWhitespace(s[0])
    ensures TrimStart(s) == s
  {
  }

  lemma ParseSignedMinus(u: string, m: nat)
    requires ParseUnsigned(u) == Some(m)
    ensures ParseSigned(['-'] + u) == Some(-(m as int))
  {
    assert (['-'] + u)[1..] == u;
  }

  lemma ParseSignedUnsigned(u: string, m: nat)
    requires u != [] && IsDecimalDigit(u[0])
    requires ParseUnsigned(u) == Some(m)
    ensures ParseSigned(u) == Some(m)
  {
  }

  lemma ParseUnsignedDecimal(m: nat, rest: string)
    requires rest == [] || !IsDecimalDigit(rest[0])
    requires m == 0 && rest != [] ==> rest[0] != 'x' && rest[0] != 'X'
    ensures ParseUnsigned(NatToDigits(m, 10) + rest) == Some(m)
  {
    var d := NatToDigits(m, 10);
    var u := d + rest;
    assert rest != [] ==> !IsRadixDigit(rest[0], 10);
    DigitPrefixOfDigits(d, rest, 10);
    DigitsValueOfNatToDigits(m, 10);
    if |u| >= 2 && u[0] == '0' {
      assert m == 0 && |d| == 1;
      assert u[1] == rest[0];
    }
    assert !HasHexPrefix(u);
  }

  /** `parseInt` also reads a `0x`-prefixed hexadecimal rendering. */
  lemma ParseIntHex(n: nat)
    ensures ParseInt("0x" + NatToDigits(n, 16)) == Some(n)
  {
    var d := NatToDigits(n, 16);
    var s := "0x" + d;
    assert TrimStart(s) == s;
    assert s[2..] == d;
    assert HasHexPrefix(s);
    DigitPrefixOfDigits(d, [], 16);
    assert d + [] == d;
    DigitsValueOfNatToDigits(n, 16);
  }

  /** Leading whitespace never changes what `parseInt` reads. */
  lemma ParseIntSkipsWhitespace(lead: string, s: string)
    requires AllWhitespace(lead)
    ensures ParseInt(lead + s) == ParseInt(s)
  {
    TrimStartSkipsPadding(lead, s);
  }

  predicate HasDecimalDigit(s: string)
  {
    exists k :: 0 <= k < |s| && IsDecimalDigit(s[k])
  }

  /** A string in which no decimal digit occurs is `NaN` to `parseInt`: a
      hexadecimal number is only read after its `0` prefix. */
  lemma ParseIntNeedsDigit(s: string)
    requires !HasDecimalDigit(s)
    ensures ParseInt(s) == None
  {
    TrimStartSpec(s);
    var t := TrimStart(s);
    var u := if t != [] && (t[0] == '-' || t[0] == '+') then t[1..] else t;
    var off := |s| - |u|;
    assert forall k :: 0 <= k < |u| ==> u[k] == s[off + k];
    if u != [] {
      assert !IsDecimalDigit(u[0]) by {
        assert u[0] == s[off];
      }
      assert !HasHexPrefix(u);
      assert !IsRadixDigit(u[0], 10);
    }
  }
}
