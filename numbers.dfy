/**
  * String-to-number parts of the service: ECMAScript `parseInt(s, 10)` (section 19.2.5 of
  * ECMA-262), `String.prototype.trim` (section 22.1.3.32) and the decimal rendering of an
  * integer that a client puts in the path.
  */
module Numbers {

  /** ECMAScript WhiteSpace (USP taken as the Unicode Zs category) and LineTerminator code points. */
  predicate IsWhite(c: char) {
    c == '\t' || c == '\U{000B}' || c == '\U{000C}' || c == ' ' || c == '\U{00A0}' || c == '\U{FEFF}'
    || c == '\U{1680}' || ('\U{2000}' <= c <= '\U{200A}') || c == '\U{202F}' || c == '\U{205F}'
    || c == '\U{3000}'
    || c == '\n' || c == '\r' || c == '\U{2028}' || c == '\U{2029}'
  }

  predicate AllWhite(s: string) {
    forall i :: 0 <= i < |s| ==> IsWhite(s[i])
  }

  /** A radix-10 digit. */
  predicate IsDigit(c: char) {
    '0' <= c <= '9'
  }

  predicate AllDigits(s: string) {
    forall i :: 0 <= i < |s| ==> IsDigit(s[i])
  }

  predicate IsSign(s: string) {
    s == "" || s == "+" || s == "-"
  }

  /** The input with its leading white space removed. */
  function TrimStart(s: string): (r: string)
    ensures |r| <= |s| && r == s[|s| - |r|..]
    ensures AllWhite(s[..|s| - |r|])
    ensures r == [] || !IsWhite(r[0])
  {
    if s != [] && IsWhite(s[0]) then TrimStart(s[1..]) else s
  }

  /** The input with its trailing white space removed. */
  function TrimEnd(s: string): (r: string)
    ensures |r| <= |s| && r == s[..|r|]
    ensures AllWhite(s[|r|..])
    ensures r == [] || !IsWhite(r[|r| - 1])
  {
    if s != [] && IsWhite(s[|s| - 1]) then TrimEnd(s[..|s| - 1]) else s
  }

  /**
    * `s.trim()`: the input with white space removed at both ends, so what is left is a slice
    * of the input that neither starts nor ends with white space.
    */
  function Trim(s: string): (r: string)
    ensures exists i :: 0 <= i <= |s| - |r| && r == s[i..i + |r|] && AllWhite(s[..i]) && AllWhite(s[i + |r|..])
    ensures r == [] || (!IsWhite(r[0]) && !IsWhite(r[|r| - 1]))
  {
    var t := TrimStart(s);
    var r := TrimEnd(t);
    var i := |s| - |t|;
    assert t == s[i..];
    assert r == s[i..i + |r|] by { assert s[i..][..|r|] == s[i..i + |r|]; }
    assert AllWhite(s[i + |r|..]) by { assert s[i..][|r|..] == s[i + |r|..]; }
    assert AllWhite(s[..i]);
    r
  }

  /** Trimming leaves nothing exactly when the string is white space only. */
  lemma TrimEmptyIffAllWhite(s: string)
    ensures Trim(s) == [] <==> AllWhite(s)
  {
    var t := TrimStart(s);
    if Trim(s) == [] {
      assert AllWhite(t[0..]);
      assert s[..|s| - |t|] == s;
    }
  }

  /** The longest prefix of the input made of decimal digits. */
  function DigitPrefix(s: string): (r: string)
    ensures |r| <= |s| && r == s[..|r|] && AllDigits(r)
    ensures |r| == |s| || !IsDigit(s[|r|])
  {
    if s != [] && IsDigit(s[0]) then [s[0]] + DigitPrefix(s[1..]) else []
  }

  function DigitValue(c: char): nat
    requires IsDigit(c)
  {
    c as int - '0' as int
  }

  /** The number that a string of decimal digits denotes, most significant digit first. */
  function DigitsValue(d: string): nat
    requires AllDigits(d)
  {
    if d == [] then 0 else 10 * DigitsValue(d[..|d| - 1]) + DigitValue(d[|d| - 1])
  }

  /** The shortest decimal digit string of a natural number (no leading zero). */
  function Decimal(n: nat): (s: string)
    ensures s != [] && AllDigits(s)
    ensures s[0] == '0' ==> s == "0"
  {
    if n < 10 then [('0' as int + n) as char] else Decimal(n / 10) + [('0' as int + n % 10) as char]
  }

  /** An integer written the way JavaScript's `String(n)` writes an integer-valued number. */
  function IntToString(i: int): string {
    if i < 0 then "-" + Decimal(-i) else Decimal(i)
  }

  /** The outcome of `parseInt`: NaN, or an integral number. */
  datatype ParsedInt = NaN | Finite(value: int)

  /** The text starts with a decimal digit, possibly after one `+` or `-`. */
  predicate StartsNumber(t: string) {
    (t != [] && IsDigit(t[0])) || (|t| >= 2 && (t[0] == '+' || t[0] == '-') && IsDigit(t[1]))
  }

  /**
    * `parseInt(s, 10)`: skip leading white space, take an optional sign, then the longest run
    * of decimal digits; no digits gives NaN, and whatever follows the digits is ignored.
    */
  function ParseInt(s: string): (r: ParsedInt)
    ensures r.Finite? <==> StartsNumber(TrimStart(s))
    ensures r.Finite? && r.value < 0 ==> TrimStart(s)[0] == '-'
  {
    ParseSigned(TrimStart(s))
  }

  /** The part of `parseInt` after leading white space is gone. */
  function ParseSigned(t: string): (r: ParsedInt)
    ensures r.Finite? <==> StartsNumber(t)
    ensures r.Finite? && r.value < 0 ==> t[0] == '-'
  {
    var negative := t != [] && t[0] == '-';
    var u := if t != [] && (t[0] == '-' || t[0] == '+') then t[1..] else t;
    var z := DigitPrefix(u);
    if z == [] then NaN
    else if negative then Finite(-(DigitsValue(z) as int))
    else Finite(DigitsValue(z))
  }

  lemma {:induction false} TrimStartSkipsWhite(w: string, s: string)
    requires AllWhite(w)
    requires s == [] || !IsWhite(s[0])
    ensures TrimStart(w + s) == s
    decreases |w|
  {
    if w == [] {
      assert w + s == s;
    } else {
      assert (w + s)[0] == w[0];
      assert (w + s)[1..] == w[1..] + s;
      TrimStartSkipsWhite(w[1..], s);
    }
  }

  lemma {:induction false} DigitPrefixOfDigits(d: string, t: string)
    requires AllDigits(d)
    requires t == [] || !IsDigit(t[0])
    ensures DigitPrefix(d + t) == d
    decreases |d|
  {
    if d == [] {
      assert d + t == t;
    } else {
      assert (d + t)[0] == d[0];
      assert (d + t)[1..] == d[1..] + t;
      DigitPrefixOfDigits(d[1..], t);
      assert d == [d[0]] + d[1..];
    }
  }

  lemma ParseUnsignedDigits(d: string, t: string)
    requires d != [] && AllDigits(d)
    requires t == [] || !IsDigit(t[0])
    ensures ParseSigned(d + t) == Finite(DigitsValue(d))
  {
    DigitPrefixOfDigits(d, t);
    assert (d + t)[0] == d[0];
  }

  lemma ParseSignedDigitsAfterSign(c: char, d: string, t: string)
    requires c == '+' || c == '-'
    requires d != [] && AllDigits(d)
    requires t == [] || !IsDigit(t[0])
    ensures ParseSigned([c] + (d + t)) == Finite(if c == '-' then -(DigitsValue(d) as int) else DigitsValue(d))
  {
    DigitPrefixOfDigits(d, t);
    var x := [c] + (d + t);
    assert x[0] == c && x[1..] == d + t;
  }

  /** `parseInt` once the white space is gone: an optional sign, digits, then a non-digit. */
  lemma ParseSignedDigits(sign: string, d: string, t: string)
    requires IsSign(sign)
    requires d != [] && AllDigits(d)
    requires t == [] || !IsDigit(t[0])
    ensures ParseSigned(sign + d + t) == Finite(if sign == "-" then -(DigitsValue(d) as int) else DigitsValue(d))
  {
    if |sign| == 0 {
      assert sign + d + t == d + t;
      ParseUnsignedDigits(d, t);
    } else {
      var c := sign[0];
      assert sign == [c];
      assert sign + d + t == [c] + (d + t);
      ParseSignedDigitsAfterSign(c, d, t);
    }
  }

  /**
    * Every string that parses to a number: white space, an optional sign, at least one digit,
    * then anything that does not start with a digit.
    */
  lemma ParseIntDigits(w: string, sign: string, d: string, t: string)
    requires AllWhite(w) && IsSign(sign)
    requires d != [] && AllDigits(d)
    requires t == [] || !IsDigit(t[0])
    ensures ParseInt(w + sign + d + t) == Finite(if sign == "-" then -(DigitsValue(d) as int) else DigitsValue(d))
  {
    var rest := sign + d + t;
    assert w + sign + d + t == w + rest;
    assert rest[0] == if sign == "" then d[0] else sign[0];
    TrimStartSkipsWhite(w, rest);
    ParseSignedDigits(sign, d, t);
  }

  /**
    * Every string that parses to NaN: white space, an optional sign, then something that does
    * not start with a digit (and, without a sign, neither with a sign nor with white space).
    */
  lemma ParseIntNoDigit(w: string, sign: string, t: string)
    requires AllWhite(w) && IsSign(sign)
    requires t == [] || !IsDigit(t[0])
    requires sign == "" && t != [] ==> !IsWhite(t[0]) && t[0] != '+' && t[0] != '-'
    ensures ParseInt(w + sign + t) == NaN
  {
    var rest := sign + t;
    assert w + sign + t == w + rest;
    if rest != [] {
      assert rest[0] == if sign == "" then t[0] else sign[0];
    }
    TrimStartSkipsWhite(w, rest);
    if sign != "" {
      assert rest[1..] == t;
    }
  }

  /** A string without any digit is not a number: `PUT /books/available` is an invalid id. */
  lemma ParseIntWithoutDigits(s: string)
    requires forall i :: 0 <= i < |s| ==> !IsDigit(s[i])
    ensures ParseInt(s) == NaN
  {
    var t := TrimStart(s);
    var u := if t != [] && (t[0] == '-' || t[0] == '+') then t[1..] else t;
    if u != [] {
      assert u[0] == s[|s| - |u|];
    }
  }

  lemma {:induction false} DecimalValue(n: nat)
    ensures DigitsValue(Decimal(n)) == n
  {
    var s := Decimal(n);
    if n >= 10 {
      DecimalValue(n / 10);
      assert s[..|s| - 1] == Decimal(n / 10);
    }
  }

  /** Every integer, written as JavaScript writes it, parses back to itself. */
  lemma ParseIntRoundTrip(i: int)
    ensures ParseInt(IntToString(i)) == Finite(i)
  {
    var n: nat := if i < 0 then -i else i;
    var d := Decimal(n);
    DecimalValue(n);
    DigitPrefixOfDigits(d, []);
    assert d + [] == d;
    var x := IntToString(i);
    assert !IsWhite(x[0]);
    assert TrimStart(x) == x;
    if i < 0 {
      assert x[1..] == d;
    }
  }
}
