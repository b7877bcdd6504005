/** C# `int` (System.Int32): its range, unchecked addition, and `int.TryParse`
    with the default number style (optional surrounding white space, an
    optional sign, decimal digits, overflow rejected). */
module Integers {
  import opened Base

  const TwoTo32: int := 0x1_0000_0000

  predicate InRange(x: int)
  {
    -0x8000_0000 <= x < 0x8000_0000
  }

  newtype int32 = x: int | -0x8000_0000 <= x < 0x8000_0000

  /** `a + b` in C#'s default unchecked context: the exact sum when it fits,
      otherwise the sum wrapped around by 2^32. */
  function AddWrapping(a: int32, b: int32): (r: int32)
    ensures InRange(a as int + b as int) ==> r as int == a as int + b as int
    ensures r as int - (a as int + b as int) in {-TwoTo32, 0, TwoTo32}
  {
    var sum := a as int + b as int;
    if sum >= 0x8000_0000 then (sum - TwoTo32) as int32
    else if sum < -0x8000_0000 then (sum + TwoTo32) as int32
    else sum as int32
  }

  /** The white space that `NumberStyles.Integer` lets surround a number:
      U+0009 to U+000D and U+0020. */
  predicate IsWhite(c: char)
  {
    c == ' ' || '\t' <= c <= '\r'
  }

  predicate IsDigit(c: char)
  {
    '0' <= c <= '9'
  }

  predicate AllDigits(d: string)
  {
    forall i :: 0 <= i < |d| ==> IsDigit(d[i])
  }

  function TrimStart(s: string): (r: string)
    ensures |r| <= |s| && (r == [] || !IsWhite(r[0]))
  {
    if |s| > 0 && IsWhite(s[0]) then TrimStart(s[1..]) else s
  }

  function TrimEnd(s: string): (r: string)
    ensures |r| <= |s| && (r == [] || !IsWhite(r[|r| - 1]))
  {
    if |s| > 0 && IsWhite(s[|s| - 1]) then TrimEnd(s[..|s| - 1]) else s
  }

  /** The value of a string of decimal digits, most significant first. */
  function DigitsValue(d: string): nat
    requires AllDigits(d)
  {
    if |d| == 0 then 0
    else 10 * DigitsValue(d[..|d| - 1]) + (d[|d| - 1] as int - '0' as int)
  }

  /** `int.TryParse(s, out v)`: Some(v) when it returns true. */
  function ParseInt(s: string): Option<int32>
  {
    ParseSigned(TrimEnd(TrimStart(s)))
  }

  /** An optional sign followed by at least one digit, within range. */
  function ParseSigned(t: string): Option<int32>
  {
    var negative := |t| > 0 && t[0] == '-';
    var digits := if |t| > 0 && (t[0] == '-' || t[0] == '+') then t[1..] else t;
    if |digits| == 0 || !AllDigits(digits) then None
    else
      var magnitude: int := DigitsValue(digits);
      var v := if negative then -magnitude else magnitude;
      if InRange(v) then Some(v as int32) else None
  }

  /** `int.TryParse` applied to a string that may be null (null fails). */
  function ParseNullable(s: Option<string>): Option<int32>
  {
    match s
    case None => None
    case Some(text) => ParseInt(text)
  }

  /** The decimal digits of n, as C# prints a non-negative int. */
  function NatDigits(n: nat): (d: string)
    ensures |d| > 0 && AllDigits(d)
  {
    if n < 10 then [('0' as int + n) as char]
    else NatDigits(n / 10) + [('0' as int + n % 10) as char]
  }

  /** The text C# prints for an int (`ToString()`, string interpolation). */
  function Decimal(n: int32): (s: string)
  {
    if n < 0 then "-" + NatDigits(-(n as int)) else NatDigits(n as int)
  }

  lemma {:induction false} DigitsValueOfNatDigits(n: nat)
    ensures DigitsValue(NatDigits(n)) == n
  {
    if n >= 10 {
      var d := NatDigits(n);
      assert d[..|d| - 1] == NatDigits(n / 10);
      DigitsValueOfNatDigits(n / 10);
    }
  }

  lemma TrimUnchanged(s: string)
    requires |s| > 0 && !IsWhite(s[0]) && !IsWhite(s[|s| - 1])
    ensures TrimEnd(TrimStart(s)) == s
  {
  }

  /** Every int32 printed in decimal parses back to itself. */
  lemma ParseDecimal(n: int32)
    ensures ParseInt(Decimal(n)) == Some(n)
  {
    var s := Decimal(n);
    var m: nat := if n < 0 then -(n as int) else n as int;
    var d := NatDigits(m);
    DigitsValueOfNatDigits(m);
    TrimUnchanged(s);
    if n < 0 {
      assert s[1..] == d;
    } else {
      assert s == d;
      assert IsDigit(s[0]);
    }
  }

  /** A string without a digit (an empty flag value, a word) never parses. */
  lemma ParseNeedsDigit(s: string)
    requires forall i :: 0 <= i < |s| ==> !IsDigit(s[i])
    ensures ParseInt(s) == None
  {
    var t := TrimEnd(TrimStart(s));
    TrimKeepsSubstring(s);
    var digits := if |t| > 0 && (t[0] == '-' || t[0] == '+') then t[1..] else t;
    if |digits| > 0 {
      assert digits[0] in t;
      assert !IsDigit(digits[0]);
    }
  }

  lemma {:induction false} TrimStartSubset(s: string)
    ensures forall c :: c in TrimStart(s) ==> c in s
  {
    if |s| > 0 && IsWhite(s[0]) {
      TrimStartSubset(s[1..]);
    }
  }

  lemma {:induction false} TrimEndSubset(s: string)
    ensures forall c :: c in TrimEnd(s) ==> c in s
  {
    if |s| > 0 && IsWhite(s[|s| - 1]) {
      TrimEndSubset(s[..|s| - 1]);
    }
  }

  lemma TrimKeepsSubstring(s: string)
    ensures forall c :: c in TrimEnd(TrimStart(s)) ==> c in s
  {
    TrimStartSubset(s);
    TrimEndSubset(TrimStart(s));
  }
}
