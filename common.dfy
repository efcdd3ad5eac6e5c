/** Small helpers shared by every part of the model: an Option type, the
    truncation Python's int() applies to a float, and decimal rendering of
    integers as Python's str() produces it inside an f-string. */
module Common {

  datatype Option<T> = None | Some(value: T)

  /** A grid position (x, y), as the source's dictionary and set keys. */
  type Pos = (int, int)

  function Max(a: int, b: int): int { if a < b then b else a }
  function Min(a: int, b: int): int { if a < b then a else b }
  function Abs(a: int): nat { if a < 0 then -a else a }
  function MinReal(a: real, b: real): real { if a < b then a else b }
  function MaxReal(a: real, b: real): real { if a < b then b else a }
  function AbsReal(a: real): real { if a < 0.0 then -a else a }

  /** Python's int() on a float: truncation toward zero. */
  function Trunc(r: real): int
  {
    if 0.0 <= r then r.Floor else -((-r).Floor)
  }

  /** Truncation moves a value toward zero by less than one. */
  lemma TruncBounds(r: real)
    ensures 0.0 <= r ==> 0 <= Trunc(r) && Trunc(r) as real <= r < Trunc(r) as real + 1.0
    ensures r < 0.0 ==> Trunc(r) <= 0 && Trunc(r) as real - 1.0 < r <= Trunc(r) as real
  {
  }

  lemma TruncOfInt(n: int)
    ensures Trunc(n as real) == n
  {
  }

  /** Truncation is monotone: it never reverses the order of two values. */
  lemma TruncMonotone(a: real, b: real)
    requires a <= b
    ensures Trunc(a) <= Trunc(b)
  {
    if 0.0 <= a {
      assert a.Floor <= b.Floor;
    } else if 0.0 <= b {
    } else {
      assert (-b).Floor <= (-a).Floor;
    }
  }

  /** numpy.clip / max(lo, min(hi, v)) on reals. */
  function ClipReal(v: real, lo: real, hi: real): (r: real)
    requires lo <= hi
    ensures lo <= r <= hi
    ensures lo <= v <= hi ==> r == v
    ensures v < lo ==> r == lo
    ensures hi < v ==> r == hi
  {
    MaxReal(lo, MinReal(hi, v))
  }

  /** numpy.clip on integers. */
  function ClipInt(v: int, lo: int, hi: int): (r: int)
    requires lo <= hi
    ensures lo <= r <= hi
    ensures lo <= v <= hi ==> r == v
  {
    Max(lo, Min(hi, v))
  }

  // ---------------------------------------------------------------------
  // Decimal rendering of integers, as str(n) / f"{n}" writes them.

  predicate IsDigit(c: char) { '0' <= c <= '9' }

  function DigitChar(d: int): (c: char)
    requires 0 <= d < 10
    ensures IsDigit(c) && (c as int) - ('0' as int) == d
  {
    (('0' as int) + d) as char
  }

  function NatToString(n: nat): (s: string)
    ensures |s| >= 1
    ensures forall i :: 0 <= i < |s| ==> IsDigit(s[i])
    ensures s[0] == '0' ==> n == 0
    decreases n
  {
    if n < 10 then [DigitChar(n)] else NatToString(n / 10) + [DigitChar(n % 10)]
  }

  function IntToString(n: int): (s: string)
    ensures |s| >= 1
  {
    if n < 0 then "-" + NatToString(-n) else NatToString(n)
  }

  /** The value of a string of decimal digits (reads it back). */
  function ParseNat(s: string): nat
    requires forall i :: 0 <= i < |s| ==> IsDigit(s[i])
  {
    if s == [] then 0
    else
      assert IsDigit(s[|s| - 1]);
      ParseNat(s[..|s| - 1]) * 10 + ((s[|s| - 1] as int) - ('0' as int))
  }

  /** Reading back a rendered natural number gives the number. */
  lemma {:induction false} ParseNatToString(n: nat)
    ensures ParseNat(NatToString(n)) == n
    decreases n
  {
    var s := NatToString(n);
    if n >= 10 {
      ParseNatToString(n / 10);
      assert s[..|s| - 1] == NatToString(n / 10);
    }
  }

  /** Distinct numbers render to distinct strings. */
  lemma NatToStringInjective(a: nat, b: nat)
    requires NatToString(a) == NatToString(b)
    ensures a == b
  {
    ParseNatToString(a);
    ParseNatToString(b);
  }

  /** Splits a string into its leading run of digits and the rest. */
  function TakeDigits(s: string): (r: (string, string))
    ensures r.0 + r.1 == s
    ensures forall i :: 0 <= i < |r.0| ==> IsDigit(r.0[i])
    ensures r.1 == [] || !IsDigit(r.1[0])
  {
    if s == [] || !IsDigit(s[0]) then ([], s)
    else
      var rest := TakeDigits(s[1..]);
      ([s[0]] + rest.0, rest.1)
  }

  lemma {:induction false} TakeDigitsOfNumber(digits: string, rest: string)
    requires forall i :: 0 <= i < |digits| ==> IsDigit(digits[i])
    requires rest == [] || !IsDigit(rest[0])
    ensures TakeDigits(digits + rest) == (digits, rest)
    decreases |digits|
  {
    var s := digits + rest;
    if digits != [] {
      assert s[0] == digits[0] && IsDigit(s[0]);
      assert s[1..] == digits[1..] + rest;
      TakeDigitsOfNumber(digits[1..], rest);
      assert TakeDigits(s) == ([s[0]] + TakeDigits(s[1..]).0, TakeDigits(s[1..]).1);
      assert [digits[0]] + digits[1..] == digits;
    } else {
      assert s == rest;
    }
  }
}
