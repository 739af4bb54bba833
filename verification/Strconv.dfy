/** Base-10 and boolean text conversion, as Go's strconv performs it for page tokens and map keys. */
module Strconv {
  import opened Prelude

  predicate IsDigit(c: char) { '0' <= c <= '9' }

  function Digit(d: nat): char
    requires d < 10
  {
    ('0' as int + d) as char
  }

  function FormatUint(n: nat): string
  {
    if n < 10 then [Digit(n)] else FormatUint(n / 10) + [Digit(n % 10)]
  }

  function FormatInt(n: int): string {
    if n < 0 then "-" + FormatUint(-n) else FormatUint(n)
  }

  /** The value of a non-empty digit string; None for anything else. */
  function ParseDigits(s: string): Option<nat>
    decreases |s|
  {
    if s == [] || !IsDigit(s[|s| - 1]) then None
    else
      var d := s[|s| - 1] as int - '0' as int;
      if |s| == 1 then Some(d)
      else
        var front := ParseDigits(s[..|s| - 1]);
        if front.None? then None else Some(10 * front.value + d)
  }

  function Pow2(bits: nat): nat {
    if bits == 0 then 1 else 2 * Pow2(bits - 1)
  }

  lemma {:induction false} Pow2Grows(a: nat, b: nat)
    requires a <= b
    ensures 0 < Pow2(a) <= Pow2(b)
    decreases b
  {
    if a < b {
      Pow2Grows(a, b - 1);
    } else if a > 0 {
      Pow2Grows(a - 1, b - 1);
    }
  }

  function ParseUint(s: string, bits: nat): Option<nat> {
    var v := ParseDigits(s);
    if v.Some? && v.value < Pow2(bits) then v else None
  }

  /** An optional sign, then digits, within the signed range of the width. */
  function ParseInt(s: string, bits: nat): Option<int>
    requires bits > 0
  {
    if s == [] then None
    else
      var negative := s[0] == '-';
      var digits := ParseUint(if s[0] == '-' || s[0] == '+' then s[1..] else s, bits);
      if digits.None? then None
      else if !negative && digits.value >= Pow2(bits - 1) then None
      else if negative && digits.value > Pow2(bits - 1) then None
      else Some(if negative then 0 - digits.value else digits.value)
  }

  predicate InSigned(n: int, bits: nat)
    requires bits > 0
  {
    0 - Pow2(bits - 1) <= n < Pow2(bits - 1)
  }

  function FormatBool(b: bool): string { if b then "true" else "false" }

  function ParseBool(s: string): Option<bool> {
    if s in ["1", "t", "T", "TRUE", "true", "True"] then Some(true)
    else if s in ["0", "f", "F", "FALSE", "false", "False"] then Some(false)
    else None
  }

  // -- What the texts say -----------------------------------------------------------------------

  function Pow10(k: nat): nat {
    if k == 0 then 1 else 10 * Pow10(k - 1)
  }

  ghost predicate AllDigits(s: string) { forall i :: 0 <= i < |s| ==> IsDigit(s[i]) }

  /** The number that digits write in base ten, most significant digit first. */
  function PlaceValue(s: string): int {
    if s == [] then 0 else (s[0] as int - '0' as int) * Pow10(|s| - 1) + PlaceValue(s[1..])
  }

  lemma {:induction false} PlaceValueSnoc(s: string, c: char)
    ensures PlaceValue(s + [c]) == 10 * PlaceValue(s) + (c as int - '0' as int)
  {
    if s == [] {
      assert [] + [c] == [c] && [c][1..] == [] && Pow10(0) == 1;
    } else {
      assert (s + [c])[0] == s[0] && (s + [c])[1..] == s[1..] + [c];
      PlaceValueSnoc(s[1..], c);
      var d := s[0] as int - '0' as int;
      assert d * Pow10(|s|) == 10 * (d * Pow10(|s| - 1)) by {
        assert Pow10(|s|) == 10 * Pow10(|s| - 1);
      }
    }
  }

  lemma {:induction false} DigitsIff(s: string, n: nat)
    ensures ParseDigits(s) == Some(n) <==> s != [] && AllDigits(s) && PlaceValue(s) == n
    decreases |s|
  {
    if s != [] && IsDigit(s[|s| - 1]) {
      var front, c := s[..|s| - 1], s[|s| - 1];
      assert s == front + [c];
      PlaceValueSnoc(front, c);
      if front != [] {
        if AllDigits(front) {
          PlaceValueOfDigits(front);
          DigitsIff(front, PlaceValue(front));
        } else if ParseDigits(front).Some? {
          DigitsIff(front, ParseDigits(front).value);
        }
      }
    }
  }

  lemma {:induction false} PlaceValueOfDigits(s: string)
    requires AllDigits(s)
    ensures PlaceValue(s) >= 0
  {
    if s != [] {
      PlaceValueOfDigits(s[1..]);
    }
  }

  /** A sign, or none, and digits that write the absolute value. */
  ghost predicate WritesInt(s: string, n: int, digits: string) {
    && digits != [] && AllDigits(digits)
    && (|| ((s == digits || s == "+" + digits) && n == PlaceValue(digits))
        || (s == "-" + digits && n == 0 - PlaceValue(digits)))
  }

  /** Parsing accepts exactly the signed decimal texts of numbers within the width. */
  lemma ParseIntIff(s: string, bits: nat, n: int)
    requires bits > 0
    ensures ParseInt(s, bits) == Some(n) <==> InSigned(n, bits) && exists digits :: WritesInt(s, n, digits)
  {
    assert Pow2(bits) == 2 * Pow2(bits - 1);
    Pow2Grows(0, bits - 1);
    if ParseInt(s, bits) == Some(n) {
      var digits := if s[0] == '-' || s[0] == '+' then s[1..] else s;
      DigitsIff(digits, if s[0] == '-' then 0 - n else n);
      assert s == [s[0]] + s[1..];
      assert WritesInt(s, n, digits);
    }
    if digits :| InSigned(n, bits) && WritesInt(s, n, digits) {
      PlaceValueOfDigits(digits);
      DigitsIff(digits, PlaceValue(digits));
      assert IsDigit(digits[0]);
      assert s == digits || s[1..] == digits;
    }
  }

  lemma {:induction false} DigitsRoundTrip(n: nat)
    ensures FormatUint(n) != [] && IsDigit(FormatUint(n)[0])
    ensures ParseDigits(FormatUint(n)) == Some(n)
  {
    if n >= 10 {
      DigitsRoundTrip(n / 10);
      var s := FormatUint(n);
      assert s[..|s| - 1] == FormatUint(n / 10);
    }
  }

  /** Parsing is the exact inverse of formatting on every unsigned value of the width. */
  lemma UintRoundTrip(n: nat, bits: nat)
    ensures ParseUint(FormatUint(n), bits) == if n < Pow2(bits) then Some(n) else None
  {
    DigitsRoundTrip(n);
  }

  /** Parsing is the exact inverse of formatting on every signed value of the width, and refuses every other. */
  lemma IntRoundTrip(n: int, bits: nat)
    requires bits > 0
    ensures ParseInt(FormatInt(n), bits) == if InSigned(n, bits) then Some(n) else None
  {
    var m := if n < 0 then 0 - n else n;
    var digits := FormatUint(m);
    UintRoundTrip(m, bits);
    DigitsRoundTrip(m);
    assert Pow2(bits) == 2 * Pow2(bits - 1);
    if n < 0 {
      assert FormatInt(n)[0] == '-' && FormatInt(n)[1..] == digits;
    } else {
      assert FormatInt(n) == digits && digits[0] != '-' && digits[0] != '+';
    }
  }

  /** The text of a number has as many characters as the number has decimal digits. */
  lemma {:induction false} DecimalLength(n: nat)
    ensures FormatUint(n) != [] && n < Pow10(|FormatUint(n)|)
    ensures n > 0 ==> Pow10(|FormatUint(n)| - 1) <= n
  {
    if n >= 10 {
      DecimalLength(n / 10);
    } else {
      assert Pow10(1) == 10 * Pow10(0);
    }
  }

  lemma BoolRoundTrip(b: bool)
    ensures ParseBool(FormatBool(b)) == Some(b)
  {
  }
}
