/** Decimal rendering of lengths, as Python's `str(n).encode()` produces it. */
module Decimal {
  import opened Bytes

  const Zero: byte := 48  // '0'

  predicate IsDigit(b: byte) {
    Zero <= b <= Zero + 9
  }

  predicate AllDigits(ds: seq<byte>) {
    forall i :: 0 <= i < |ds| ==> IsDigit(ds[i])
  }

  /** A digit string as `str` renders a natural number: at least one digit, no leading zero. */
  predicate Canonical(ds: seq<byte>) {
    |ds| >= 1 && AllDigits(ds) && (ds[0] == Zero ==> |ds| == 1)
  }

  /** The decimal digits of `n`, most significant first. */
  function Digits(n: nat): (r: seq<byte>)
    ensures Canonical(r)
  {
    if n < 10 then [(Zero as int + n) as byte]
    else Digits(n / 10) + [(Zero as int + n % 10) as byte]
  }

  /** The number a digit string denotes. */
  function Value(ds: seq<byte>): nat
    requires AllDigits(ds)
  {
    if ds == [] then 0
    else Value(ds[..|ds| - 1]) * 10 + (ds[|ds| - 1] - Zero) as int
  }

  /** Reading back a rendered number gives the number. */
  lemma {:induction false} ValueOfDigits(n: nat)
    ensures Value(Digits(n)) == n
  {
    if n >= 10 {
      var ds := Digits(n);
      assert ds[..|ds| - 1] == Digits(n / 10);
      ValueOfDigits(n / 10);
    }
  }

  /** A digit string with a non-zero leading digit denotes a positive number. */
  lemma {:induction false} LeadingDigitPositive(ds: seq<byte>)
    requires |ds| >= 1 && AllDigits(ds) && ds[0] != Zero
    ensures Value(ds) >= 1
  {
    if |ds| > 1 {
      LeadingDigitPositive(ds[..|ds| - 1]);
    }
  }

  /** Rendering the value of a canonical digit string gives the string back. */
  lemma {:induction false} DigitsOfValue(ds: seq<byte>)
    requires Canonical(ds)
    ensures Digits(Value(ds)) == ds
  {
    if |ds| > 1 {
      var init := ds[..|ds| - 1];
      LeadingDigitPositive(init);
      DigitsOfValue(init);
      assert init + [ds[|ds| - 1]] == ds;
    }
  }

  /** The number of leading digits of `s`. */
  function DigitRun(s: seq<byte>): (k: nat)
    ensures k <= |s| && AllDigits(s[..k])
    ensures k < |s| ==> !IsDigit(s[k])
  {
    if s == [] || !IsDigit(s[0]) then 0
    else
      var k := 1 + DigitRun(s[1..]);
      assert s[..k] == [s[0]] + s[1..][..k - 1];
      k
  }

  /** The digit run of a digit string followed by a non-digit is that digit string. */
  lemma {:induction false} DigitRunStops(ds: seq<byte>, tail: seq<byte>)
    requires AllDigits(ds)
    requires |tail| > 0 && !IsDigit(tail[0])
    ensures DigitRun(ds + tail) == |ds|
  {
    if ds != [] {
      assert (ds + tail)[1..] == ds[1..] + tail;
      DigitRunStops(ds[1..], tail);
    }
  }
}
