/**
  * Decimal digit strings: the number rendering behind date-fns's
  * `addLeadingZeros` (used by `format`) and the digit reading behind
  * `parseISO`.
  */
module Decimal {

  predicate IsDigit(c: char) {
    '0' <= c <= '9'
  }

  predicate AllDigits(s: string) {
    forall i :: 0 <= i < |s| ==> IsDigit(s[i])
  }

  function DigitChar(n: nat): (c: char)
    requires n < 10
    ensures IsDigit(c) && c as int - '0' as int == n
  {
    "0123456789"[n]
  }

  function DigitValue(c: char): nat
    requires IsDigit(c)
  {
    c as int - '0' as int
  }

  function Pow10(k: nat): (p: nat)
    ensures p >= 1
  {
    if k == 0 then 1 else 10 * Pow10(k - 1)
  }

  /** `n.toString()`: the shortest decimal digits of `n`. */
  function ToDigits(n: nat): (s: string)
    ensures |s| >= 1 && AllDigits(s)
  {
    if n < 10 then [DigitChar(n)] else ToDigits(n / 10) + [DigitChar(n % 10)]
  }

  /** The number a digit string denotes, leading zeros allowed. */
  function Value(s: string): (v: nat)
    requires AllDigits(s)
    ensures v < Pow10(|s|)
  {
    if s == [] then 0 else Value(s[..|s| - 1]) * 10 + DigitValue(s[|s| - 1])
  }

  /** `n.toString()` reads back as `n`. */
  lemma {:induction false} ValueOfToDigits(n: nat)
    ensures Value(ToDigits(n)) == n
  {
    if n >= 10 {
      var s := ToDigits(n);
      assert s[..|s| - 1] == ToDigits(n / 10);
      ValueOfToDigits(n / 10);
    }
  }

  /** A number below `10^k` has at most `k` digits. */
  lemma {:induction false} ToDigitsLength(n: nat, k: nat)
    requires 1 <= k && n < Pow10(k)
    ensures |ToDigits(n)| <= k
  {
    if n >= 10 {
      assert Pow10(1) == 10;
      ToDigitsLength(n / 10, k - 1);
    }
  }

  lemma ToDigitsFits(n: nat, k: nat)
    ensures 1 <= k && n < Pow10(k) ==> |ToDigits(n)| <= k
  {
    if 1 <= k && n < Pow10(k) { ToDigitsLength(n, k); }
  }

  function Zeros(k: nat): (s: string)
    ensures |s| == k && AllDigits(s)
  {
    if k == 0 then [] else Zeros(k - 1) + "0"
  }

  /** A string of zeros denotes zero. */
  lemma {:induction false} ZerosValue(k: nat)
    ensures Value(Zeros(k)) == 0
  {
    if k > 0 {
      assert Zeros(k)[..k - 1] == Zeros(k - 1);
      ZerosValue(k - 1);
    }
  }

  /** Any number of leading zeros leaves the value of a digit string unchanged. */
  lemma {:induction false} ValueIgnoresLeadingZeros(k: nat, t: string)
    requires AllDigits(t)
    ensures Value(Zeros(k) + t) == Value(t)
    decreases |t|
  {
    if t == [] {
      assert Zeros(k) + t == Zeros(k);
      ZerosValue(k);
    } else {
      var s := Zeros(k) + t;
      var init := t[..|t| - 1];
      assert s[..|s| - 1] == Zeros(k) + init;
      assert s[|s| - 1] == t[|t| - 1];
      ValueIgnoresLeadingZeros(k, init);
      assert Value(s) == Value(Zeros(k) + init) * 10 + DigitValue(t[|t| - 1]);
    }
  }

  /**
    * date-fns `addLeadingZeros(n, width)`: the digits of `n`, padded on the
    * left with zeros up to `width` characters; never cut.
    */
  function AddLeadingZeros(n: nat, width: nat): (s: string)
    ensures AllDigits(s) && Value(s) == n
    ensures |s| == if |ToDigits(n)| < width then width else |ToDigits(n)|
    ensures 1 <= width && n < Pow10(width) ==> |s| == width
  {
    var digits := ToDigits(n);
    var pad := if |digits| < width then width - |digits| else 0;
    ValueOfToDigits(n);
    ValueIgnoresLeadingZeros(pad, digits);
    ToDigitsFits(n, width);
    Zeros(pad) + digits
  }

  /** Two digit strings of one length with one value are the same string. */
  lemma {:induction false} SameValueSameDigits(a: string, b: string)
    requires AllDigits(a) && AllDigits(b) && |a| == |b| && Value(a) == Value(b)
    ensures a == b
    decreases |a|
  {
    if a != [] {
      var n := |a| - 1;
      assert DigitValue(a[n]) == DigitValue(b[n]);
      SameValueSameDigits(a[..n], b[..n]);
      assert a == a[..n] + [a[n]] && b == b[..n] + [b[n]];
    }
  }

  /** A digit string is the padded rendering of its own value at its own length. */
  lemma AddLeadingZerosOfValue(t: string)
    requires AllDigits(t) && |t| >= 1
    ensures AddLeadingZeros(Value(t), |t|) == t
  {
    SameValueSameDigits(AddLeadingZeros(Value(t), |t|), t);
  }
}
