/** ASCII character classes and decimal text for natural numbers: what the model
    uses for Python's str.isalnum/isalpha/isdigit, int(...) and f"{n:03d}". */
module Decimal {

  import opened Wrappers

  predicate IsDigit(c: char) { '0' <= c <= '9' }

  predicate IsAlpha(c: char) { 'a' <= c <= 'z' || 'A' <= c <= 'Z' }

  predicate IsAlnum(c: char) { IsDigit(c) || IsAlpha(c) }

  predicate AllDigits(s: string) { forall i :: 0 <= i < |s| ==> IsDigit(s[i]) }

  function DigitValue(c: char): (d: nat)
    requires IsDigit(c)
    ensures d < 10
  {
    (c - '0') as nat
  }

  function DigitChar(d: nat): (c: char)
    requires d < 10
    ensures IsDigit(c) && DigitValue(c) == d
  {
    ('0' as int + d) as char
  }

  /** The number a string of decimal digits denotes (most significant digit first). */
  function Value(s: string): nat
    requires AllDigits(s)
  {
    if s == [] then 0 else Value(s[..|s| - 1]) * 10 + DigitValue(s[|s| - 1])
  }

  /** Shortest decimal text of n, as Python's str(n) gives it. */
  function ToDecimal(n: nat): (s: string)
    ensures |s| >= 1 && AllDigits(s)
    ensures |s| > 1 ==> s[0] != '0'
  {
    if n < 10 then [DigitChar(n)] else ToDecimal(n / 10) + [DigitChar(n % 10)]
  }

  function Zeros(k: nat): (s: string)
    ensures |s| == k && AllDigits(s)
    ensures forall i :: 0 <= i < k ==> s[i] == '0'
  {
    if k == 0 then [] else Zeros(k - 1) + ['0']
  }

  /** f"{n:0{w}d}": the decimal text of n left-padded with zeros to width w. */
  function ZeroPad(n: nat, w: nat): (s: string)
    ensures |s| >= w && |s| >= 1 && AllDigits(s)
  {
    var d := ToDecimal(n);
    if |d| < w then Zeros(w - |d|) + d else d
  }

  /** int(s) restricted to plain digit strings: None where int(...) would be skipped. */
  function ParseNat(s: string): (r: Option<nat>)
  {
    if |s| > 0 && AllDigits(s) then Some(Value(s)) else None
  }

  lemma {:induction false} ToDecimalRoundTrip(n: nat)
    ensures Value(ToDecimal(n)) == n
  {
    if n >= 10 {
      var s := ToDecimal(n);
      ToDecimalRoundTrip(n / 10);
      assert s[..|s| - 1] == ToDecimal(n / 10);
    }
  }

  lemma {:induction false} LeadingZerosValue(k: nat, s: string)
    requires AllDigits(s)
    ensures AllDigits(Zeros(k) + s) && Value(Zeros(k) + s) == Value(s)
    decreases k + |s|
  {
    var t := Zeros(k) + s;
    if s == [] {
      assert t == Zeros(k);
      ZerosValue(k);
    } else {
      LeadingZerosValue(k, s[..|s| - 1]);
      assert t[..|t| - 1] == Zeros(k) + s[..|s| - 1];
    }
  }

  lemma {:induction false} ZerosValue(k: nat)
    ensures Value(Zeros(k)) == 0
  {
    if k > 0 {
      ZerosValue(k - 1);
      assert Zeros(k)[..k - 1] == Zeros(k - 1);
    }
  }

  /** Zero padding keeps the digits and the number they denote. */
  lemma ZeroPadValue(n: nat, w: nat)
    ensures |ZeroPad(n, w)| >= w && |ZeroPad(n, w)| >= 1
    ensures AllDigits(ZeroPad(n, w)) && ParseNat(ZeroPad(n, w)) == Some(n)
  {
    var d := ToDecimal(n);
    ToDecimalRoundTrip(n);
    if |d| < w { LeadingZerosValue(w - |d|, d); }
  }
}
