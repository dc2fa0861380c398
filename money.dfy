/** Money amounts.  The application keeps money in Python floats; the model uses exact
    reals, so only the explicit rounding to cents (Python's round(x, 2)) loses anything. */
module Money {

  /** The integer nearest y, ties to the even one. */
  function RoundHalfEven(y: real): (c: int)
    ensures -0.5 <= c as real - y <= 0.5
    ensures y.Floor as real == y ==> c as real == y
  {
    var f := y.Floor;
    var frac := y - f as real;
    if frac < 0.5 then f
    else if frac > 0.5 then f + 1
    else if f % 2 == 0 then f else f + 1
  }

  /** round(x, 2): the nearest multiple of 1/100, ties to the even cent (Python rounds
      half to even), taken on the exact value rather than on a binary float. */
  function Round2(x: real): (r: real)
    ensures -1.0 / 200.0 <= r - x <= 1.0 / 200.0
    ensures (r * 100.0).Floor as real == r * 100.0
  {
    var cents := RoundHalfEven(x * 100.0);
    var r := cents as real / 100.0;
    assert r * 100.0 == cents as real;
    assert r - x == (cents as real - x * 100.0) / 100.0;
    r
  }

  /** An amount that is already a whole number of cents is stored unchanged. */
  lemma RoundWholeCents(c: int)
    ensures Round2(c as real / 100.0) == c as real / 100.0
  {
    var x := c as real / 100.0;
    assert x * 100.0 == c as real;
  }

  /** A sum of rounded amounts strays from the exact sum by at most half a cent per term. */
  lemma {:induction false} RoundedSumError(xs: seq<real>)
    ensures -(|xs| as real) / 200.0 <= Sum(RoundAll(xs)) - Sum(xs) <= (|xs| as real) / 200.0
  {
    if xs != [] {
      RoundedSumError(xs[1..]);
    }
  }

  function RoundAll(xs: seq<real>): (r: seq<real>)
    ensures |r| == |xs| && forall i :: 0 <= i < |xs| ==> r[i] == Round2(xs[i])
  {
    if xs == [] then [] else [Round2(xs[0])] + RoundAll(xs[1..])
  }

  function Sum(xs: seq<real>): real
  {
    if xs == [] then 0.0 else xs[0] + Sum(xs[1..])
  }
}
