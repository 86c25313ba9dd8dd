/** Positional numerals: what `toString()` prints, and what the yeast loop
    computes in base 64. */
module Numerals {
  import opened Js

  /** The digits of `n` in base `b`, most significant first. */
  function Numeral(n: nat, b: nat): (ds: seq<nat>)
    requires b >= 2
    ensures |ds| > 0
    ensures forall i | 0 <= i < |ds| :: ds[i] < b
  {
    if n < b then [n] else
      DivSmaller(n, b);
      Numeral(n / b, b) + [n % b]
  }

  /** The number that a digit sequence denotes. */
  function Value(ds: seq<nat>, b: nat): nat {
    if ds == [] then 0 else Value(ds[..|ds| - 1], b) * b + ds[|ds| - 1]
  }

  lemma DivSmaller(n: nat, b: nat)
    requires 2 <= b <= n
    ensures 0 < n / b < n
  {
    var q, d := n / b, n % b;
    assert n == q * b + d;
    assert q * b >= q * 2;
  }

  lemma DivMod(n: nat, b: nat)
    requires b > 0
    ensures n == (n / b) * b + n % b
  {
  }

  lemma DivOfShift(q: nat, d: nat, b: nat)
    requires d < b
    ensures (q * b + d) / b == q && (q * b + d) % b == d
  {
    var n := q * b + d;
    var e := n / b - q;
    assert n == (n / b) * b + n % b;
    assert e * b == d - n % b;
    assert 0 - b < e * b < b;
  }

  lemma ValueAppend(ds: seq<nat>, d: nat, b: nat)
    ensures Value(ds + [d], b) == Value(ds, b) * b + d
  {
    assert (ds + [d])[..|ds|] == ds;
  }

  lemma {:induction false} ValueOfNumeral(n: nat, b: nat)
    requires b >= 2
    ensures Value(Numeral(n, b), b) == n
  {
    if n >= b {
      DivSmaller(n, b);
      var q, d := n / b, n % b;
      ValueOfNumeral(q, b);
      ValueAppend(Numeral(q, b), d, b);
      DivMod(n, b);
    } else {
      ValueAppend([], n, b);
      assert [] + [n] == [n];
    }
  }

  /** A numeral never starts with a zero, except the numeral of zero. */
  lemma {:induction false} NoLeadingZero(n: nat, b: nat)
    requires b >= 2
    ensures |Numeral(n, b)| > 1 ==> Numeral(n, b)[0] != 0
    ensures n > 0 ==> Numeral(n, b)[0] != 0
  {
    if n >= b {
      DivSmaller(n, b);
      NoLeadingZero(n / b, b);
    }
  }

  /** Every digit sequence without a leading zero is the numeral of its value. */
  lemma {:induction false} NumeralOfValue(ds: seq<nat>, b: nat)
    requires b >= 2 && ds != []
    requires forall i | 0 <= i < |ds| :: ds[i] < b
    requires |ds| == 1 || ds[0] != 0
    ensures Numeral(Value(ds, b), b) == ds
    ensures |ds| > 1 ==> Value(ds, b) >= b
  {
    var q, d := ds[..|ds| - 1], ds[|ds| - 1];
    if |ds| > 1 {
      NumeralOfValue(q, b);
      assert Value(q, b) >= 1 by {
        if |q| == 1 { assert q[..0] == []; }
      }
      AtLeastOneDigit(Value(q, b), d, b);
      DivOfShift(Value(q, b), d, b);
      assert ds == q + [d];
    } else {
      assert q == [];
    }
  }

  lemma AtLeastOneDigit(q: nat, d: nat, b: nat)
    requires q >= 1
    ensures q * b + d >= b
  {
  }

  /** No other digit sequence for the same number is shorter. */
  lemma {:induction false} NumeralShortest(ds: seq<nat>, b: nat)
    requires b >= 2 && ds != []
    requires forall i | 0 <= i < |ds| :: ds[i] < b
    ensures |Numeral(Value(ds, b), b)| <= |ds|
  {
    var q, d := ds[..|ds| - 1], ds[|ds| - 1];
    if |ds| == 1 {
      assert q == [];
    } else {
      NumeralShortest(q, b);
      DivOfShift(Value(q, b), d, b);
    }
  }

  /** `n.toString()` */
  function Decimal(n: nat): (s: JsString)
    ensures |s| > 0
    ensures forall i | 0 <= i < |s| :: ZERO <= s[i] <= NINE
  {
    DigitsText(Numeral(n, 10))
  }

  function DigitsText(ds: seq<nat>): (s: JsString)
    requires forall i | 0 <= i < |ds| :: ds[i] < 10
    ensures |s| == |ds|
    ensures forall i | 0 <= i < |s| :: ZERO <= s[i] <= NINE
  {
    seq(|ds|, i requires 0 <= i < |ds| => ZERO + ds[i])
  }

  /** The digit values of a text made of decimal digits. */
  function TextDigits(s: JsString): (ds: seq<nat>)
    requires forall i | 0 <= i < |s| :: ZERO <= s[i] <= NINE
    ensures |ds| == |s|
    ensures forall i | 0 <= i < |ds| :: ds[i] < 10
  {
    seq(|s|, i requires 0 <= i < |s| => s[i] - ZERO)
  }

  lemma TextDigitsOfDecimal(n: nat)
    ensures TextDigits(Decimal(n)) == Numeral(n, 10)
    ensures Value(TextDigits(Decimal(n)), 10) == n
  {
    assert TextDigits(Decimal(n)) == Numeral(n, 10);
    ValueOfNumeral(n, 10);
  }
}
