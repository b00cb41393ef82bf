/**
 * Positional notation: a natural number written as a most-significant-first
 * sequence of digit values in some base. The hexadecimal and the decimal
 * conversions both sit on top of this module.
 */
module Positional {

  function Pow(base: nat, k: nat): (p: nat)
    ensures base >= 1 ==> p >= 1
  {
    if k == 0 then 1 else base * Pow(base, k - 1)
  }

  /** Horner's rule: what has been read so far, times the base, plus the next digit. */
  function Eval(ds: seq<nat>, base: nat): nat
  {
    if ds == [] then 0 else Eval(ds[..|ds| - 1], base) * base + ds[|ds| - 1]
  }

  /** The textbook definition: the digit at 0-indexed position i weighs base^(|ds|-1-i). */
  function WeightedSum(ds: seq<nat>, base: nat): nat
  {
    if ds == [] then 0 else ds[0] * Pow(base, |ds| - 1) + WeightedSum(ds[1..], base)
  }

  predicate IsDigitSeq(ds: seq<nat>, base: nat)
  {
    forall i :: 0 <= i < |ds| ==> ds[i] < base
  }

  /** Non-empty and without a leading zero: the form a formatter prints. */
  predicate IsCanonical(ds: seq<nat>, base: nat)
  {
    |ds| > 0 && IsDigitSeq(ds, base) && (ds[0] == 0 ==> |ds| == 1)
  }

  /** The canonical digits of n, most significant first ([0] for zero). */
  function Digits(n: nat, base: nat): (ds: seq<nat>)
    requires base >= 2
    ensures IsCanonical(ds, base)
    ensures ds[0] == 0 <==> n == 0
    decreases n
  {
    DivBasics(n, base);
    if n < base then [n] else Digits(n / base, base) + [n % base]
  }

  lemma MulNonneg(a: nat, b: nat)
    ensures a * b >= 0
  {
  }

  lemma MulMonotone(a: nat, b: nat, c: nat)
    requires a <= b
    ensures a * c <= b * c
  {
    assert b * c == a * c + (b - a) * c;
    MulNonneg(b - a, c);
  }

  /** Euclidean division by a base of at least two, spelled out for the solver. */
  lemma DivBasics(n: nat, base: nat)
    requires base >= 2
    ensures n == (n / base) * base + n % base && 0 <= n % base < base
    ensures n >= base ==> 1 <= n / base < n
    ensures n < base ==> n / base == 0 && n % base == n
  {
    var q, r := n / base, n % base;
    assert q * base == q * 2 + q * (base - 2);
    MulNonneg(q, base - 2);
  }

  lemma PowMonotone(base: nat, i: nat, j: nat)
    requires base >= 1 && i <= j
    ensures Pow(base, i) <= Pow(base, j)
    decreases j
  {
    if i < j {
      PowMonotone(base, i, j - 1);
      MulMonotone(1, base, Pow(base, j - 1));
    }
  }

  lemma EvalSnoc(ds: seq<nat>, d: nat, base: nat)
    ensures Eval(ds + [d], base) == Eval(ds, base) * base + d
  {
    assert (ds + [d])[..|ds|] == ds;
  }

  lemma {:induction false} WeightedSumSnoc(ds: seq<nat>, d: nat, base: nat)
    ensures WeightedSum(ds + [d], base) == WeightedSum(ds, base) * base + d
    decreases |ds|
  {
    if ds == [] {
      assert [] + [d] == [d];
      assert [d][1..] == [];
    } else {
      var p := Pow(base, |ds| - 1);
      assert (ds + [d])[0] == ds[0];
      assert (ds + [d])[1..] == ds[1..] + [d];
      WeightedSumSnoc(ds[1..], d, base);
      calc {
        WeightedSum(ds + [d], base);
        ds[0] * Pow(base, |ds|) + WeightedSum(ds[1..] + [d], base);
        ds[0] * (base * p) + WeightedSum(ds[1..], base) * base + d;
        { assert ds[0] * (base * p) == (ds[0] * p) * base; }
        (ds[0] * p) * base + WeightedSum(ds[1..], base) * base + d;
        (ds[0] * p + WeightedSum(ds[1..], base)) * base + d;
        WeightedSum(ds, base) * base + d;
      }
    }
  }

  /** Horner's rule computes the textbook sum of digit times power of the base. */
  lemma {:induction false} EvalIsWeightedSum(ds: seq<nat>, base: nat)
    ensures Eval(ds, base) == WeightedSum(ds, base)
    decreases |ds|
  {
    if ds != [] {
      var init, last := ds[..|ds| - 1], ds[|ds| - 1];
      assert ds == init + [last];
      EvalIsWeightedSum(init, base);
      WeightedSumSnoc(init, last, base);
    }
  }

  /** Reading back the printed digits gives the number. */
  lemma {:induction false} EvalDigits(n: nat, base: nat)
    requires base >= 2
    ensures Eval(Digits(n, base), base) == n
    decreases n
  {
    DivBasics(n, base);
    if n >= base {
      EvalDigits(n / base, base);
      EvalSnoc(Digits(n / base, base), n % base, base);
    } else {
      assert Digits(n, base)[..0] == [];
    }
  }

  /** The arithmetic step behind EvalUpperBound, on plain numbers. */
  lemma AppendDigitBound(e: nat, d: nat, p: nat, base: nat)
    requires d < base && e < p
    ensures e * base + d < p * base
  {
    assert (e + 1) * base == e * base + base;
    MulMonotone(e + 1, p, base);
  }

  lemma {:induction false} EvalUpperBound(ds: seq<nat>, base: nat)
    requires IsDigitSeq(ds, base)
    ensures Eval(ds, base) < Pow(base, |ds|)
    decreases |ds|
  {
    if ds != [] {
      var init, last := ds[..|ds| - 1], ds[|ds| - 1];
      assert IsDigitSeq(init, base);
      EvalUpperBound(init, base);
      var e, p := Eval(init, base), Pow(base, |init|);
      assert Eval(ds, base) == e * base + last;
      assert Pow(base, |ds|) == base * p;
      AppendDigitBound(e, last, p, base);
      assert p * base == base * p;
    }
  }

  lemma {:induction false} EvalLowerBound(ds: seq<nat>, base: nat)
    requires |ds| > 0 && ds[0] > 0 && base >= 1
    ensures Eval(ds, base) >= Pow(base, |ds| - 1)
    decreases |ds|
  {
    var init := ds[..|ds| - 1];
    if |ds| == 1 {
      assert init == [];
    } else {
      EvalLowerBound(init, base);
      MulMonotone(Pow(base, |init| - 1), Eval(init, base), base);
    }
  }

  lemma DivModOf(q: nat, r: nat, base: nat)
    requires r < base
    ensures (q * base + r) / base == q && (q * base + r) % base == r
  {
    var n := q * base + r;
    var q', r' := n / base, n % base;
    assert (q' - q) * base == r - r';
    if q' > q {
      assert (q' - q) * base == (q' - q - 1) * base + base;
      MulNonneg(q' - q - 1, base);
    } else if q' < q {
      assert (q - q') * base == (q - q' - 1) * base + base;
      MulNonneg(q - q' - 1, base);
    }
  }

  /** Appending a digit to a positive value gives at least one base. */
  lemma AppendDigitAtLeastBase(q: nat, d: nat, base: nat)
    requires q >= 1
    ensures q * base + d >= base
  {
    MulMonotone(1, q, base);
  }

  /** A canonical digit sequence is exactly what Digits prints for its value. */
  lemma {:induction false} DigitsEval(ds: seq<nat>, base: nat)
    requires base >= 2 && IsCanonical(ds, base)
    ensures Digits(Eval(ds, base), base) == ds
    decreases |ds|
  {
    var init, last := ds[..|ds| - 1], ds[|ds| - 1];
    if |ds| == 1 {
      assert init == [];
      assert ds == [last];
    } else {
      assert init[0] == ds[0];
      assert IsCanonical(init, base);
      EvalLowerBound(init, base);
      var q := Eval(init, base);
      var n := q * base + last;
      assert Eval(ds, base) == n;
      DivModOf(q, last, base);
      AppendDigitAtLeastBase(q, last, base);
      assert Digits(n, base) == Digits(q, base) + [last];
      DigitsEval(init, base);
      assert ds == init + [last];
    }
  }

  /** n has w digits exactly when base^(w-1) <= n < base^w. */
  lemma DigitsWidth(n: nat, base: nat)
    requires base >= 2 && n > 0
    ensures Pow(base, |Digits(n, base)| - 1) <= n < Pow(base, |Digits(n, base)|)
  {
    var ds := Digits(n, base);
    EvalDigits(n, base);
    EvalUpperBound(ds, base);
    EvalLowerBound(ds, base);
  }

  /** Conversely, base^k <= n < base^(k+1) means n has k + 1 digits. */
  lemma WidthFromBounds(n: nat, k: nat, base: nat)
    requires base >= 2 && Pow(base, k) <= n < Pow(base, k + 1)
    ensures |Digits(n, base)| == k + 1
  {
    var w := |Digits(n, base)|;
    DigitsWidth(n, base);
    if w - 1 > k {
      PowMonotone(base, k + 1, w - 1);
    } else if w - 1 < k {
      PowMonotone(base, w, k);
    }
  }
}
