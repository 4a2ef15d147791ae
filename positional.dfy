/** Big-endian positional notation in a base b >= 2.  With b = 256 this is how
    math/big reads and writes byte strings (SetBytes, Bytes, FillBytes); with
    b = 58 it is the digit layer of base58. */
module Positional {

  /** An octet: a digit of base 256. */
  type byte = d: nat | d < 256

  /** b to the power e. */
  function Pow(b: nat, e: nat): (r: nat)
    ensures b > 0 ==> r > 0
  {
    if e == 0 then 1 else b * Pow(b, e - 1)
  }

  /** Every element of ds is a digit of base b. */
  ghost predicate IsDigits(ds: seq<nat>, b: nat) {
    forall i :: 0 <= i < |ds| ==> ds[i] < b
  }

  /** The number denoted by the big-endian digits ds (big.Int.SetBytes). */
  function Value(ds: seq<nat>, b: nat): nat {
    if ds == [] then 0 else Value(ds[..|ds| - 1], b) * b + ds[|ds| - 1]
  }

  /** The shortest big-endian digits of n (big.Int.Bytes): no leading zero. */
  function Minimal(n: nat, b: nat): (ds: seq<nat>)
    requires b >= 2
    ensures IsDigits(ds, b)
    ensures ds == [] <==> n == 0
    ensures ds != [] ==> ds[0] != 0
    decreases n
  {
    if n == 0 then []
    else
      assert n / b < n by { DivShrinks(n, b); }
      Minimal(n / b, b) + [n % b]
  }

  /** The w low-order digits of n, zero-padded on the left (big.Int.FillBytes). */
  function Fixed(n: nat, b: nat, w: nat): (ds: seq<nat>)
    requires b >= 2
    ensures |ds| == w && IsDigits(ds, b)
  {
    if w == 0 then [] else Fixed(n / b, b, w - 1) + [n % b]
  }

  /** w zero digits. */
  function Zeros(w: nat): (ds: seq<nat>)
    ensures |ds| == w && forall i :: 0 <= i < w ==> ds[i] == 0
  {
    if w == 0 then [] else Zeros(w - 1) + [0]
  }

  /** k >= 1 copies of b add up to at least b. */
  lemma {:induction false} MulAtLeast(k: nat, b: nat)
    requires k >= 1
    ensures k * b >= b
  {
    if k > 1 {
      MulAtLeast(k - 1, b);
      assert k * b == (k - 1) * b + b;
    }
  }

  /** Multiplying by b preserves a strict order, by a margin of b. */
  lemma MulStep(x: nat, y: nat, b: nat)
    ensures x > y ==> x * b >= y * b + b
  {
    if x > y {
      MulAtLeast(x - y, b);
      assert x * b == y * b + (x - y) * b;
    }
  }

  lemma DivShrinks(n: nat, b: nat)
    requires n > 0 && b >= 2
    ensures n / b < n
  {
    var q := n / b;
    assert n == q * b + n % b;
    MulStep(b, 1, q);
    assert b * q == q * b;
  }

  /** Division with remainder has unique results. */
  lemma DivModUnique(n: nat, q: nat, r: nat, b: nat)
    requires b > 0 && r < b && n == q * b + r
    ensures q == n / b && r == n % b
  {
    var q', r' := n / b, n % b;
    assert n == q' * b + r';
    MulStep(q, q', b);
    MulStep(q', q, b);
  }

  /** A number below b^w loses one digit when divided by b. */
  lemma DivBound(n: nat, b: nat, w: nat)
    requires b >= 2 && w > 0 && n < Pow(b, w)
    ensures n / b < Pow(b, w - 1)
  {
    var p, q := Pow(b, w - 1), n / b;
    assert Pow(b, w) == p * b;
    assert n == q * b + n % b;
    MulStep(q, p - 1, b);
    assert q > p - 1 ==> q * b >= (p - 1) * b + b == p * b;
  }

  lemma Recompose(n: nat, b: nat)
    requires b > 0
    ensures (n / b) * b + n % b == n
  {
  }

  /** Appending a digit shifts the value by one place. */
  lemma DigitsAppend(ds: seq<nat>, d: nat, b: nat)
    ensures Value(ds + [d], b) == Value(ds, b) * b + d
  {
    assert (ds + [d])[..|ds|] == ds;
  }

  /** Reading back the minimal digits of n gives n. */
  lemma {:induction false} ValueOfMinimal(n: nat, b: nat)
    requires b >= 2
    ensures Value(Minimal(n, b), b) == n
  {
    if n > 0 {
      var q, r := n / b, n % b;
      DivShrinks(n, b);
      ValueOfMinimal(q, b);
      var ds := Minimal(n, b);
      assert ds == Minimal(q, b) + [r];
      DigitsAppend(Minimal(q, b), r, b);
      Recompose(n, b);
    }
  }

  /** One digit of the w-digit form, split off at the low end. */
  lemma FixedStep(n: nat, b: nat, w: nat)
    requires b >= 2 && w > 0
    ensures Value(Fixed(n, b, w), b) == Value(Fixed(n / b, b, w - 1), b) * b + n % b
  {
    var low := Fixed(n / b, b, w - 1);
    assert Fixed(n, b, w) == low + [n % b];
    DigitsAppend(low, n % b, b);
  }

  lemma ValueOfFixedStep(n: nat, b: nat, w: nat)
    requires b >= 2 && n < Pow(b, w) && w > 0
    requires Value(Fixed(n / b, b, w - 1), b) == n / b
    ensures Value(Fixed(n, b, w), b) == n
  {
    FixedStep(n, b, w);
  }

  /** A digit sequence with a non-zero leading digit denotes a positive number. */
  lemma {:induction false} ValuePositive(ds: seq<nat>, b: nat)
    requires b >= 2 && ds != [] && ds[0] != 0
    ensures Value(ds, b) > 0
  {
    if |ds| > 1 {
      var init := ds[..|ds| - 1];
      ValuePositive(init, b);
      assert Value(init, b) * b >= Value(init, b);
    }
  }

  /** Digits without a leading zero are the minimal digits of their value. */
  lemma {:induction false} MinimalOfValue(ds: seq<nat>, b: nat)
    requires b >= 2 && IsDigits(ds, b) && (ds == [] || ds[0] != 0)
    ensures Minimal(Value(ds, b), b) == ds
  {
    if ds != [] {
      var init, last := ds[..|ds| - 1], ds[|ds| - 1];
      var n := Value(ds, b);
      ValuePositive(ds, b);
      DivModUnique(n, Value(init, b), last, b);
      MinimalOfValue(init, b);
      assert ds == init + [last];
    }
  }

  /** Leading zero digits do not change the value. */
  lemma {:induction false} ValueOfZerosPrefix(k: nat, ds: seq<nat>, b: nat)
    ensures Value(Zeros(k) + ds, b) == Value(ds, b)
    decreases |ds|, k
  {
    if ds == [] {
      assert Zeros(k) + ds == Zeros(k);
      if k > 0 {
        assert Zeros(k)[..k - 1] == Zeros(k - 1) + [];
        ValueOfZerosPrefix(k - 1, [], b);
      }
    } else {
      var init := ds[..|ds| - 1];
      assert (Zeros(k) + ds)[..|Zeros(k) + ds| - 1] == Zeros(k) + init;
      ValueOfZerosPrefix(k, init, b);
    }
  }

  /** Reading back the w-digit form of a number below b^w gives that number. */
  lemma {:induction false} ValueOfFixed(n: nat, b: nat, w: nat)
    requires b >= 2 && n < Pow(b, w)
    ensures Value(Fixed(n, b, w), b) == n
  {
    if w > 0 {
      var q := n / b;
      DivBound(n, b, w);
      ValueOfFixed(q, b, w - 1);
      ValueOfFixedStep(n, b, w);
    }
  }
}
