/**
 The powers of y in GF(1024): there are 1023 of them, which are all elements but zero, so
 a product is zero only if a factor is.
 */
module Bech32Order {
  import opened Bech32Bits
  import opened Bech32Field
  import opened Collections
  import opened Numbers

  // ---------------------------------------------------------------- the order of y

  lemma {:induction false} Difference(a: nat, b: nat)
    requires b <= a && Pow(a) == 1 && Pow(b) == 1
    ensures Pow(a - b) == 1
  {
    PowAdd(a - b, b);
    MulOne(Pow(a - b));
  }

  lemma {:induction false} SumDivides(x: nat, y: nat, g: nat)
    requires g > 0 && x % g == 0 && y % g == 0
    ensures (x + y) % g == 0
  {
    NatQuotient(x, g);
    NatQuotient(y, g);
    Distribute(x / g, y / g, g);
    Quotient(x + y, g, x / g + y / g, 0);
  }

  /** The greatest common divisor of two exponents that give one gives one as well. */
  lemma {:induction false} Euclid(a: nat, b: nat) returns (g: nat)
    requires a > 0 && b > 0 && Pow(a) == 1 && Pow(b) == 1
    ensures 0 < g <= a && g <= b && Pow(g) == 1 && a % g == 0 && b % g == 0
    decreases a + b
  {
    if a == b {
      g := a;
    } else if a > b {
      Difference(a, b);
      g := Euclid(a - b, b);
      SumDivides(a - b, b, g);
    } else {
      Difference(b, a);
      g := Euclid(a, b - a);
      SumDivides(b - a, a, g);
    }
  }

  lemma {:induction false} Multiple(g: nat, k: nat)
    requires Pow(g) == 1
    ensures g * k >= 0 && Pow(g * k) == 1
  {
    MulNat(g, k);
    if k > 0 {
      Multiple(g, k - 1);
      Distribute(k - 1, 1, g);
      PowAdd(g * (k - 1), g);
      MulOne(1);
    }
  }

  lemma {:induction false} DivisorNot(g: nat, k: nat, m: nat)
    requires m == g * k && Pow(m) != 1
    ensures Pow(g) != 1
  {
    if Pow(g) == 1 {
      Multiple(g, k);
    }
  }

  lemma {:induction false} SmallDivisor(n: nat)
    requires 0 < n < 32 && 1023 % n == 0
    ensures n == 1 || n == 3 || n == 11 || n == 31
  {
    if 12 <= n < 22 {
      NoDivisor(n, 12);
    } else if 22 <= n < 31 {
      NoDivisor(n, 22);
    } else if n < 12 {
      assert n < 6 ==> n == 1 || n == 2 || n == 3 || n == 4 || n == 5;
      assert n >= 6 ==> n == 6 || n == 7 || n == 8 || n == 9 || n == 10 || n == 11;
    }
  }

  lemma {:induction false} NoDivisor(n: nat, from: nat)
    requires (from == 12 || from == 22) && from <= n < from + 10 && n != 31
    ensures 1023 % n != 0
  {
    var i := n - from;
    assert i < 5 ==> i == 0 || i == 1 || i == 2 || i == 3 || i == 4;
    assert i >= 5 ==> i == 5 || i == 6 || i == 7 || i == 8 || i == 9;
  }

  /** A proper divisor of 1023 divides 341, 93 or 33. */
  lemma {:induction false} ProperDivisor(g: nat)
    requires 0 < g < 1023 && 1023 % g == 0
    ensures 341 % g == 0 || 93 % g == 0 || 33 % g == 0
  {
    var k := 1023 / g;
    NatQuotient(1023, g);
    if g < 32 {
      SmallDivisor(g);
    } else {
      if k >= 32 {
        MulMono(32, k, 32);
        MulMono(32, g, k);
      }
      Quotient(1023, k, g, 0);
      SmallDivisor(k);
    }
  }

  lemma {:induction false} ProperNot(g: nat, n: nat)
    requires 0 < g < n == 1023 && n % g == 0
    ensures Pow(g) != 1
  {
    var m := if 341 % g == 0 then 341 else if 93 % g == 0 then 93 else 33;
    ProperDivisor(g);
    PowersOfY(m);
    NatQuotient(m, g);
    assert m == g * (m / g);
    DivisorNot(g, m / g, m);
  }

  /** No smaller power of y is one. */
  lemma {:induction false} OrderIs(d: nat, n: nat)
    requires 0 < d < n == 1023
    ensures Pow(d) != 1 && Pow(n) == 1
  {
    PowersOfY(n);
    if Pow(d) == 1 {
      var g := Euclid(d, n);
      ProperNot(g, n);
    }
  }

  lemma {:induction false} PowInjective(i: nat, j: nat, n: nat)
    requires i < j < n == 1023
    ensures Pow(i) != Pow(j)
  {
    if Pow(i) == Pow(j) {
      var k := n - i;
      OrderIs(j - i, n);
      PowAdd(i, k);
      PowAdd(j, k);
      assert i + k == n && j + k == n + (j - i);
      PowAdd(j - i, n);
      MulOne(Pow(j - i));
    }
  }

  // ---------------------------------------------------------------- every element is a power

  ghost function SetOf(s: seq<nat>): (r: set<nat>) {
    if s == [] then {} else SetOf(s[..|s| - 1]) + {s[|s| - 1]}
  }

  ghost function UpTo(k: nat): (s: set<nat>) {
    if k == 0 then {} else UpTo(k - 1) + {k}
  }

  lemma {:induction false} UpToIs(k: nat)
    ensures |UpTo(k)| == k && forall x :: x in UpTo(k) <==> 0 < x <= k
  {
    if k > 0 {
      UpToIs(k - 1);
    }
  }

  lemma {:induction false} SetOfIs(s: seq<nat>)
    requires Distinct(s)
    ensures |SetOf(s)| == |s| && forall x :: x in SetOf(s) <==> x in s
  {
    if s != [] {
      var t, x := s[..|s| - 1], s[|s| - 1];
      SetOfIs(t);
      assert s == t + [x];
      assert x !in t;
    }
  }

  /** As many different numbers up to a bound as the bound are all of them. */
  lemma {:induction false} Pigeons(s: seq<nat>, x: nat)
    requires Distinct(s) && (forall i :: 0 <= i < |s| ==> 0 < s[i] <= |s|) && 0 < x <= |s|
    ensures x in s
  {
    SetOfIs(s);
    UpToIs(|s|);
    forall y | y in SetOf(s)
      ensures y in UpTo(|s|)
    {
      assert y in s;
    }
    FullSubset(SetOf(s), UpTo(|s|));
  }

  lemma {:induction false} FullSubset(a: set<nat>, b: set<nat>)
    requires a <= b && |a| == |b|
    ensures a == b
  {
    if a != b {
      ProperSubsetSize(a, b);
    }
  }

  function PowersBelow(k: nat): (s: seq<nat>) {
    seq(k, n requires n >= 0 => Pow(n))
  }

  lemma {:induction false} PowersFit(k: nat)
    requires k == 1023
    ensures Distinct(PowersBelow(k)) && forall i :: 0 <= i < k ==> 0 < PowersBelow(k)[i] <= k
  {
    var s := PowersBelow(k);
    forall i: nat, j: nat | i < j < k
      ensures s[i] != s[j]
    {
      PowInjective(i, j, k);
    }
    forall i: nat | i < k
      ensures 0 < s[i] <= k
    {
      PowNonzero(i);
    }
  }

  /** Every element but zero is a power of y. */
  lemma {:induction false} AllPowers(e: Elem, k: nat) returns (n: nat)
    requires e != 0 && k == 1023
    ensures n < k && Pow(n) == e
  {
    var s := PowersBelow(k);
    PowersFit(k);
    Pigeons(s, e);
    n :| n < |s| && s[n] == e;
  }

  /** A product is zero only if a factor is. */
  lemma {:induction false} NoZeroDivisor(a: Elem, b: Elem)
    requires Mul(a, b) == 0
    ensures a == 0 || b == 0
  {
    if a != 0 && b != 0 {
      var m := AllPowers(a, 1023);
      var n := AllPowers(b, 1023);
      PowAdd(m, n);
      PowNonzero(m + n);
    }
  }
}
