/**
 Unsigned arithmetic on a fixed number of 32-bit limbs (src/arith_uint256.cpp,
 src/arith_uint256.h), against mathematical integers.

 A second operand is passed by its limbs: every operator of the source has read the
 limbs of its operand before it overwrites the limbs of the same index, or works on a copy.
 */
module ArithUint256 {
  import opened Numbers

  const B := 0x1_0000_0000

  type Limb = x: nat | x < B
  type Limbs = seq<Limb>

  // ---------------------------------------------------------------- the number that limbs denote

  /** The weight of limb `i`. */
  ghost function Wt(i: nat): (w: nat)
    ensures w >= 1
  {
    if i == 0 then 1 else B * Wt(i - 1)
  }

  /** The number that the first `n` limbs denote. */
  ghost function V(s: Limbs, n: nat): (v: nat)
    requires n <= |s|
  {
    if n == 0 then 0 else V(s, n - 1) + Scaled(s[n - 1], Wt(n - 1))
  }

  /** The number that the limbs denote. */
  ghost function Val(s: Limbs): (v: nat) {
    V(s, |s|)
  }

  lemma {:induction false} WtPow(i: nat)
    ensures Wt(i) == Pow2(32 * i)
  {
    if i > 0 {
      WtPow(i - 1);
      Pow2Values();
      Pow2Add(32, 32 * (i - 1));
    }
  }

  lemma {:induction false} WtMul(i: nat, j: nat)
    ensures Wt(i + j) == Wt(i) * Wt(j)
  {
    if i > 0 {
      WtMul(i - 1, j);
      assert Wt(i + j) == B * Wt(i - 1 + j);
      Assoc(B, Wt(i - 1), Wt(j));
    }
  }

  lemma {:induction false} Nines(i: nat)
    ensures Scaled(B - 1, Wt(i)) == Wt(i + 1) - Wt(i)
  {
    ScaledIs(B - 1, Wt(i));
  }

  lemma {:induction false} VBound(s: Limbs, n: nat)
    requires n <= |s|
    ensures V(s, n) < Wt(n)
  {
    if n > 0 {
      VBound(s, n - 1);
      Nines(n - 1);
      ScaledMono(s[n - 1], B - 1, Wt(n - 1));
    }
  }

  lemma {:induction false} VSame(s: Limbs, t: Limbs, n: nat)
    requires n <= |s| && n <= |t| && forall i :: 0 <= i < n ==> s[i] == t[i]
    ensures V(s, n) == V(t, n)
  {
    if n > 0 {
      VSame(s, t, n - 1);
    }
  }

  lemma {:induction false} VUpdate(s: Limbs, i: nat, x: Limb, n: nat)
    requires i < |s| && n <= |s|
    ensures V(s[i := x], n) == V(s, n) + if i < n then Scaled(x, Wt(i)) - Scaled(s[i], Wt(i)) else 0
  {
    if n > 0 {
      VUpdate(s, i, x, n - 1);
    }
  }

  lemma {:induction false} AddAt(s: Limbs, i: nat, y: nat)
    requires i < |s| && s[i] as int + y < B
    ensures Val(s[i := s[i] as int + y]) == Val(s) + Scaled(y, Wt(i))
  {
    VUpdate(s, i, s[i] as int + y, |s|);
    ScaledAdd(s[i], y, Wt(i));
  }

  lemma {:induction false} VConst(s: Limbs, x: Limb, n: nat)
    requires n <= |s| && forall i :: 0 <= i < n ==> s[i] == x
    requires x == 0 || x == B - 1
    ensures V(s, n) == if x == 0 then 0 else Wt(n) - 1
  {
    if n > 0 {
      VConst(s, x, n - 1);
      Nines(n - 1);
    }
  }

  lemma {:induction false} VNot(s: Limbs, t: Limbs, n: nat)
    requires n <= |s| && n <= |t| && forall i :: 0 <= i < n ==> t[i] == B - 1 - s[i]
    ensures V(t, n) == Wt(n) - 1 - V(s, n)
  {
    if n > 0 {
      VNot(s, t, n - 1);
      Nines(n - 1);
      ScaledAdd(s[n - 1], B - 1 - s[n - 1], Wt(n - 1));
    }
  }

  /** A carried sum splits into a limb and a carry of the next weight. */
  lemma {:induction false} CarryStep(n: nat, i: nat)
    ensures Scaled(n % B, Wt(i)) + Scaled(n / B, Wt(i + 1)) == Scaled(n, Wt(i))
  {
    var w := Wt(i);
    ScaledIs(n % B, w);
    ScaledIs(n / B, Wt(i + 1));
    ScaledIs(n, w);
    Assoc(n / B, B, w);
    Distribute(n % B, n / B * B, w);
  }

  lemma {:induction false} CarryInto(s: Limbs, i: nat, n: nat, t: nat)
    requires i < |s| && V(s, i) + Scaled(n, Wt(i)) == t
    ensures V(s[i := n % B], i + 1) + Scaled(n / B, Wt(i + 1)) == t
  {
    VUpdate(s, i, n % B, i);
    CarryStep(n, i);
  }

  /** A carry out of the last limb is lost. */
  lemma {:induction false} CarryOut(s: Limbs, c: nat, t: nat)
    requires Val(s) + Scaled(c, Wt(|s|)) == t
    ensures Val(s) == Mod(t, Wt(|s|))
  {
    VBound(s, |s|);
    ModOf(Val(s), c, Wt(|s|));
  }

  /** The highest limb in which two numbers differ decides. */
  lemma {:induction false} VOrder(s: Limbs, t: Limbs, i: nat, n: nat)
    requires i < n <= |s| && n <= |t| && s[i] < t[i] && forall j :: i < j < n ==> s[j] == t[j]
    ensures V(s, n) < V(t, n)
  {
    if i == n - 1 {
      VBound(s, i);
      ScaledMono(s[i] as int + 1, t[i], Wt(i));
      ScaledAdd(s[i], 1, Wt(i));
      ScaledIs(1, Wt(i));
    } else {
      VOrder(s, t, i, n - 1);
    }
  }

  // ---------------------------------------------------------------- steps of the loops

  lemma {:induction false} AddStep(a: Limbs, s: Limbs, b: Limbs, i: nat, carry: nat)
    requires i < |a| == |s| == |b| && s[i] == a[i] && V(s, i) + Scaled(carry, Wt(i)) == V(a, i) + V(b, i)
    ensures var n := carry + s[i] + b[i];
            V(s[i := n % B], i + 1) + Scaled(n / B, Wt(i + 1)) == V(a, i + 1) + V(b, i + 1)
  {
    ScaledAdd(carry, s[i], Wt(i));
    ScaledAdd(carry + s[i], b[i], Wt(i));
    CarryInto(s, i, carry + s[i] + b[i], V(a, i + 1) + V(b, i + 1));
  }

  /** carry + a + x * y fits in 64 bits and its high half is a limb. */
  lemma {:induction false} Accumulates(carry: nat, a: nat, x: nat, y: nat)
    requires carry < B && a < B && x < B && y < B
    ensures x * y >= 0 && carry + a + x * y < B * B && (carry + a + x * y) / B < B
  {
    MulMono(x, B - 1, y);
    MulMono(0, x, y);
  }

  lemma {:induction false} MulStep(a: Limbs, s: Limbs, b: Limb, i: nat, carry: nat)
    requires i < |a| == |s| && s[i] == a[i] && V(s, i) + Scaled(carry, Wt(i)) == Scaled(V(a, i), b) && carry < B
    ensures var n := carry + b * s[i];
            && 0 <= n < B * B && 0 <= n / B < B
            && V(s[i := n % B], i + 1) + Scaled(n / B, Wt(i + 1)) == Scaled(V(a, i + 1), b)
  {
    Accumulates(carry, 0, b, s[i]);
    ScaledAdd(carry, b * s[i], Wt(i));
    ScaledSwap(s[i], Wt(i), b);
    ScaledAdd(V(a, i), Scaled(s[i], Wt(i)), b);
    CarryInto(s, i, carry + b * s[i], Scaled(V(a, i + 1), b));
  }

  /** The inner loop of the schoolbook multiplication, for limb `j` of value `x`. */
  lemma {:induction false} RowStep(a: Limbs, s: Limbs, x: Limb, b: Limbs, j: nat, i: nat, carry: nat, c: nat, n: nat)
    requires i + j < |a| == |s| == |b| && s[i + j] == a[i + j] && c == Scaled(x, Wt(j))
    requires V(s, i + j) + Scaled(carry, Wt(i + j)) == V(a, i + j) + Scaled(V(b, i), c)
    requires n == carry + s[i + j] + Scaled(b[i], x)
    ensures V(s[i + j := n % B], i + j + 1) + Scaled(n / B, Wt(i + j + 1)) == V(a, i + j + 1) + Scaled(V(b, i + 1), c)
  {
    ScaledAdd(carry, s[i + j], Wt(i + j));
    ScaledAdd(carry + s[i + j], Scaled(b[i], x), Wt(i + j));
    RowProduct(x, b[i], i, j);
    ScaledAdd(V(b, i), Scaled(b[i], Wt(i)), c);
    CarryInto(s, i + j, n, V(a, i + j + 1) + Scaled(V(b, i + 1), c));
  }

  lemma {:induction false} RowProduct(x: nat, y: nat, i: nat, j: nat)
    ensures Scaled(Scaled(y, x), Wt(i + j)) == Scaled(Scaled(y, Wt(i)), Scaled(x, Wt(j)))
  {
    var wi, wj := Wt(i), Wt(j);
    WtMul(i, j);
    ScaledIs(y, x);
    ScaledIs(Scaled(y, x), Wt(i + j));
    ScaledIs(y, wi);
    ScaledIs(x, wj);
    ScaledIs(Scaled(y, wi), Scaled(x, wj));
    FourFactors(x, y, wi, wj);
  }

  lemma {:induction false} FourFactors(x: int, y: int, u: int, v: int)
    ensures (x * y) * (u * v) == (y * u) * (x * v)
  {
    Assoc(x * y, u, v);
    Assoc(y * u, x, v);
    assert x * y == y * x;
    Assoc(y, x, u);
  }

  /** The part of a row that lies beyond the last limb, like its carry, is lost. */
  lemma {:induction false} RowEnd(a: Limbs, s: Limbs, x: Limb, b: Limbs, i: nat, j: nat, carry: nat, c: nat)
    requires i + j == |b| && |a| == |s| == |b| && c == Scaled(x, Wt(j))
    requires Val(s) + Scaled(carry, Wt(|s|)) == Val(a) + Scaled(V(b, i), c)
    ensures Val(s) == Mod(Val(a) + Scaled(Val(b), c), Wt(|s|))
  {
    var y := RowSplit(x, b, i, j);
    assert Scaled(Val(b), c) == Scaled(V(b, i), c) + Scaled(y, Wt(|s|));
    var u, t := Val(a) + Scaled(V(b, i), c), Val(a) + Scaled(Val(b), c);
    assert t == u + Scaled(y, Wt(|s|));
    CarriesOut(s, carry, y, u, t);
  }

  lemma {:induction false} CarriesOut(s: Limbs, c: nat, y: nat, u: nat, t: nat)
    requires Val(s) + Scaled(c, Wt(|s|)) == u && t == u + Scaled(y, Wt(|s|))
    ensures Val(s) == Mod(t, Wt(|s|))
  {
    ScaledAdd(c, y, Wt(|s|));
    CarryOut(s, c + y, t);
  }

  lemma {:induction false} RowSplit(x: Limb, b: Limbs, i: nat, j: nat) returns (y: nat)
    requires i + j == |b|
    ensures Scaled(Val(b), Scaled(x, Wt(j))) == Scaled(V(b, i), Scaled(x, Wt(j))) + Scaled(y, Wt(|b|))
  {
    var r := AboveWeight(b, i, |b|);
    ScaledAdd(V(b, i), Scaled(r, Wt(i)), Scaled(x, Wt(j)));
    y := Scaled(x, r);
    RowBeyond(x, r, i, j);
  }

  lemma {:induction false} RowBeyond(x: nat, r: nat, i: nat, j: nat)
    ensures Scaled(Scaled(x, r), Wt(i + j)) == Scaled(Scaled(r, Wt(i)), Scaled(x, Wt(j)))
  {
    ScaledIs(x, r);
    ScaledIs(r, x);
    RowProduct(x, r, i, j);
  }

  lemma {:induction false} RowAdds(v: nat, p: nat, q: nat, m: nat, r: nat, r': nat)
    requires m > 0 && r == Mod(Scaled(v, p), m) && r' == Mod(r + Scaled(v, q), m)
    ensures r' == Mod(Scaled(v, p + q), m)
  {
    ModAdd(Scaled(v, p), Scaled(v, q), m);
    ScaledSplit(v, p, q);
  }

  /** What the limbs from `i` on denote is a multiple of the weight of limb `i`. */
  lemma {:induction false} AboveWeight(s: Limbs, i: nat, n: nat) returns (r: nat)
    requires i <= n <= |s|
    ensures V(s, n) == V(s, i) + Scaled(r, Wt(i))
  {
    if i == n {
      r := 0;
    } else {
      var r' := AboveWeight(s, i, n - 1);
      var y := Scaled(s[n - 1], Wt(n - 1 - i));
      WtMul(n - 1 - i, i);
      ScaledTwice(s[n - 1], Wt(n - 1 - i), Wt(i));
      r := r' + y;
      ScaledAdd(r', y, Wt(i));
    }
  }

  lemma {:induction false} SameAbove(a: Limbs, s: Limbs, i: nat, n: nat)
    requires i <= n <= |a| == |s| && forall j :: i <= j < n ==> s[j] == a[j]
    ensures V(s, n) - V(s, i) == V(a, n) - V(a, i)
  {
    if i < n {
      SameAbove(a, s, i, n - 1);
    }
  }

  lemma {:induction false} IncrementDone(a: Limbs, s: Limbs, i: nat)
    requires i < |a| == |s| && s[i] as int == a[i] as int + 1
    requires forall j :: 0 <= j < i ==> a[j] == B - 1 && s[j] == 0
    requires forall j :: i < j < |a| ==> s[j] == a[j]
    ensures Val(s) == Val(a) + 1
  {
    VConst(a, B - 1, i);
    VConst(s, 0, i);
    ScaledAdd(a[i], 1, Wt(i));
    ScaledIs(1, Wt(i));
    SameAbove(a, s, i + 1, |a|);
  }

  // ---------------------------------------------------------------- shifts

  /** Shifting a limb left by `t` gives a low part in the same place and a high part for the next. */
  lemma {:induction false} ShiftLimb(x: Limb, t: nat)
    requires t < 32
    ensures var hi, lo := x / Pow2(32 - t), x * Pow2(t) % B;
            && 0 <= hi < Pow2(t) && 0 <= lo && lo + Pow2(t) <= B && Aligned(lo, t)
            && x * Pow2(t) == hi * B + lo
  {
    Pow2Values();
    Pow2Add(32 - t, t);
    var r := SplitProduct(x, Pow2(32 - t), Pow2(t), B);
    Quotient(x * Pow2(t), B, x / Pow2(32 - t), r * Pow2(t));
    AlignedMultiple(r, t);
  }

  lemma {:induction false} SplitProduct(x: nat, u: nat, p: nat, b: nat) returns (r: nat)
    requires u > 0 && p > 0 && u * p == b && x < b
    ensures 0 <= x / u < p && r * p >= 0 && r * p + p <= b
    ensures r == x % u && x * p == x / u * b + r * p
  {
    r := x % u;
    DivBelow(x, u, p);
    SplitSum(x, x / u, u, r, p);
    MulMono(r + 1, u, p);
    MulMono(0, r, p);
    Distribute(r, 1, p);
  }

  lemma {:induction false} SplitSum(x: int, q: int, u: int, r: int, p: int)
    requires x == q * u + r
    ensures x * p == q * (u * p) + r * p
  {
    Distribute(q * u, r, p);
    Assoc(q, u, p);
  }

  /** 2^shift, in limbs and bits. */
  lemma {:induction false} ShiftWeight(k: nat, t: nat)
    ensures Pow2(32 * k + t) == Wt(k) * Pow2(t)
  {
    WtPow(k);
    Pow2Add(32 * k, t);
  }

  /** One limb of a left shift, by weight. */
  lemma {:induction false} ShlWeight(x: Limb, i: nat, k: nat, t: nat)
    requires t < 32
    ensures x / Pow2(32 - t) >= 0 && x * Pow2(t) % B >= 0
    ensures Scaled(Scaled(x, Wt(i)), Pow2(32 * k + t))
         == Scaled(x / Pow2(32 - t), Wt(i + k + 1)) + Scaled(x * Pow2(t) % B, Wt(i + k))
  {
    ShiftLimb(x, t);
    ShiftWeight(k, t);
    var hi, lo, p := x / Pow2(32 - t), x * Pow2(t) % B, Pow2(t);
    ShlProduct(x, Wt(i), Wt(k), p);
    WtMul(i, k);
    assert Scaled(Scaled(x, Wt(i)), Pow2(32 * k + t)) == Scaled(hi * B + lo, Wt(i + k));
    assert hi * B + lo == lo + B * hi;
    HighLow(hi, lo, Wt(i + k));
  }

  lemma {:induction false} ShlProduct(x: nat, u: nat, v: nat, p: nat)
    requires u * v >= 0 && v * p >= 0 && x * p >= 0
    ensures Scaled(Scaled(x, u), v * p) == Scaled(x * p, u * v)
  {
    ScaledIs(x, u);
    ScaledIs(x * u, v * p);
    ScaledIs(x * p, u * v);
    FourFactors(p, x, u, v);
    assert p * x == x * p && p * v == v * p;
  }

  lemma {:induction false} HighLow(hi: nat, lo: nat, w: nat)
    requires hi * B + lo >= 0
    ensures Scaled(hi * B + lo, w) == Scaled(hi, B * w) + Scaled(lo, w)
  {
    ScaledAdd(hi * B, lo, w);
    ScaledIs(hi * B, w);
    ScaledIs(hi, B * w);
    Assoc(hi, B, w);
  }

  /** The effect of one round of a left shift on the limbs. */
  function ShlPut(s: Limbs, x: Limb, i: nat, k: nat, t: nat): (r: Limbs)
    requires t < 32 && ShlReady(s, i, k, t)
    ensures |r| == |s|
  {
    ShiftLimb(x, t);
    var hi, lo := x / Pow2(32 - t), x * Pow2(t) % B;
    var s1 := if i + k + 1 < |s| && t != 0 then s[i + k + 1 := Or(s[i + k + 1], hi)] else s;
    if i + k < |s| then
      OrDisjoint(s1[i + k], lo, t);
      s1[i + k := Or(s1[i + k], lo)]
    else s1
  }

  /** Limb i + k has room for its low part and the limbs above are still 0. */
  predicate ShlReady(s: Limbs, i: nat, k: nat, t: nat) {
    && (i + k < |s| ==> s[i + k] < Pow2(t))
    && (forall j :: i + k < j < |s| ==> s[j] == 0)
  }

  lemma {:induction false} ShlPutIs(s: Limbs, x: Limb, i: nat, k: nat, t: nat)
    requires t < 32 && ShlReady(s, i, k, t)
    ensures ShlReady(ShlPut(s, x, i, k, t), i + 1, k, t)
    ensures Val(ShlPut(s, x, i, k, t)) == Val(s) + ShlKept(x, i, k, t, |s|)
  {
    ShiftLimb(x, t);
    if i + k < |s| {
      var hi, lo := x / Pow2(32 - t), x * Pow2(t) % B;
      OrDisjoint(s[i + k], lo, t);
      AddAt(s, i + k, lo);
      if i + k + 1 < |s| && t != 0 {
        AddAt(s[i + k := s[i + k] + lo], i + k + 1, hi);
        Swapped(s, i + k, s[i + k] + lo, hi);
      } else {
        NoHighPart(x, t);
      }
    }
  }

  lemma {:induction false} Swapped(s: Limbs, i: nat, x: Limb, y: Limb)
    requires i + 1 < |s|
    ensures s[i := x][i + 1 := y] == s[i + 1 := y][i := x]
  {
  }

  lemma {:induction false} NoHighPart(x: Limb, t: nat)
    requires t < 32
    ensures t == 0 ==> x / Pow2(32 - t) == 0
  {
    Pow2Values();
  }

  /** Weights beyond the last limb are multiples of the modulus. */
  lemma {:induction false} Beyond(x: nat, i: nat, n: nat) returns (y: nat)
    requires i >= n
    ensures Scaled(x, Wt(i)) == Scaled(y, Wt(n))
  {
    WtMul(i - n, n);
    y := Scaled(x, Wt(i - n));
    ScaledTwice(x, Wt(i - n), Wt(n));
  }

  /** The part of one shifted limb that stays within `n` limbs. */
  ghost function ShlKept(x: Limb, i: nat, k: nat, t: nat, n: nat): (v: nat)
    requires t < 32
  {
    ShiftLimb(x, t);
    (if i + k + 1 < n then Scaled(x / Pow2(32 - t), Wt(i + k + 1)) else 0)
    + (if i + k < n then Scaled(x * Pow2(t) % B, Wt(i + k)) else 0)
  }

  lemma {:induction false} ShlLoses(x: Limb, i: nat, k: nat, t: nat, n: nat) returns (y: nat)
    requires t < 32
    ensures Scaled(Scaled(x, Wt(i)), Pow2(32 * k + t)) == ShlKept(x, i, k, t, n) + Scaled(y, Wt(n))
  {
    ShlWeight(x, i, k, t);
    y := PartsLost(x / Pow2(32 - t), x * Pow2(t) % B, i + k, n);
  }

  lemma {:induction false} PartsLost(hi: nat, lo: nat, i: nat, n: nat) returns (y: nat)
    ensures Scaled(hi, Wt(i + 1)) + Scaled(lo, Wt(i))
         == (if i + 1 < n then Scaled(hi, Wt(i + 1)) else 0) + (if i < n then Scaled(lo, Wt(i)) else 0)
            + Scaled(y, Wt(n))
  {
    if i + 1 < n {
      y := 0;
    } else {
      y := Beyond(hi, i + 1, n);
      if i >= n {
        var z := Beyond(lo, i, n);
        ScaledAdd(y, z, Wt(n));
        y := y + z;
      }
    }
  }

  lemma {:induction false} ShlStep(a: Limbs, i: nat, k: nat, t: nat, q: nat, n: nat, v: nat, v': nat, lost: nat)
      returns (lost': nat)
    requires i < |a| && t < 32 && q == Pow2(32 * k + t)
    requires v + Scaled(lost, Wt(n)) == Scaled(V(a, i), q) && v' == v + ShlKept(a[i], i, k, t, n)
    ensures v' + Scaled(lost', Wt(n)) == Scaled(V(a, i + 1), q)
  {
    ScaledAdd(V(a, i), Scaled(a[i], Wt(i)), q);
    var y := ShlLoses(a[i], i, k, t, n);
    ScaledAdd(lost, y, Wt(n));
    lost' := lost + y;
  }

  /** Shifting a limb right by `t` keeps the high part in place and moves the low part to the limb below. */
  lemma {:induction false} ShiftDown(x: Limb, t: nat)
    requires t < 32
    ensures var hi, lo := x / Pow2(t), x * Pow2(32 - t) % B;
            && 0 <= hi < Pow2(32 - t) && 0 <= lo && lo + Pow2(32 - t) <= B && Aligned(lo, 32 - t)
            && lo == x % Pow2(t) * Pow2(32 - t)
  {
    Pow2Values();
    Pow2Add(t, 32 - t);
    var r := SplitProduct(x, Pow2(t), Pow2(32 - t), B);
    Quotient(x * Pow2(32 - t), B, x / Pow2(t), r * Pow2(32 - t));
    AlignedMultiple(r, 32 - t);
  }

  /** Where one limb of a right shift ends up. */
  ghost function ShrKept(x: Limb, i: nat, k: nat, t: nat): (v: nat)
    requires t < 32
  {
    ShiftDown(x, t);
    (if i > k then Scaled(x * Pow2(32 - t) % B, Wt(i - k - 1)) else 0)
    + (if i >= k then Scaled(x / Pow2(t), Wt(i - k)) else 0)
  }

  lemma {:induction false} ShrHigh(hi: nat, i: nat, k: nat, t: nat)
    requires i >= k && hi * Pow2(t) >= 0
    ensures Scaled(Scaled(hi, Wt(i - k)), Pow2(32 * k + t)) == Scaled(hi * Pow2(t), Wt(i))
  {
    ShiftWeight(k, t);
    WtMul(i - k, k);
    ShlProduct(hi, Wt(i - k), Wt(k), Pow2(t));
  }

  lemma {:induction false} ShrLow(r: nat, i: nat, k: nat, t: nat)
    requires i > k && t < 32 && r * Pow2(32 - t) >= 0
    ensures Scaled(Scaled(r * Pow2(32 - t), Wt(i - k - 1)), Pow2(32 * k + t)) == Scaled(r, Wt(i))
  {
    var u, p := Pow2(32 - t), Pow2(t);
    Pow2Values();
    Pow2Add(32 - t, t);
    Assoc(r, u, p);
    ShrHigh(r * u, i - 1, k, t);
    HighLow(r, 0, Wt(i - 1));
    assert r * B + 0 == r * B;
  }

  /** What of the first `i` limbs a right shift drops. */
  ghost function ShrLost(a: Limbs, i: nat, k: nat, t: nat): (v: nat)
    requires i <= |a|
  {
    if i <= k then V(a, i) else V(a, k) + Scaled(a[k] % Pow2(t), Wt(k))
  }

  lemma {:induction false} ShrStep(a: Limbs, i: nat, k: nat, t: nat, q: nat, v: nat)
    requires i < |a| && t < 32 && q == Pow2(32 * k + t) && Scaled(v, q) + ShrLost(a, i, k, t) == V(a, i)
    ensures Scaled(v + ShrKept(a[i], i, k, t), q) + ShrLost(a, i + 1, k, t) == V(a, i + 1)
  {
    var x := a[i];
    ScaledAdd(v, ShrKept(x, i, k, t), q);
    ShrLimb(x, i, k, t);
  }

  lemma {:induction false} ShrLimb(x: Limb, i: nat, k: nat, t: nat)
    requires t < 32
    ensures x % Pow2(t) >= 0
    ensures Scaled(ShrKept(x, i, k, t), Pow2(32 * k + t))
          + (if i < k then Scaled(x, Wt(i)) else if i == k then Scaled(x % Pow2(t), Wt(i)) else 0) == Scaled(x, Wt(i))
  {
    ShiftDown(x, t);
    if i >= k {
      ShrParts(x, t, i, k);
      if i > k {
        ShrBoth(x, i, k, t);
      }
    }
  }

  /** The high part of a limb, by weight. */
  lemma {:induction false} ShrParts(x: Limb, t: nat, i: nat, k: nat)
    requires i >= k && t < 32
    ensures x / Pow2(t) >= 0 && x % Pow2(t) >= 0
    ensures Scaled(Scaled(x / Pow2(t), Wt(i - k)), Pow2(32 * k + t)) + Scaled(x % Pow2(t), Wt(i)) == Scaled(x, Wt(i))
  {
    NatQuotient(x, Pow2(t));
    PartsOf(x, x / Pow2(t), x % Pow2(t), i, k, t);
  }

  lemma {:induction false} PartsOf(x: nat, hi: nat, r: nat, i: nat, k: nat, t: nat)
    requires i >= k && hi * Pow2(t) >= 0 && x == hi * Pow2(t) + r
    ensures Scaled(Scaled(hi, Wt(i - k)), Pow2(32 * k + t)) + Scaled(r, Wt(i)) == Scaled(x, Wt(i))
  {
    ShrHigh(hi, i, k, t);
    ScaledAdd(hi * Pow2(t), r, Wt(i));
  }

  lemma {:induction false} ShrBoth(x: Limb, i: nat, k: nat, t: nat)
    requires i > k && t < 32
    ensures x / Pow2(t) >= 0 && x % Pow2(t) >= 0
    ensures Scaled(ShrKept(x, i, k, t), Pow2(32 * k + t))
         == Scaled(x % Pow2(t), Wt(i)) + Scaled(Scaled(x / Pow2(t), Wt(i - k)), Pow2(32 * k + t))
  {
    ShiftDown(x, t);
    ShrLow(x % Pow2(t), i, k, t);
    ScaledAdd(Scaled(x * Pow2(32 - t) % B, Wt(i - k - 1)), Scaled(x / Pow2(t), Wt(i - k)), Pow2(32 * k + t));
  }

  lemma {:induction false} ShrLostBound(a: Limbs, k: nat, t: nat)
    ensures ShrLost(a, |a|, k, t) < Pow2(32 * k + t)
  {
    ShiftWeight(k, t);
    if |a| <= k {
      VBound(a, |a|);
      WtMono(|a|, k);
      MulPos(Wt(k), Pow2(t));
    } else {
      VBound(a, k);
      LostLimb(V(a, k), a[k] % Pow2(t), Pow2(t), Wt(k));
    }
  }

  lemma {:induction false} LostLimb(v: nat, r: nat, p: nat, w: nat)
    requires v < w && r < p
    ensures v + Scaled(r, w) < w * p
  {
    ScaledIs(r, w);
    MulMono(r + 1, p, w);
    Distribute(r, 1, w);
  }

  lemma {:induction false} WtMono(i: nat, j: nat)
    requires i <= j
    ensures Wt(i) <= Wt(j)
  {
    if i < j {
      WtMono(i, j - 1);
    }
  }

  /** The limbs from i - k on are still 0 and the one below has room for a low part. */
  predicate ShrReady(s: Limbs, i: nat, k: nat, t: nat)
    requires t < 32
  {
    && (k < i <= |s| + k ==> s[i - k - 1] < Pow2(32 - t))
    && (forall j :: 0 <= j < |s| && i <= j + k ==> s[j] == 0)
  }

  /** The effect of one round of a right shift on the limbs. */
  function ShrPut(s: Limbs, x: Limb, i: nat, k: nat, t: nat): (r: Limbs)
    requires i < |s| && t < 32 && ShrReady(s, i, k, t)
    ensures |r| == |s|
  {
    ShiftDown(x, t);
    var hi, lo := x / Pow2(t), x * Pow2(32 - t) % B;
    var s1 := if i > k && t != 0 then
                OrDisjoint(s[i - k - 1], lo, 32 - t);
                s[i - k - 1 := Or(s[i - k - 1], lo)]
              else s;
    if i >= k then s1[i - k := Or(s1[i - k], hi)] else s1
  }

  lemma {:induction false} ShrPutIs(s: Limbs, x: Limb, i: nat, k: nat, t: nat)
    requires i < |s| && t < 32 && ShrReady(s, i, k, t)
    ensures ShrReady(ShrPut(s, x, i, k, t), i + 1, k, t)
    ensures Val(ShrPut(s, x, i, k, t)) == Val(s) + ShrKept(x, i, k, t)
  {
    ShiftDown(x, t);
    if i >= k {
      var hi, lo := x / Pow2(t), x * Pow2(32 - t) % B;
      if i > k && t != 0 {
        OrDisjoint(s[i - k - 1], lo, 32 - t);
        AddAt(s, i - k - 1, lo);
        AddAt(s[i - k - 1 := s[i - k - 1] + lo], i - k, hi);
      } else {
        NoLowPart(x, t);
        AddAt(s, i - k, hi);
      }
    }
  }

  lemma {:induction false} NoLowPart(x: Limb, t: nat)
    requires t < 32
    ensures t == 0 ==> x * Pow2(32 - t) % B == 0
  {
    Pow2Values();
  }

  // ---------------------------------------------------------------- the highest bit

  /** The highest limb that is not 0, and its highest bit, bound the number. */
  lemma {:induction false} TopLimb(s: Limbs, pos: nat, c: nat)
    requires pos < |s| && Pow2(c) <= s[pos] < Pow2(c + 1) && forall j :: pos < j < |s| ==> s[j] == 0
    ensures Pow2(32 * pos + c) <= Val(s) < Pow2(32 * pos + c + 1)
  {
    ZeroAbove(s, pos + 1, |s|);
    VBound(s, pos);
    TopBelow(V(s, pos), s[pos], pos, c + 1);
    TopAbove(s[pos], pos, c);
  }

  lemma {:induction false} TopBelow(v: nat, x: nat, pos: nat, c: nat)
    requires v < Wt(pos) && x < Pow2(c)
    ensures v + Scaled(x, Wt(pos)) < Pow2(32 * pos + c)
  {
    ShiftWeight(pos, c);
    LostLimb(v, x, Pow2(c), Wt(pos));
  }

  lemma {:induction false} TopAbove(x: nat, pos: nat, c: nat)
    requires Pow2(c) <= x
    ensures Pow2(32 * pos + c) <= Scaled(x, Wt(pos))
  {
    ShiftWeight(pos, c);
    ScaledMono(Pow2(c), x, Wt(pos));
    ScaledIs(Pow2(c), Wt(pos));
  }

  lemma {:induction false} ZeroAbove(s: Limbs, i: nat, n: nat)
    requires i <= n <= |s| && forall j :: i <= j < n ==> s[j] == 0
    ensures V(s, n) == V(s, i)
  {
    if i < n {
      ZeroAbove(s, i, n - 1);
    }
  }

  /** Testing a bit of a number that has no higher ones. */
  lemma {:induction false} BitTest(x: nat, c: nat)
    requires x < Pow2(c + 1)
    ensures x / Pow2(c) % 2 == 1 <==> x >= Pow2(c)
  {
    if x >= Pow2(c) {
      Quotient(x, Pow2(c), 1, x - Pow2(c));
    } else {
      Quotient(x, Pow2(c), 0, x);
    }
  }

  // ---------------------------------------------------------------- division

  /** The bits up to `shift` of a quotient under construction are 0. */
  ghost predicate BitsClear(s: Limbs, shift: int) {
    0 <= shift < 32 * |s| ==>
      Aligned(s[shift / 32], shift % 32 + 1) && forall j :: 0 <= j < shift / 32 ==> s[j] == 0
  }

  /** Setting bit `shift`. */
  lemma {:induction false} SetBit(s: Limbs, shift: nat)
    requires shift < 32 * |s| && BitsClear(s, shift)
    ensures var l, c := shift / 32, shift % 32;
            && Or(s[l], Pow2(c)) < B && BitsClear(s[l := Or(s[l], Pow2(c))], shift - 1)
            && Val(s[l := Or(s[l], Pow2(c))]) == Val(s) + Pow2(shift)
  {
    var l, c := shift / 32, shift % 32;
    BitRoom(s[l], c);
    KeepsClear(s, shift, s[l] + Pow2(c));
    AddAt(s, l, Pow2(c));
    BitWeight(l, c);
  }

  lemma {:induction false} BitRoom(x: Limb, c: nat)
    requires c < 32 && Aligned(x, c + 1)
    ensures Or(x, Pow2(c)) == x + Pow2(c) < B && Aligned(x + Pow2(c), c)
  {
    OrDisjoint(Pow2(c), x, c + 1);
    Pow2Values();
    AlignedRoom(x, c + 1, 32);
    AlignedBit(x, c);
  }

  lemma {:induction false} KeepsClear(s: Limbs, shift: nat, x: Limb)
    requires shift < 32 * |s| && BitsClear(s, shift) && Aligned(x, shift % 32)
    ensures BitsClear(s[shift / 32 := x], shift - 1)
  {
    AlignedZero(32);
  }

  lemma {:induction false} BitWeight(l: nat, c: nat)
    ensures Scaled(Pow2(c), Wt(l)) == Pow2(32 * l + c)
  {
    ShiftWeight(l, c);
    ScaledIs(Pow2(c), Wt(l));
  }

  lemma {:induction false} AllClear(s: Limbs, shift: nat)
    requires forall j :: 0 <= j < |s| ==> s[j] == 0
    ensures BitsClear(s, shift)
  {
    AlignedZero(shift % 32 + 1);
  }

  lemma {:induction false} StaysClear(s: Limbs, shift: nat)
    requires shift < 32 * |s| && BitsClear(s, shift)
    ensures BitsClear(s, shift - 1)
  {
    AlignedBit(s[shift / 32], shift % 32);
    AlignedZero(32);
  }

  /** Dividing `n` by `d` with the quotient bits from `k` on done, and remainder `r` so far. */
  ghost predicate Dividing(n: nat, d: nat, q: nat, r: nat, k: nat) {
    Scaled(q, d) + r == n && r < Scaled(d, Pow2(k))
  }

  lemma {:induction false} DivTake(n: nat, d: nat, q: nat, r: nat, k: nat)
    requires Dividing(n, d, q, r, k + 1) && r >= Scaled(d, Pow2(k))
    ensures Dividing(n, d, q + Pow2(k), r - Scaled(d, Pow2(k)), k)
  {
    ScaledAdd(q, Pow2(k), d);
    ScaledIs(Pow2(k), d);
    ScaledIs(d, Pow2(k));
    ScaledSplit(d, Pow2(k), Pow2(k));
  }

  lemma {:induction false} DivHalf(d: nat, k: nat)
    requires k > 0
    ensures Scaled(d, Pow2(k)) / Pow2(1) == Scaled(d, Pow2(k - 1))
  {
    assert Pow2(1) == 2;
    ScaledSplit(d, Pow2(k - 1), Pow2(k - 1));
  }

  lemma {:induction false} DivEnd(n: nat, d: nat, q: nat, r: nat)
    requires Dividing(n, d, q, r, 0) && d > 0
    ensures n / d == q && n % d == r
  {
    ScaledIs(q, d);
    ScaledIs(d, 1);
    Quotient(n, d, q, r);
  }

  /** Aligning the highest bits makes the divisor large enough, and no larger than the modulus. */
  lemma {:induction false} DivStart(n: nat, d: nat, nb: nat, db: nat, w: nat)
    requires 0 < db <= nb <= 32 * w && n < Pow2(nb) && Pow2(db - 1) <= d < Pow2(db)
    ensures Dividing(n, d, 0, n, nb - db + 1) && Scaled(d, Pow2(nb - db)) < Wt(w)
  {
    var k := nb - db;
    Pow2Add(db - 1, k + 1);
    ScaledMono(Pow2(db - 1), d, Pow2(k + 1));
    ScaledIs(Pow2(db - 1), Pow2(k + 1));
    WtPow(w);
    Pow2Mono(nb, 32 * w);
    Pow2Add(db, k);
    ScaledIs(d, Pow2(k));
    MulMono(d + 1, Pow2(db), Pow2(k));
    Distribute(d, 1, Pow2(k));
  }

  lemma {:induction false} DivSmall(n: nat, d: nat, nb: nat, db: nat)
    requires nb < db && n < Pow2(nb) && Pow2(db - 1) <= d
    ensures n < d && n / d == 0
  {
    Pow2Mono(nb, db - 1);
    Quotient(n, d, 0, n);
  }

  lemma {:induction false} LowTwo(s: Limbs)
    requires |s| >= 2
    ensures V(s, 2) == s[0] + s[1] * B < B * B
  {
    assert V(s, 1) == Scaled(s[0], Wt(0));
    ScaledIs(s[0], Wt(0));
    ScaledIs(s[1], Wt(1));
  }

  lemma {:induction false} Low64(s: Limbs)
    requires |s| >= 2
    ensures Mod(Val(s), B * B) == V(s, 2)
  {
    var r := AboveWeight(s, 2, |s|);
    LowTwo(s);
    assert Wt(2) == B * B;
    ModOf(V(s, 2), r, B * B);
  }

  // ---------------------------------------------------------------- the class

  class BaseUint {
    const pn: array<Limb>

    ghost function Value(): (v: nat)
      reads pn
    {
      Val(pn[..])
    }

    /** 2^BITS. */
    ghost function Modulus(): (m: nat)
      ensures m >= 1
    {
      Wt(pn.Length)
    }

    constructor (width: nat)
      ensures fresh(pn) && pn.Length == width && Value() == 0
    {
      pn := new Limb[width](_ => 0);
      new;
      VConst(pn[..], 0, width);
    }

    constructor From(b: Limbs)
      ensures fresh(pn) && pn[..] == b
    {
      pn := new Limb[|b|](i requires 0 <= i < |b| => b[i]);
    }

    /** operator=(uint64_t). */
    method Assign64(b: nat)
      requires pn.Length >= 2 && b < B * B
      modifies pn
      ensures Value() == b
    {
      Clear();
      pn[0], pn[1] := b % B, b / B;
      ZeroAbove(pn[..], 2, pn.Length);
      LowTwo(pn[..]);
    }

    method GetLow64() returns (r: nat)
      requires pn.Length >= 2
      ensures r == Value() % (B * B)
    {
      r := pn[0] + pn[1] * B;
      LowTwo(pn[..]);
      Low64(pn[..]);
      ModIs(Value(), B * B);
    }

    /** operator+=. */
    method Add(b: Limbs)
      requires |b| == pn.Length
      modifies pn
      ensures Value() == (old(Value()) + Val(b)) % Modulus()
    {
      ghost var a := pn[..];
      var carry: nat := 0;
      for i := 0 to pn.Length
        invariant carry <= 1 && forall j :: i <= j < pn.Length ==> pn[j] == a[j]
        invariant V(pn[..], i) + Scaled(carry, Wt(i)) == V(a, i) + V(b, i)
      {
        AddStep(a, pn[..], b, i, carry);
        carry := PutCarry(i, carry + pn[i] + b[i]);
      }
      CarryOut(pn[..], carry, Val(a) + Val(b));
      ModIs(Val(a) + Val(b), Modulus());
    }

    /** operator++: carries as long as limbs wrap to 0. */
    method Increment()
      modifies pn
      ensures Value() == (old(Value()) + 1) % Modulus()
    {
      ghost var a := pn[..];
      var i, done := 0, false;
      while i < pn.Length && !done
        invariant 0 <= i <= pn.Length
        invariant !done ==> forall j :: 0 <= j < i ==> a[j] == B - 1 && pn[j] == 0
        invariant !done ==> forall j :: i <= j < pn.Length ==> pn[j] == a[j]
        invariant done ==> Value() == Val(a) + 1
        decreases pn.Length - i, !done
      {
        pn[i] := (pn[i] + 1) % B;
        if pn[i] == 0 {
          i := i + 1;
        } else {
          IncrementDone(a, pn[..], i);
          done := true;
        }
      }
      VBound(pn[..], pn.Length);
      ModIs(Val(a) + 1, Modulus());
      if !done {
        VConst(a, B - 1, |a|);
        VConst(pn[..], 0, |a|);
      }
    }

    /** operator--. */
    method Decrement()
      modifies pn
      ensures Value() == if old(Value()) > 0 then old(Value()) - 1 else Modulus() - 1
    {
      ghost var a := pn[..];
      var i, done := 0, false;
      while i < pn.Length && !done
        invariant 0 <= i <= pn.Length
        invariant !done ==> forall j :: 0 <= j < i ==> a[j] == 0 && pn[j] == B - 1
        invariant !done ==> forall j :: i <= j < pn.Length ==> pn[j] == a[j]
        invariant done ==> Value() + 1 == Val(a)
        decreases pn.Length - i, !done
      {
        pn[i] := (pn[i] - 1) % B;
        if pn[i] == B - 1 {
          i := i + 1;
        } else {
          IncrementDone(pn[..], a, i);
          done := true;
        }
      }
      if !done {
        VConst(a, 0, |a|);
        VConst(pn[..], B - 1, |a|);
      }
    }

    /** operator~. */
    method Complement() returns (r: BaseUint)
      ensures fresh(r) && fresh(r.pn) && r.pn.Length == pn.Length
      ensures r.Value() == Modulus() - 1 - Value()
    {
      r := new BaseUint(pn.Length);
      for i := 0 to pn.Length
        invariant forall j :: 0 <= j < i ==> r.pn[j] == B - 1 - pn[j]
        modifies r.pn
      {
        r.pn[i] := B - 1 - pn[i];
      }
      VNot(pn[..], r.pn[..], pn.Length);
    }

    /** operator-: two's complement. */
    method Negate() returns (r: BaseUint)
      ensures fresh(r) && fresh(r.pn) && r.pn.Length == pn.Length
      ensures r.Value() == if Value() == 0 then 0 else Modulus() - Value()
    {
      r := Complement();
      ModIs(r.Value() + 1, Modulus());
      r.Increment();
      VBound(pn[..], pn.Length);
    }

    /** operator-=, by adding the negated operand. */
    method Sub(b: Limbs)
      requires |b| == pn.Length
      modifies pn
      ensures Value() == if old(Value()) >= Val(b) then old(Value()) - Val(b) else old(Value()) - Val(b) + Modulus()
    {
      var t := new BaseUint.From(b);
      var n := t.Negate();
      VBound(pn[..], pn.Length);
      VBound(b, |b|);
      ModIs(Value() + n.Value(), Modulus());
      Add(n.pn[..]);
    }

    method CompareTo(b: Limbs) returns (r: int)
      requires |b| == pn.Length
      ensures r == if Value() < Val(b) then -1 else if Value() > Val(b) then 1 else 0
    {
      var i := pn.Length - 1;
      while i >= 0
        invariant -1 <= i < pn.Length && forall j :: i < j < pn.Length ==> pn[j] == b[j]
      {
        if pn[i] < b[i] {
          VOrder(pn[..], b, i, |b|);
          return -1;
        }
        if pn[i] > b[i] {
          VOrder(b, pn[..], i, |b|);
          return 1;
        }
        i := i - 1;
      }
      VSame(pn[..], b, |b|);
      return 0;
    }

    /** operator*=(uint32_t). */
    method MulSmall(b32: Limb)
      modifies pn
      ensures Value() == old(Value()) * b32 % Modulus()
    {
      ghost var a := pn[..];
      var carry: nat := 0;
      for i := 0 to pn.Length
        invariant carry < B && forall j :: i <= j < pn.Length ==> pn[j] == a[j]
        invariant V(pn[..], i) + Scaled(carry, Wt(i)) == Scaled(V(a, i), b32)
      {
        MulStep(a, pn[..], b32, i, carry);
        carry := PutCarry(i, carry + b32 * pn[i]);
      }
      CarryOut(pn[..], carry, Scaled(Val(a), b32));
      ScaledIs(Val(a), b32);
      ModIs(Scaled(Val(a), b32), Modulus());
    }

    /** carry + a + x * y, which fits in 64 bits. */
    static method Accumulate(carry: nat, a: nat, x: nat, y: nat) returns (n: nat)
      requires carry < B && a < B && x < B && y < B
      ensures n == carry + a + Scaled(y, x) && n < B * B && n / B < B
    {
      Accumulates(carry, a, x, y);
      ScaledIs(y, x);
      n := carry + a + x * y;
    }

    /** Store the low half of a sum, and pass on the high half. */
    method PutCarry(i: nat, n: nat) returns (carry: nat)
      requires i < pn.Length
      modifies pn
      ensures pn[..] == old(pn[..])[i := n % B] && carry == n / B
    {
      pn[i] := n % B;
      carry := n / B;
    }

    /** One round of the schoolbook multiplication: add `x` times the limbs of `b`, moved up by `j` limbs. */
    method AddRow(x: Limb, b: Limbs, j: nat, ghost c: nat)
      requires j <= pn.Length == |b| && c == Scaled(x, Wt(j))
      modifies pn
      ensures Value() == Mod(old(Value()) + Scaled(Val(b), c), Modulus())
    {
      ghost var a := pn[..];
      var carry: nat, i: nat := 0, 0;
      while i + j < pn.Length
        invariant i + j <= pn.Length && carry < B && forall k :: i + j <= k < pn.Length ==> pn[k] == a[k]
        invariant V(pn[..], i + j) + Scaled(carry, Wt(i + j)) == V(a, i + j) + Scaled(V(b, i), c)
      {
        var n := Accumulate(carry, pn[i + j], x, b[i]);
        RowStep(a, pn[..], x, b, j, i, carry, c, n);
        carry := PutCarry(i + j, n);
        i := i + 1;
      }
      RowEnd(a, pn[..], x, b, i, j, carry, c);
    }

    /** The rounds of the multiplication, in a number of their own. */
    method Product(b: Limbs) returns (a: BaseUint)
      requires |b| == pn.Length
      ensures fresh(a) && fresh(a.pn) && a.pn.Length == pn.Length
      ensures a.Value() == Mod(Scaled(Val(b), Value()), Modulus())
    {
      a := new BaseUint(pn.Length);
      ScaledIs(Val(b), 0);
      for j := 0 to pn.Length
        invariant a.Value() == Mod(Scaled(Val(b), V(pn[..], j)), Modulus())
        modifies a.pn
      {
        ghost var r, c := a.Value(), Scaled(pn[j], Wt(j));
        a.AddRow(pn[j], b, j, c);
        RowAdds(Val(b), V(pn[..], j), c, Modulus(), r, a.Value());
      }
    }

    /** operator*=. */
    method Mul(b: Limbs)
      requires |b| == pn.Length
      modifies pn
      ensures Value() == old(Value()) * Val(b) % Modulus()
    {
      ScaledIs(Val(b), Value());
      ModIs(Scaled(Val(b), Value()), Modulus());
      var a := Product(b);
      CopyFrom(a.pn[..]);
    }

    method Clear()
      modifies pn
      ensures forall j :: 0 <= j < pn.Length ==> pn[j] == 0
      ensures Value() == 0
    {
      for i := 0 to pn.Length
        invariant forall j :: 0 <= j < i ==> pn[j] == 0
      {
        pn[i] := 0;
      }
      VConst(pn[..], 0, pn.Length);
    }

    /** operator<<=. */
    method Shl(shift: nat)
      modifies pn
      ensures Value() == old(Value()) * Pow2(shift) % Modulus()
    {
      var a: Limbs := pn[..];
      Clear();
      var k, t := shift / 32, shift % 32;
      ghost var lost: nat := 0;
      for i := 0 to pn.Length
        invariant ShlReady(pn[..], i, k, t)
        invariant Value() + Scaled(lost, Wt(|a|)) == Scaled(V(a, i), Pow2(shift))
      {
        ghost var s: Limbs := pn[..];
        ShlPutIs(s, a[i], i, k, t);
        ShlRound(a[i], i, k, t);
        lost := ShlStep(a, i, k, t, Pow2(shift), |a|, Val(s), Value(), lost);
      }
      CarryOut(pn[..], lost, Scaled(Val(a), Pow2(shift)));
      ScaledIs(Val(a), Pow2(shift));
      ModIs(Scaled(Val(a), Pow2(shift)), Modulus());
    }

    /** One round of the left shift. */
    method ShlRound(x: Limb, i: nat, k: nat, t: nat)
      requires i < pn.Length && t < 32 && ShlReady(pn[..], i, k, t)
      modifies pn
      ensures pn[..] == ShlPut(old(pn[..]), x, i, k, t)
    {
      ShiftLimb(x, t);
      if i + k + 1 < pn.Length && t != 0 {
        pn[i + k + 1] := Or(pn[i + k + 1], x / Pow2(32 - t));
      }
      if i + k < pn.Length {
        OrDisjoint(pn[i + k], x * Pow2(t) % B, t);
        pn[i + k] := Or(pn[i + k], x * Pow2(t) % B);
      }
    }

    /** operator>>=. */
    method Shr(shift: nat)
      modifies pn
      ensures Value() == old(Value()) / Pow2(shift)
    {
      var a: Limbs := pn[..];
      Clear();
      var k, t := shift / 32, shift % 32;
      for i := 0 to pn.Length
        invariant ShrReady(pn[..], i, k, t)
        invariant Scaled(Value(), Pow2(shift)) + ShrLost(a, i, k, t) == V(a, i)
      {
        ghost var s: Limbs := pn[..];
        ShrPutIs(s, a[i], i, k, t);
        ShrRound(a[i], i, k, t);
        ShrStep(a, i, k, t, Pow2(shift), Val(s));
      }
      ShrLostBound(a, k, t);
      ScaledIs(Value(), Pow2(shift));
      Quotient(Val(a), Pow2(shift), Value(), ShrLost(a, |a|, k, t));
    }

    /** One round of the right shift. */
    method ShrRound(x: Limb, i: nat, k: nat, t: nat)
      requires i < pn.Length && t < 32 && ShrReady(pn[..], i, k, t)
      modifies pn
      ensures pn[..] == ShrPut(old(pn[..]), x, i, k, t)
    {
      ShiftDown(x, t);
      if i > k && t != 0 {
        OrDisjoint(pn[i - k - 1], x * Pow2(32 - t) % B, 32 - t);
        pn[i - k - 1] := Or(pn[i - k - 1], x * Pow2(32 - t) % B);
      }
      if i >= k {
        pn[i - k] := Or(pn[i - k], x / Pow2(t));
      }
    }

    /** The position of the highest one bit, plus 1; 0 for the number 0. */
    method Bits() returns (r: nat)
      ensures r <= 32 * pn.Length
      ensures if r == 0 then Value() == 0 else Pow2(r - 1) <= Value() < Pow2(r)
    {
      var pos := pn.Length - 1;
      while pos >= 0
        invariant -1 <= pos < pn.Length && forall j :: pos < j < pn.Length ==> pn[j] == 0
      {
        if pn[pos] != 0 {
          var c := TopBit(pn[pos]);
          TopLimb(pn[..], pos, c);
          return 32 * pos + c + 1;
        }
        pos := pos - 1;
      }
      VConst(pn[..], 0, pn.Length);
      return 0;
    }

    static method TopBit(x: Limb) returns (c: nat)
      requires x != 0
      ensures c < 32 && Pow2(c) <= x < Pow2(c + 1)
    {
      Pow2Values();
      c := 31;
      while c > 0
        invariant c < 32 && x < Pow2(c + 1)
      {
        BitTest(x, c);
        if x / Pow2(c) % 2 == 1 {
          return;
        }
        c := c - 1;
      }
    }

    /** operator/=: shift and subtract. The number is cleared before a zero divisor is reported. */
    method Div(b: Limbs) returns (ok: bool)
      requires |b| == pn.Length
      modifies pn
      ensures ok <==> Val(b) != 0
      ensures Value() == if Val(b) == 0 then 0 else old(Value()) / Val(b)
    {
      var div := new BaseUint.From(b);
      var num := new BaseUint.From(pn[..]);
      ghost var n, d := Value(), Val(b);
      Clear();
      var numBits := num.Bits();
      var divBits := div.Bits();
      if divBits == 0 {
        return false;
      }
      if numBits < divBits {
        if numBits == 0 {
          Quotient(0, d, 0, 0);
        } else {
          DivSmall(n, d, numBits, divBits);
        }
        return true;
      }
      DivStart(n, d, numBits, divBits, pn.Length);
      ScaledIs(d, Pow2(numBits - divBits));
      ModIs(Scaled(d, Pow2(numBits - divBits)), Modulus());
      div.Shl(numBits - divBits);
      AllClear(pn[..], numBits - divBits);
      DivLoop(div, num, numBits - divBits, n, d);
      return true;
    }

    method SetBitAt(shift: nat)
      requires shift < 32 * pn.Length && BitsClear(pn[..], shift)
      modifies pn
      ensures BitsClear(pn[..], shift - 1) && Value() == old(Value()) + Pow2(shift)
    {
      ghost var s: Limbs := pn[..];
      SetBit(s, shift);
      pn[shift / 32] := Or(pn[shift / 32], Pow2(shift % 32));
      assert pn[..] == s[shift / 32 := Or(s[shift / 32], Pow2(shift % 32))];
    }

    /** Decide one bit of the quotient. */
    method DivRound(div: BaseUint, num: BaseUint, shift: nat, ghost n: nat, ghost d: nat)
      requires div.pn.Length == num.pn.Length == pn.Length && shift < 32 * pn.Length
      requires pn != div.pn && pn != num.pn && div.pn != num.pn && BitsClear(pn[..], shift)
      requires Dividing(n, d, Value(), num.Value(), shift + 1) && div.Value() == Scaled(d, Pow2(shift))
      modifies pn, num.pn
      ensures BitsClear(pn[..], shift - 1) && Dividing(n, d, Value(), num.Value(), shift)
    {
      var c := num.CompareTo(div.pn[..]);
      if c >= 0 {
        DivTake(n, d, Value(), num.Value(), shift);
        num.Sub(div.pn[..]);
        SetBitAt(shift);
      } else {
        StaysClear(pn[..], shift);
      }
    }

    /** Set the bits of the quotient from bit `top` down. */
    method DivLoop(div: BaseUint, num: BaseUint, top: nat, ghost n: nat, ghost d: nat)
      requires div.pn.Length == num.pn.Length == pn.Length && top < 32 * pn.Length
      requires pn != div.pn && pn != num.pn && div.pn != num.pn
      requires Value() == 0 && BitsClear(pn[..], top) && d > 0
      requires Dividing(n, d, 0, num.Value(), top + 1) && div.Value() == Scaled(d, Pow2(top))
      modifies pn, div.pn, num.pn
      ensures Value() == n / d && num.Value() == n % d
    {
      var shift := top;
      while shift >= 0
        invariant -1 <= shift <= top && BitsClear(pn[..], shift)
        invariant Dividing(n, d, Value(), num.Value(), shift + 1)
        invariant shift >= 0 ==> div.Value() == Scaled(d, Pow2(shift))
      {
        DivRound(div, num, shift, n, d);
        div.Shr(1);
        if shift > 0 {
          DivHalf(d, shift);
        }
        shift := shift - 1;
      }
      DivEnd(n, d, Value(), num.Value());
    }

    /** operator=. */
    method CopyFrom(b: Limbs)
      requires |b| == pn.Length
      modifies pn
      ensures pn[..] == b
    {
      for i := 0 to pn.Length
        invariant forall j :: 0 <= j < i ==> pn[j] == b[j]
      {
        pn[i] := b[i];
      }
    }
  }
}
