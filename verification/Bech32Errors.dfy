/**
 What the Bech32 checksum (src/bech32.cpp) detects: any change of at most three symbols within 1023.
 The generator has the zeros y^24, y^25 and y^26 in GF(1024), so a change that goes unnoticed
 satisfies three equations, and those have no solution but zero.
 */
module Bech32Errors {
  import opened Bech32
  import opened Bech32Bits
  import opened Bech32Field
  import opened Bech32Order
  import opened Bech32Poly
  import opened Bech32Symbols
  import opened Bech32Zeros
  import opened Numbers

  // ---------------------------------------------------------------- three equations

  lemma {:induction false} SumZero(a: Elem, b: Elem)
    requires Sum(a, b) == 0
    ensures a == b
  {
    SumAssoc(a, b, b);
    SumSelf(b);
    SumSelf(a);
  }

  /** Two elements whose multiples by u and by one add up to zero. */
  lemma {:induction false} FactorOut(u: Elem, x: Elem)
    requires u != 1 && Sum(x, Mul(u, x)) == 0
    ensures x == 0
  {
    MulSumLeft(1, u, x);
    MulBit(1, x);
    NoZeroDivisor(Sum(1, u), x);
    if Sum(1, u) == 0 {
      SumZero(1, u);
    }
  }

  lemma {:induction false} Eliminate(x: Elem, y: Elem, c: Elem, u: Elem, w: Elem)
    requires u != w && u != 1 && w != 1 && Sum(Sum(x, y), c) == 0 && Sum(Sum(Mul(u, x), Mul(w, y)), c) == 0
    requires Sum(Sum(Mul(u, Mul(u, x)), Mul(w, Mul(w, y))), c) == 0
    ensures x == 0 && y == 0 && c == 0
  {
    var ux, wy := Mul(u, x), Mul(w, y);
    var p, q := Sum(x, ux), Sum(y, wy);
    SumZero(Sum(x, y), c);
    SumZero(Sum(ux, wy), c);
    SumZero(Sum(Mul(u, ux), Mul(w, wy)), c);
    SumSelf(c);
    SumFour(x, y, ux, wy);
    SumZero(p, q);
    SumFour(ux, wy, Mul(u, ux), Mul(w, wy));
    MulSum(u, x, ux);
    MulSum(w, y, wy);
    SameFactor(u, w, p);
    FactorOut(u, x);
    FactorOut(w, y);
    SumSelf(0);
  }

  lemma {:induction false} SameFactor(u: Elem, w: Elem, p: Elem)
    requires u != w && Sum(Mul(u, p), Mul(w, p)) == 0
    ensures p == 0
  {
    MulSumLeft(u, w, p);
    NoZeroDivisor(Sum(u, w), p);
    if Sum(u, w) == 0 {
      SumZero(u, w);
    }
  }

  lemma {:induction false} PowerAdd(x: Elem, e: nat, f: nat)
    ensures Mul(Power(x, e), Power(x, f)) == Power(x, e + f)
    decreases e
  {
    if e == 0 {
      MulBit(1, Power(x, f));
    } else {
      PowerAdd(x, e - 1, f);
      MulAssoc(x, Power(x, e - 1), Power(x, f));
    }
  }

  lemma {:induction false} PowerNonzero(x: Elem, e: nat)
    requires x != 0
    ensures Power(x, e) != 0
    decreases e
  {
    if e > 0 {
      PowerNonzero(x, e - 1);
      if Power(x, e) == 0 {
        NoZeroDivisor(x, Power(x, e - 1));
      }
    }
  }

  /** The term of an error moved on by f places. */
  lemma {:induction false} MoveOn(x: Elem, e: nat, f: nat, a: Elem)
    ensures Mul(Power(x, f), Mul(Power(x, e), a)) == Mul(Power(x, f + e), a)
  {
    PowerAdd(x, f, e);
    MulAssoc(Power(x, f), Power(x, e), a);
  }

  lemma {:induction false} MulFour(a: Elem, b: Elem, c: Elem, d: Elem)
    ensures Mul(Mul(a, b), Mul(c, d)) == Mul(Mul(a, c), Mul(b, d))
  {
    MulAssoc(a, b, Mul(c, d));
    MulSwap(b, c, d);
    MulAssoc(a, c, Mul(b, d));
  }

  lemma {:induction false} PowerMul(g: Elem, x: Elem, e: nat)
    ensures Power(Mul(g, x), e) == Mul(Power(g, e), Power(x, e))
    decreases e
  {
    if e == 0 {
      MulBit(1, 1);
    } else {
      PowerMul(g, x, e - 1);
      MulFour(g, x, Power(g, e - 1), Power(x, e - 1));
    }
  }

  /** The term of an error at distance e, at a multiple of x. */
  lemma {:induction false} NextTerm(g: Elem, x: Elem, e: nat, a: Elem)
    ensures Mul(Power(Mul(g, x), e), a) == Mul(Power(g, e), Mul(Power(x, e), a))
  {
    PowerMul(g, x, e);
    MulAssoc(Power(g, e), Power(x, e), a);
  }

  lemma {:induction false} TermZero(x: Elem, e: nat, a: Elem)
    requires x != 0 && Mul(Power(x, e), a) == 0
    ensures a == 0
  {
    PowerNonzero(x, e);
    NoZeroDivisor(Power(x, e), a);
  }

  /** The value at x after errors a, b and c, the last e and f places after the others. */
  ghost predicate Cancels(x: Elem, e: nat, f: nat, a: Elem, b: Elem, c: Elem) {
    Sum(Sum(Mul(Power(x, e), a), Mul(Power(x, f), b)), c) == 0
  }

  lemma {:induction false} ThreeTerms(x: Elem, g: Elem, e: nat, f: nat, a: Elem, b: Elem, c: Elem)
    requires x != 0 && Power(g, e) != 1 && Power(g, f) != 1 && Power(g, e) != Power(g, f)
    requires Cancels(x, e, f, a, b, c) && Cancels(Mul(g, x), e, f, a, b, c)
    requires Cancels(Mul(g, Mul(g, x)), e, f, a, b, c)
    ensures a == 0 && b == 0 && c == 0
  {
    NextTerm(g, x, e, a);
    NextTerm(g, x, f, b);
    NextTerm(g, Mul(g, x), e, a);
    NextTerm(g, Mul(g, x), f, b);
    Eliminate(Mul(Power(x, e), a), Mul(Power(x, f), b), c, Power(g, e), Power(g, f));
    TermZero(x, e, a);
    TermZero(x, f, b);
  }

  lemma {:induction false} TwoTerms(x: Elem, g: Elem, e: nat, a: Elem, c: Elem)
    requires x != 0 && Power(g, e) != 1
    requires Sum(Mul(Power(x, e), a), c) == 0 && Sum(Mul(Power(Mul(g, x), e), a), c) == 0
    ensures a == 0 && c == 0
  {
    var t := Mul(Power(x, e), a);
    NextTerm(g, x, e, a);
    SumZero(t, c);
    SumZero(Mul(Power(g, e), t), c);
    SumSelf(c);
    FactorOut(Power(g, e), t);
    TermZero(x, e, a);
  }

  // ---------------------------------------------------------------- what an error adds

  /** The value at x of the first p symbols. */
  function Upto(d: seq<Sym>, p: nat, x: Elem): (r: Elem)
    requires p <= |d|
  {
    Eval(d[..p], x, 0)
  }

  ghost predicate ZeroFrom(d: seq<Sym>, a: nat, b: nat) {
    forall t :: a <= t < b <= |d| ==> d[t] == 0
  }

  lemma {:induction false} UptoNext(d: seq<Sym>, p: nat, x: Elem)
    requires p < |d|
    ensures Upto(d, p + 1, x) == Sum(Mul(x, Upto(d, p, x)), Emb(d[p]))
  {
    assert d[..p + 1] == d[..p] + [d[p]];
    EvalAppend(d[..p], d[p], x, 0);
  }

  lemma {:induction false} SkipZeros(d: seq<Sym>, a: nat, b: nat, x: Elem)
    requires a <= b <= |d| && ZeroFrom(d, a, b)
    ensures Upto(d, b, x) == Mul(Power(x, b - a), Upto(d, a, x))
    decreases b
  {
    var v := Upto(d, a, x);
    if a == b {
      MulBit(1, v);
    } else {
      SkipZeros(d, a, b - 1, x);
      UptoNext(d, b - 1, x);
      MulAssoc(x, Power(x, b - 1 - a), v);
      EmbOfZero(d[b - 1], Mul(x, Upto(d, b - 1, x)));
    }
  }

  lemma {:induction false} EmbOfZero(s: Sym, v: Elem)
    requires s == 0
    ensures Sum(v, Emb(s)) == v
  {
    SumSelf(v);
  }

  /** The next error after zeros. */
  lemma {:induction false} NextError(d: seq<Sym>, a: nat, j: nat, x: Elem)
    requires a <= j < |d| && ZeroFrom(d, a, j)
    ensures Upto(d, j + 1, x) == Sum(Mul(Power(x, j + 1 - a), Upto(d, a, x)), Emb(d[j]))
  {
    SkipZeros(d, a, j, x);
    UptoNext(d, j, x);
    MulAssoc(x, Power(x, j - a), Upto(d, a, x));
  }

  lemma {:induction false} FirstError(d: seq<Sym>, i: nat, x: Elem)
    requires i < |d| && ZeroFrom(d, 0, i)
    ensures Upto(d, i + 1, x) == Emb(d[i])
  {
    NextError(d, 0, i, x);
    assert d[..0] == [];
    MulZero(Power(x, i + 1));
    SumSelf(Emb(d[i]));
  }

  lemma {:induction false} AfterLast(d: seq<Sym>, k: nat, x: Elem)
    requires k < |d| && ZeroFrom(d, k + 1, |d|) && x != 0 && Eval(d, x, 0) == 0
    ensures Upto(d, k + 1, x) == 0
  {
    SkipZeros(d, k + 1, |d|, x);
    assert d[..|d|] == d;
    TermZero(x, |d| - (k + 1), Upto(d, k + 1, x));
  }

  lemma {:induction false} Combine(x: Elem, e: nat, f: nat, a: Elem, b: Elem, c: Elem, s: Elem)
    requires s == Sum(Mul(Power(x, e), a), b) && Sum(Mul(Power(x, f), s), c) == 0
    ensures Cancels(x, f + e, f, a, b, c)
  {
    MulSum(Power(x, f), Mul(Power(x, e), a), b);
    MoveOn(x, e, f, a);
  }

  /** Nothing but zero symbols outside i, j and k. */
  ghost predicate OnlyAt(d: seq<Sym>, i: nat, j: nat, k: nat) {
    forall t :: 0 <= t < |d| && d[t] != 0 ==> t == i || t == j || t == k
  }

  /** What three errors leave at x. */
  lemma {:induction false} ThreeErrors(d: seq<Sym>, i: nat, j: nat, k: nat, x: Elem)
    requires i < j < k < |d| && OnlyAt(d, i, j, k) && x != 0 && Eval(d, x, 0) == 0
    ensures Cancels(x, k - i, k - j, Emb(d[i]), Emb(d[j]), Emb(d[k]))
  {
    FirstError(d, i, x);
    NextError(d, i + 1, j, x);
    NextError(d, j + 1, k, x);
    AfterLast(d, k, x);
    Combine(x, j - i, k - j, Emb(d[i]), Emb(d[j]), Emb(d[k]), Upto(d, j + 1, x));
  }

  lemma {:induction false} TwoErrors(d: seq<Sym>, i: nat, k: nat, x: Elem)
    requires i < k < |d| && OnlyAt(d, i, i, k) && x != 0 && Eval(d, x, 0) == 0
    ensures Sum(Mul(Power(x, k - i), Emb(d[i])), Emb(d[k])) == 0
  {
    FirstError(d, i, x);
    NextError(d, i + 1, k, x);
    AfterLast(d, k, x);
  }

  // ---------------------------------------------------------------- no error is the zero symbol

  lemma {:induction false} OfZero(e: Bits)
    requires Of(e) == 0
    ensures e == Bit(false)
  {
  }

  /** The bits of a symbol. */
  lemma {:induction false} FiveBits(s: Sym) returns (x0: bool, x1: bool, x2: bool, x3: bool, x4: bool)
    ensures s == One(x0) + 2 * (One(x1) + 2 * (One(x2) + 2 * (One(x3) + 2 * One(x4))))
  {
    var s1, s2 := s / 2, s / 2 / 2;
    var s3 := s2 / 2;
    x0, x1, x2, x3, x4 := s % 2 == 1, s1 % 2 == 1, s2 % 2 == 1, s3 % 2 == 1, s3 / 2 == 1;
    assert s == One(x0) + 2 * s1 && s1 == One(x1) + 2 * s2;
    assert s2 == One(x2) + 2 * s3 && s3 == One(x3) + 2 * One(x4);
  }

  lemma {:induction false} EmbZero(s: Sym)
    requires Emb(s) == 0
    ensures s == 0
  {
    var x0, x1, x2, x3, x4 := FiveBits(s);
    BitsZero(x0, x1, x2, x3, x4, s, SymBits(x0, x1, x2, x3, x4));
  }

  lemma {:induction false} BitsZero(x0: bool, x1: bool, x2: bool, x3: bool, x4: bool, s: Sym, e: Bits)
    requires s == One(x0) + 2 * (One(x1) + 2 * (One(x2) + 2 * (One(x3) + 2 * One(x4))))
    requires e == SymBits(x0, x1, x2, x3, x4) && Emb(s) == 0
    ensures s == 0
  {
    EmbBits(x0, x1, x2, x3, x4, s);
    OfZero(e);
    SymBitsZero(x0, x1, x2, x3, x4);
  }

  // ---------------------------------------------------------------- what the checksum detects

  lemma {:induction false} EvalZeros(z: seq<Sym>, x: Elem)
    requires ZeroFrom(z, 0, |z|)
    ensures Eval(z, x, 0) == 0
  {
    assert z[..|z|] == z && z[..0] == [];
    SkipZeros(z, 0, |z|, x);
    MulZero(Power(x, |z|));
  }

  /** A run from zero that ends at zero has the value zero at the zeros of the generator. */
  lemma {:induction false} Unnoticed(d: seq<Sym>, n: nat)
    requires 24 <= n <= 26 && Run(0, d) == 0
    ensures Pow(n) != 0 && Eval(d, Pow(n), 0) == 0
  {
    var z := Digits(0, 6);
    forall i | 0 <= i < 6
      ensures z[i] == 0
    {
      DigitsZero(6, i);
    }
    if n == 24 {
      ZeroAt24(n);
    } else if n == 25 {
      ZeroAt25(n);
    } else {
      ZeroAt26(n);
    }
    EvalZeros(z, Pow(n));
    RunEval(0, d, Pow(n));
    PowNonzero(n);
  }

  /** Three zeros of the generator, each g times the one before. */
  lemma {:induction false} ThreeZeros(d: seq<Sym>, n: nat, one: nat) returns (x: Elem, g: Elem)
    requires Run(0, d) == 0 && n == 24 && one == 1
    ensures g == Pow(one) && x != 0 && Mul(g, x) != 0 && Mul(g, Mul(g, x)) != 0
    ensures Eval(d, x, 0) == 0 && Eval(d, Mul(g, x), 0) == 0 && Eval(d, Mul(g, Mul(g, x)), 0) == 0
  {
    x, g := Pow(n), Pow(one);
    PowAdd(one, n);
    PowAdd(one, n + 1);
    Unnoticed(d, n);
    Unnoticed(d, n + 1);
    Unnoticed(d, n + 2);
  }

  lemma {:induction false} PowerOfY(e: nat, one: nat)
    requires one == 1
    ensures Power(Pow(one), e) == Pow(e)
    decreases e
  {
    if e > 0 {
      PowerOfY(e - 1, one);
      PowAdd(one, e - 1);
    }
  }

  /** The powers of y below 1023 are different and not one. */
  lemma {:induction false} Apart(f: nat, e: nat, one: nat, m: nat)
    requires 0 < f < e < m == 1023 && one == 1
    ensures Power(Pow(one), e) != Power(Pow(one), f)
  {
    PowerOfY(e, one);
    PowerOfY(f, one);
    PowInjective(f, e, m);
  }

  lemma {:induction false} NotOne(e: nat, one: nat, m: nat)
    requires 0 < e < m == 1023 && one == 1
    ensures Power(Pow(one), e) != 1
  {
    PowerOfY(e, one);
    OrderIs(e, m);
  }

  lemma {:induction false} ThreeZero(d: seq<Sym>, i: nat, j: nat, k: nat, x: Elem, g: Elem, one: nat)
    requires i < j < k < |d| && k - i < 1023 && OnlyAt(d, i, j, k) && g == Pow(one) && one == 1
    requires x != 0 && Mul(g, x) != 0 && Mul(g, Mul(g, x)) != 0
    requires Eval(d, x, 0) == 0 && Eval(d, Mul(g, x), 0) == 0 && Eval(d, Mul(g, Mul(g, x)), 0) == 0
    ensures Emb(d[i]) == 0 && Emb(d[j]) == 0 && Emb(d[k]) == 0
  {
    ThreeErrors(d, i, j, k, x);
    ThreeErrors(d, i, j, k, Mul(g, x));
    ThreeErrors(d, i, j, k, Mul(g, Mul(g, x)));
    NotOne(k - i, one, 1023);
    NotOne(k - j, one, 1023);
    Apart(k - j, k - i, one, 1023);
    ThreeTerms(x, g, k - i, k - j, Emb(d[i]), Emb(d[j]), Emb(d[k]));
  }

  lemma {:induction false} TwoZero(d: seq<Sym>, i: nat, k: nat, x: Elem, g: Elem, one: nat)
    requires i < k < |d| && k - i < 1023 && OnlyAt(d, i, i, k) && g == Pow(one) && one == 1
    requires x != 0 && Mul(g, x) != 0 && Eval(d, x, 0) == 0 && Eval(d, Mul(g, x), 0) == 0
    ensures Emb(d[i]) == 0 && Emb(d[k]) == 0
  {
    TwoErrors(d, i, k, x);
    TwoErrors(d, i, k, Mul(g, x));
    NotOne(k - i, one, 1023);
    TwoTerms(x, g, k - i, Emb(d[i]), Emb(d[k]));
  }

  /** Errors at i, j and k that leave the checksum as it was are none. */
  lemma {:induction false} AllZero(d: seq<Sym>, i: nat, j: nat, k: nat)
    requires i <= j <= k < |d| && k - i < 1023 && OnlyAt(d, i, j, k) && Run(0, d) == 0
    ensures d[i] == 0 && d[j] == 0 && d[k] == 0
  {
    var x, g := ThreeZeros(d, 24, 1);
    if i < j < k {
      ThreeZero(d, i, j, k, x, g, 1);
    } else if i < k {
      TwoZero(d, i, k, x, g, 1);
    } else {
      FirstError(d, i, x);
      AfterLast(d, i, x);
    }
    EmbZero(d[i]);
    EmbZero(d[j]);
    EmbZero(d[k]);
  }

  /** Equal lengths, and no difference outside i, j and k. */
  ghost predicate DifferAt(u: seq<Sym>, v: seq<Sym>, i: nat, j: nat, k: nat) {
    |u| == |v| && forall t :: 0 <= t < |u| && u[t] != v[t] ==> t == i || t == j || t == k
  }

  lemma {:induction false} DiffOnly(u: seq<Sym>, v: seq<Sym>, i: nat, j: nat, k: nat)
    requires DifferAt(u, v, i, j, k)
    ensures OnlyAt(Diff(u, v), i, j, k)
  {
    var d := Diff(u, v);
    forall t | 0 <= t < |d| && d[t] != 0
      ensures t == i || t == j || t == k
    {
      DiffAt(u, v, t);
      XorSelf(u[t]);
    }
  }

  /** The promise of src/bech32.cpp: up to three changed symbols within 1023 change the checksum. */
  lemma {:induction false} ErrorsDetected(c: nat, u: seq<Sym>, v: seq<Sym>, i: nat, j: nat, k: nat)
    requires DifferAt(u, v, i, j, k) && i <= j <= k < |u| && k - i < 1023 && u != v
    ensures Run(c, u) != Run(c, v)
  {
    var d := Diff(u, v);
    RunLinear(c, c, u, v);
    XorSelf(c);
    if Run(c, u) == Run(c, v) {
      XorSelf(Run(c, u));
      DiffOnly(u, v, i, j, k);
      AllZero(d, i, j, k);
      DiffNone(u, v);
    }
  }

  lemma {:induction false} DiffNone(u: seq<Sym>, v: seq<Sym>)
    requires |u| == |v| && forall t :: 0 <= t < |u| ==> Diff(u, v)[t] == 0
    ensures u == v
  {
    var z := Zeros(|u|);
    forall t | 0 <= t < |u|
      ensures Diff(u, v)[t] == z[t]
    {
      ZerosAt(|u|, t);
    }
    assert Diff(u, v) == z;
    DiffEqual(u, v);
  }

  /** So no string with up to three changed symbols has a valid checksum of the same kind. */
  lemma {:induction false} ErrorsBreakChecksum(hrp: seq<Byte>, u: seq<Sym>, v: seq<Sym>, i: nat, j: nat, k: nat)
    requires DifferAt(u, v, i, j, k) && i <= j <= k < |u| && k - i < 1023 && u != v && Verified(hrp, u) != INVALID
    ensures Verified(hrp, v) != Verified(hrp, u)
  {
    var x := Expanded(hrp);
    assert u == (x + u)[|x|..] && v == (x + v)[|x|..];
    forall t | 0 <= t < |x + u| && (x + u)[t] != (x + v)[t]
      ensures t == |x| + i || t == |x| + j || t == |x| + k
    {
      assert t >= |x| && u[t - |x|] != v[t - |x|];
    }
    ErrorsDetected(1, x + u, x + v, |x| + i, |x| + j, |x| + k);
  }
}
