/**
 What PolyMod (src/bech32.cpp) computes: a polynomial over GF(32), modulo the generator of
 the code.  A polynomial is the sequence of its coefficients, the highest first; the sum of two
 is their symbolwise exclusive or.
 */
module Bech32Poly {
  import opened Bech32
  import opened Numbers

  // ---------------------------------------------------------------- the field

  /** Multiplication by {2} in GF(32), the polynomials over GF(2) modulo a^5 + a^3 + 1. */
  function Double(b: Sym): (r: Sym) {
    if b < 16 then 2 * b else XorSym(2 * (b - 16), 9)
  }

  /** The product in GF(32): the multiples of `b` that the bits of `a` select. */
  function Times(a: nat, b: Sym): (r: Sym) {
    if a == 0 then 0 else XorSym(When(a % 2 == 1, b), Times(a / 2, Double(b)))
  }

  function DoubleBy(b: Sym, i: nat): (r: Sym)
    decreases i
  {
    if i == 0 then b else DoubleBy(Double(b), i - 1)
  }

  // ---------------------------------------------------------------- polynomials

  /** The generator x^6 + {29}x^5 + {22}x^4 + {20}x^3 + {21}x^2 + {29}x + {18}, without its leading term. */
  const G: seq<Sym> := [29, 22, 20, 21, 29, 18]

  function Scale(a: Sym, p: seq<Sym>): (r: seq<Sym>)
    ensures |r| == |p| && forall i :: 0 <= i < |p| ==> r[i] == Times(a, p[i])
  {
    if p == [] then [] else [Times(a, p[0])] + Scale(a, p[1..])
  }

  /** The product with the generator: the leading coefficient times the generator, and the rest times it. */
  function TimesG(q: seq<Sym>): (p: seq<Sym>)
    ensures |p| == |q| + 6
  {
    if q == [] then Zeros(6) else Diff([q[0]] + Scale(q[0], G) + Zeros(|q| - 1), [0] + TimesG(q[1..]))
  }

  lemma {:induction false} DiffAt(u: seq<Sym>, v: seq<Sym>, i: nat)
    requires i < |u| == |v|
    ensures Diff(u, v)[i] == Xor(u[i], v[i])
  {
    if i > 0 {
      DiffAt(u[1..], v[1..], i - 1);
    }
  }

  lemma {:induction false} ZerosAt(n: nat, i: nat)
    requires i < n
    ensures Zeros(n)[i] == 0
  {
    if i > 0 {
      ZerosAt(n - 1, i - 1);
    }
  }

  lemma {:induction false} DiffAppend(u: seq<Sym>, x: Sym, v: seq<Sym>, y: Sym)
    requires |u| == |v|
    ensures Diff(u + [x], v + [y]) == Diff(u, v) + [XorSym(x, y)]
  {
    var n := |u|;
    forall i: nat | i < n + 1
      ensures Diff(u + [x], v + [y])[i] == (Diff(u, v) + [XorSym(x, y)])[i]
    {
      DiffAt(u + [x], v + [y], i);
      if i < n {
        DiffAt(u, v, i);
      }
    }
  }

  /** Adding the same polynomial twice changes nothing. */
  lemma {:induction false} DiffTwice(u: seq<Sym>, v: seq<Sym>)
    requires |u| == |v|
    ensures Diff(u, Diff(u, v)) == v
  {
    forall i: nat | i < |u|
      ensures Diff(u, Diff(u, v))[i] == v[i]
    {
      DiffAt(u, Diff(u, v), i);
      DiffAt(u, v, i);
      XorCancel(u[i], v[i]);
    }
  }

  lemma {:induction false} DiffAssoc(u: seq<Sym>, v: seq<Sym>, w: seq<Sym>)
    requires |u| == |v| == |w|
    ensures Diff(Diff(u, v), w) == Diff(u, Diff(v, w))
  {
    forall i: nat | i < |u|
      ensures Diff(Diff(u, v), w)[i] == Diff(u, Diff(v, w))[i]
    {
      DiffAt(Diff(u, v), w, i);
      DiffAt(u, v, i);
      DiffAt(u, Diff(v, w), i);
      DiffAt(v, w, i);
      XorAssoc(u[i], v[i], w[i]);
    }
  }

  // ---------------------------------------------------------------- the digits of a state

  lemma {:induction false} DigitsXor(a: nat, b: nat, n: nat)
    ensures Digits(Xor(a, b), n) == Diff(Digits(a, n), Digits(b, n))
  {
    if n > 0 {
      Constants();
      XorHighLow(a, b, 5);
      HighLow(a, 5);
      HighLow(b, 5);
      HighLow(Xor(a, b), 5);
      DigitsXor(a / 32, b / 32, n - 1);
      DiffAppend(Digits(a / 32, n - 1), a % 32, Digits(b / 32, n - 1), b % 32);
    }
  }

  lemma {:induction false} DigitsZero(n: nat, i: nat)
    requires i < n
    ensures Digits(0, n)[i] == 0
  {
    if i < n - 1 {
      DigitsZero(n - 1, i);
    }
  }

  /** A column of digits that doubles from one number to the next gives the products with the first digit. */
  lemma {:induction false} MixDigits(x: nat, ks: seq<nat>, j: nat, b: Sym)
    requires j < 6 && x < Pow2(|ks|) && forall i :: 0 <= i < |ks| ==> Digits(ks[i], 6)[j] == DoubleBy(b, i)
    ensures Digits(Mix(x, ks), 6)[j] == Times(x, b)
    decreases |ks|
  {
    DigitsZero(6, j);
    if ks != [] {
      var rest, w := ks[1..], When(x % 2 == 1, ks[0]);
      forall i | 0 <= i < |rest|
        ensures Digits(rest[i], 6)[j] == DoubleBy(Double(b), i)
      {
        assert rest[i] == ks[i + 1];
      }
      MixDigits(x / 2, rest, j, Double(b));
      DigitsXor(w, Mix(x / 2, rest), 6);
      DiffAt(Digits(w, 6), Digits(Mix(x / 2, rest), 6), j);
      assert DoubleBy(b, 0) == b;
    }
  }

  lemma {:induction false} SixDigits(a: nat, b: nat, c: nat, d: nat, e: nat, f: nat, k: nat)
    requires a < 32 && b < 32 && c < 32 && d < 32 && e < 32 && f < 32
    requires k == ((((a * 32 + b) * 32 + c) * 32 + d) * 32 + e) * 32 + f
    ensures Digits(k, 6) == [a, b, c, d, e, f]
  {
    var v: seq<Sym> := [a, b, c, d, e, f];
    assert v == [a, b, c] + [d, e, f] && [d, e, f] == [d, e, f] + [];
    PackThree(0, a, b, c, [d, e, f]);
    PackThree((a * 32 + b) * 32 + c, d, e, f, []);
    DigitsPack(v);
  }

  lemma {:induction false} PackThree(k: nat, a: nat, b: nat, c: nat, rest: seq<Sym>)
    requires a < 32 && b < 32 && c < 32
    ensures Pack(k, [a, b, c] + rest) == Pack(((k * 32 + a) * 32 + b) * 32 + c, rest)
  {
    PackOne(k, [a, b, c] + rest, [b, c] + rest);
    PackOne(k * 32 + a, [b, c] + rest, [c] + rest);
    PackOne((k * 32 + a) * 32 + b, [c] + rest, rest);
  }

  lemma {:induction false} PackOne(c: nat, v: seq<Sym>, rest: seq<Sym>)
    requires v != [] && v[1..] == rest
    ensures Pack(c, v) == Pack(c * 32 + v[0], rest)
  {
  }

  /** The generator and its multiples by {2}, {4}, {8} and {16}. */
  const ROWS: seq<seq<Sym>> := [
    [29, 22, 20, 21, 29, 18],
    [19, 5, 1, 3, 19, 13],
    [15, 10, 2, 6, 15, 26],
    [30, 20, 4, 12, 30, 29],
    [21, 1, 8, 24, 21, 19]]

  lemma {:induction false} GenRow(i: nat)
    requires i < 5
    ensures Digits(GEN[i], 6) == ROWS[i]
  {
    if i == 0 {
      SixDigits(29, 22, 20, 21, 29, 18, GEN[0]);
    } else if i == 1 {
      SixDigits(19, 5, 1, 3, 19, 13, GEN[1]);
    } else if i == 2 {
      SixDigits(15, 10, 2, 6, 15, 26, GEN[2]);
    } else if i == 3 {
      SixDigits(30, 20, 4, 12, 30, 29, GEN[3]);
    } else {
      SixDigits(21, 1, 8, 24, 21, 19, GEN[4]);
    }
  }

  lemma {:induction false} RowDoubles(i: nat, j: nat)
    requires i < 4 && j < 6
    ensures ROWS[i + 1][j] == Double(ROWS[i][j])
  {
  }

  lemma {:induction false} DoubleLast(b: Sym, i: nat)
    ensures DoubleBy(b, i + 1) == Double(DoubleBy(b, i))
    decreases i
  {
    if i > 0 {
      DoubleLast(Double(b), i - 1);
    }
  }

  /** The five constants of PolyMod hold these multiples. */
  lemma {:induction false} GenDigits(i: nat, j: nat)
    requires i < 5 && j < 6
    ensures Digits(GEN[i], 6)[j] == DoubleBy(G[j], i)
  {
    GenRow(i);
    if i > 0 {
      GenRow(i - 1);
      GenDigits(i - 1, j);
      DoubleLast(G[j], i - 1);
      RowDoubles(i - 1, j);
    }
  }

  /** The reduction in a step takes out the top coefficient times the generator. */
  lemma {:induction false} MixIsMultiple(a: Sym)
    ensures Digits(Mix(a, GEN), 6) == Scale(a, G)
  {
    forall j: nat | j < 6
      ensures Digits(Mix(a, GEN), 6)[j] == Scale(a, G)[j]
    {
      forall i | 0 <= i < |GEN|
        ensures Digits(GEN[i], 6)[j] == DoubleBy(G[j], i)
      {
        GenDigits(i, j);
      }
      Constants();
      MixDigits(a, GEN, j, G[j]);
    }
  }

  // ---------------------------------------------------------------- one step

  lemma {:induction false} PackFront(c: nat, v: seq<Sym>)
    ensures c * Pow2(5 * |v|) >= 0 && Pack(c, v) == c * Pow2(5 * |v|) + Pack(0, v)
    decreases |v|
  {
    if v != [] {
      var p := Pow2(5 * (|v| - 1));
      Pow2Add(5 * (|v| - 1), 5);
      Constants();
      PackFront(c * 32 + v[0], v[1..]);
      PackFront(v[0], v[1..]);
      Distribute(c * 32, v[0], p);
      Assoc(c, 32, p);
      MulNat(c, 32 * p);
    }
  }

  /** The top digit of a state, and the others. */
  lemma {:induction false} TopDigit(c: nat)
    requires c < TWO_30
    ensures Digits(c, 6)[0] == c / TWO_25 && Digits(c % TWO_25, 5) == Digits(c, 6)[1..]
  {
    Constants();
    var d := Digits(c, 6);
    PackDigits(c, 6);
    assert d == [d[0]] + d[1..];
    PackOne(0, d, d[1..]);
    PackFront(d[0], d[1..]);
    DigitsPack(d[1..]);
    Quotient(c, TWO_25, d[0], Pack(0, d[1..]));
  }

  /** A step multiplies by x, adds the symbol, and takes out the top coefficient times the generator. */
  lemma {:induction false} StepDigits(c: nat, v: Sym)
    requires c < TWO_30
    ensures Digits(Step(c, v), 6) == Diff(Digits(c, 6)[1..] + [v], Scale(Digits(c, 6)[0], G))
  {
    var l, h := c % TWO_25, c / TWO_25;
    TopDigit(c);
    Constants();
    XorLow(l, v);
    DigitsLast(l, v, 5);
    DigitsXor(Xor(l * 32, v), Mix(h, GEN), 6);
    MixIsMultiple(h);
  }

  // ---------------------------------------------------------------- the remainder

  /** The coefficients taken out, which make up the quotient. */
  ghost function QuotientOf(c: nat, v: seq<Sym>): (q: seq<Sym>)
    requires c < TWO_30
    ensures |q| == |v|
    decreases |v|
  {
    if v == [] then []
    else StepBound(c, v[0]); [Digits(c, 6)[0]] + QuotientOf(Step(c, v[0]), v[1..])
  }

  /** A multiple of the generator plus a polynomial of degree below six. */
  ghost function Divided(q: seq<Sym>, r: seq<Sym>): (p: seq<Sym>)
    requires |r| == 6
    ensures |p| == |q| + 6
  {
    Diff(TimesG(q), Zeros(|q|) + r)
  }

  lemma {:induction false} DividedFront(a: Sym, q: seq<Sym>, r: seq<Sym>)
    requires |r| == 6
    ensures Divided([a] + q, r) == Diff([a] + Scale(a, G) + Zeros(|q|), [0] + Divided(q, r))
  {
    var top, t, z := [a] + Scale(a, G) + Zeros(|q|), TimesG(q), Zeros(|q|) + r;
    assert ([a] + q)[1..] == q;
    assert Zeros(|q| + 1) + r == [0] + z;
    DiffAssoc(top, [0] + t, [0] + z);
    DiffPrefix(t, z);
  }

  lemma {:induction false} DiffPrefix(u: seq<Sym>, v: seq<Sym>)
    requires |u| == |v|
    ensures Diff([0] + u, [0] + v) == [0] + Diff(u, v)
  {
    assert ([0] + u)[1..] == u && ([0] + v)[1..] == v;
  }

  /** One step of the division. */
  lemma {:induction false} TakeOut(a: Sym, d: seq<Sym>, m: seq<Sym>, w: seq<Sym>)
    requires |d| == |m| == 6
    ensures Diff([a] + m + Zeros(|w|), [0] + (Diff(d, m) + w)) == [a] + d + w
  {
    var x, y, n := [a] + m + Zeros(|w|), [0] + (Diff(d, m) + w), |w| + 7;
    forall i: nat | i < n
      ensures Diff(x, y)[i] == ([a] + d + w)[i]
    {
      DiffAt(x, y, i);
      if i == 0 {
        XorSelf(a);
      } else if i < 7 {
        assert x[i] == m[i - 1] && y[i] == Diff(d, m)[i - 1];
        DiffAt(d, m, i - 1);
        XorComm(d[i - 1], m[i - 1]);
        XorCancel(m[i - 1], d[i - 1]);
      } else {
        ZerosAt(|w|, i - 7);
        assert x[i] == Zeros(|w|)[i - 7] && y[i] == w[i - 7];
      }
    }
  }

  /** From the division of what follows a step to that of what was there before. */
  lemma {:induction false} DivideStep(d: seq<Sym>, x: Sym, s: seq<Sym>, w: seq<Sym>, q: seq<Sym>, r: seq<Sym>)
    requires |d| == |s| == |r| == 6 && |q| == |w|
    requires s == Diff(d[1..] + [x], Scale(d[0], G)) && s + w == Divided(q, r)
    ensures d + ([x] + w) == Divided([d[0]] + q, r)
  {
    DividedFront(d[0], q, r);
    TakeOut(d[0], d[1..] + [x], Scale(d[0], G), w);
    Regroup(d, x, w);
  }

  lemma {:induction false} Regroup(d: seq<Sym>, x: Sym, w: seq<Sym>)
    requires d != []
    ensures d + ([x] + w) == [d[0]] + (d[1..] + [x]) + w
  {
  }

  lemma {:induction false} NothingToDivide(r: seq<Sym>)
    requires |r| == 6
    ensures Divided([], r) == r
  {
    DiffZeros(r);
    assert Zeros(0) + r == r;
  }

  lemma {:induction false} RunDivides(c: nat, v: seq<Sym>)
    requires c < TWO_30
    ensures Digits(c, 6) + v == Divided(QuotientOf(c, v), Digits(Run(c, v), 6))
    decreases |v|
  {
    if v == [] {
      NothingToDivide(Digits(c, 6));
      assert Digits(c, 6) + v == Digits(c, 6);
    } else {
      var s, w := Step(c, v[0]), v[1..];
      StepBound(c, v[0]);
      StepDigits(c, v[0]);
      RunDivides(s, w);
      DivideStep(Digits(c, 6), v[0], Digits(s, 6), w, QuotientOf(s, w), Digits(Run(s, w), 6));
      assert v == [v[0]] + w;
    }
  }

  lemma {:induction false} FirstOfDivided(a: Sym, q: seq<Sym>, r: seq<Sym>)
    requires |r| == 6
    ensures Divided([a] + q, r)[0] == a
  {
    DividedFront(a, q, r);
    DiffAt([a] + Scale(a, G) + Zeros(|q|), [0] + Divided(q, r), 0);
    XorSelf(a);
  }

  /** Quotient and remainder are unique. */
  lemma {:induction false} DividedUnique(q: seq<Sym>, r: seq<Sym>, q': seq<Sym>, r': seq<Sym>)
    requires |q| == |q'| && |r| == |r'| == 6 && Divided(q, r) == Divided(q', r')
    ensures q == q' && r == r'
    decreases |q|
  {
    if q == [] {
      NothingToDivide(r);
      NothingToDivide(r');
    } else {
      var a, t, a', t' := q[0], q[1..], q'[0], q'[1..];
      assert q == [a] + t && q' == [a'] + t';
      FirstOfDivided(a, t, r);
      FirstOfDivided(a', t', r');
      var top := [a] + Scale(a, G) + Zeros(|t|);
      DividedFront(a, t, r);
      DividedFront(a', t', r');
      DiffTwice(top, [0] + Divided(t, r));
      DiffTwice(top, [0] + Divided(t', r'));
      assert ([0] + Divided(t, r))[1..] == Divided(t, r);
      assert ([0] + Divided(t', r'))[1..] == Divided(t', r');
      DividedUnique(t, r, t', r');
    }
  }

  /** PolyMod is the remainder of the state followed by the symbols, divided by the generator. */
  lemma {:induction false} RunIsRemainder(c: nat, v: seq<Sym>, q: seq<Sym>, r: seq<Sym>)
    requires c < TWO_30 && |q| == |v| && |r| == 6
    ensures Digits(c, 6) + v == Divided(q, r) <==> q == QuotientOf(c, v) && r == Digits(Run(c, v), 6)
  {
    RunDivides(c, v);
    if Digits(c, 6) + v == Divided(q, r) {
      DividedUnique(q, r, QuotientOf(c, v), Digits(Run(c, v), 6));
    }
  }
}
