/**
 Polynomials over GF(32) at an element of GF(1024). At a zero of the Bech32 generator
 (src/bech32.cpp) the loop of PolyMod keeps their value.
 */
module Bech32Zeros {
  import opened Bech32
  import opened Bech32Bits
  import opened Bech32Field
  import opened Bech32Poly
  import opened Bech32Symbols
  import opened Numbers

  // ---------------------------------------------------------------- polynomials at an element

  /** Horner's rule, from the highest coefficient on. */
  function Eval(v: seq<Sym>, x: Elem, acc: Elem): (r: Elem)
    decreases |v|
  {
    if v == [] then acc else Eval(v[1..], x, Sum(Mul(x, acc), Emb(v[0])))
  }

  lemma {:induction false} EvalNext(v: seq<Sym>, x: Elem, acc: Elem)
    requires v != []
    ensures Eval(v, x, acc) == Eval(v[1..], x, Sum(Mul(x, acc), Emb(v[0])))
  {
  }

  lemma {:induction false} EvalDiff(u: seq<Sym>, v: seq<Sym>, x: Elem, a: Elem, b: Elem)
    requires |u| == |v|
    ensures Eval(Diff(u, v), x, Sum(a, b)) == Sum(Eval(u, x, a), Eval(v, x, b))
    decreases |u|
  {
    if u != [] {
      var s, t := u[0], v[0];
      EmbXor(s, t);
      MulSum(x, a, b);
      SumFour(Mul(x, a), Mul(x, b), Emb(s), Emb(t));
      EvalDiff(u[1..], v[1..], x, Sum(Mul(x, a), Emb(s)), Sum(Mul(x, b), Emb(t)));
      assert Diff(u, v)[1..] == Diff(u[1..], v[1..]);
    }
  }

  lemma {:induction false} EvalScale(a: Sym, v: seq<Sym>, x: Elem, acc: Elem)
    ensures Eval(Scale(a, v), x, Mul(Emb(a), acc)) == Mul(Emb(a), Eval(v, x, acc))
    decreases |v|
  {
    if v != [] {
      var s, rest, e := v[0], v[1..], Emb(a);
      EmbTimes(a, s);
      MulSwap(x, e, acc);
      MulSum(e, Mul(x, acc), Emb(s));
      EvalScale(a, rest, x, Sum(Mul(x, acc), Emb(s)));
      assert Scale(a, v)[1..] == Scale(a, rest);
    }
  }

  lemma {:induction false} EvalAppend(v: seq<Sym>, s: Sym, x: Elem, acc: Elem)
    ensures Eval(v + [s], x, acc) == Sum(Mul(x, Eval(v, x, acc)), Emb(s))
    decreases |v|
  {
    if v == [] {
      assert v + [s] == [s] && [s][1..] == [];
    } else {
      assert (v + [s])[1..] == v[1..] + [s];
      EvalAppend(v[1..], s, x, Sum(Mul(x, acc), Emb(v[0])));
    }
  }

  function Power(x: Elem, n: nat): (r: Elem) {
    if n == 0 then 1 else Mul(x, Power(x, n - 1))
  }

  /** What the starting value contributes. */
  lemma {:induction false} EvalFrom(v: seq<Sym>, x: Elem, acc: Elem)
    ensures Eval(v, x, acc) == Sum(Mul(Power(x, |v|), acc), Eval(v, x, 0))
    decreases |v|
  {
    if v == [] {
      MulBit(1, acc);
      SumSelf(acc);
    } else {
      var p, b, rest := Power(x, |v| - 1), Emb(v[0]), v[1..];
      EvalFrom(rest, x, Sum(Mul(x, acc), b));
      EvalFrom(rest, x, Sum(Mul(x, 0), b));
      MulZero(x);
      SumSelf(b);
      MulSum(p, Mul(x, acc), b);
      MulSwap(p, x, acc);
      MulAssoc(x, p, acc);
      SumAssoc(Mul(p, Mul(x, acc)), Mul(p, b), Eval(rest, x, 0));
    }
  }

  // ---------------------------------------------------------------- the zeros of the generator

  /** x^6 is what the other terms of the generator add up to. */
  ghost predicate IsZero(x: Elem) {
    Eval(G, x, 0) == Power(x, 6)
  }

  /** At a zero of the generator a step multiplies by it and adds the symbol. */
  lemma {:induction false} StepEval(c: nat, v: Sym, x: Elem)
    requires c < TWO_30 && IsZero(x)
    ensures Eval(Digits(Step(c, v), 6), x, 0) == Sum(Mul(x, Eval(Digits(c, 6), x, 0)), Emb(v))
  {
    var d := Digits(c, 6);
    var r, p := Mul(Emb(d[0]), Power(x, 6)), Mul(x, Eval(d[1..], x, 0));
    StepDigits(c, v);
    EvalDiff(d[1..] + [v], Scale(d[0], G), x, 0, 0);
    SumSelf(0);
    EvalAppend(d[1..], v, x, 0);
    ReducedEval(d[0], x);
    FirstEval(d, x);
    SumAssoc(p, Emb(v), r);
    SumAssoc(Emb(v), r, 0);
    SumAssoc(p, r, Emb(v));
  }

  /** What is taken out, at a zero of the generator. */
  lemma {:induction false} ReducedEval(a: Sym, x: Elem)
    requires IsZero(x)
    ensures Eval(Scale(a, G), x, 0) == Mul(Emb(a), Power(x, 6))
  {
    EvalScale(a, G, x, 0);
    MulZero(Emb(a));
  }

  lemma {:induction false} FirstEval(d: seq<Sym>, x: Elem)
    requires |d| == 6
    ensures Mul(x, Eval(d, x, 0)) == Sum(Mul(Emb(d[0]), Power(x, 6)), Mul(x, Eval(d[1..], x, 0)))
  {
    var b, p, e := Emb(d[0]), Power(x, 5), Eval(d[1..], x, 0);
    MulZero(x);
    SumSelf(b);
    EvalFrom(d[1..], x, b);
    MulSum(x, Mul(p, b), e);
    MulAssoc(x, p, b);
    MulComm(Mul(x, p), b);
    assert Power(x, 6) == Mul(x, p);
  }

  /** So PolyMod keeps the value of the polynomial at a zero of the generator. */
  lemma {:induction false} RunEval(c: nat, v: seq<Sym>, x: Elem)
    requires c < TWO_30 && IsZero(x)
    ensures Eval(Digits(Run(c, v), 6), x, 0) == Eval(v, x, Eval(Digits(c, 6), x, 0))
    decreases |v|
  {
    if v != [] {
      StepEval(c, v[0], x);
      StepBound(c, v[0]);
      RunEval(Step(c, v[0]), v[1..], x);
      EvalNext(v, x, Eval(Digits(c, 6), x, 0));
    }
  }

  // ---------------------------------------------------------------- y^24, y^25 and y^26

  /** Multiplication by a power of y, in bits. */
  function ShiftBy(e: Bits, n: nat): (r: Bits)
    decreases n
  {
    if n == 0 then e else Shift(ShiftBy(e, n - 1))
  }

  lemma {:induction false} UpByOf(e: Bits, n: nat)
    ensures UpBy(Of(e), n) == Of(ShiftBy(e, n))
  {
    if n > 0 {
      UpByOf(e, n - 1);
      UpOf(ShiftBy(e, n - 1));
    }
  }

  lemma {:induction false} ShiftByAdd(e: Bits, m: nat, n: nat)
    ensures ShiftBy(ShiftBy(e, m), n) == ShiftBy(e, m + n)
  {
    if n > 0 {
      ShiftByAdd(e, m, n - 1);
    }
  }

  lemma {:induction false} ShiftThrice(e: Bits, f: Bits, g: Bits, h: Bits, m: nat, n: nat)
    requires ShiftBy(e, m) == f && ShiftBy(f, m) == g && ShiftBy(g, n) == h
    ensures ShiftBy(e, 2 * m + n) == h
  {
    ShiftByAdd(e, m, m);
    ShiftByAdd(e, 2 * m, n);
  }

  /** One step of Horner's rule, in bits. */
  lemma {:induction false} HornerStep(n: nat, e: Bits, f: Bits, s: Sym, g: Bits, r: Bits)
    requires ShiftBy(e, n) == f && Emb(s) == Of(g) && Add(f, g) == r
    ensures Sum(Mul(Pow(n), Of(e)), Emb(s)) == Of(r)
  {
    MulPow(Of(e), n);
    UpByOf(e, n);
    SumOf(f, g);
  }

  /** Multiplication by y^4 and by y^8. */
  function Shift4(e: Bits): (r: Bits) {
    E(e.b6 != e.b8,
      ((e.b6 != e.b7) != e.b8) != e.b9,
      (e.b7 != e.b8) != e.b9,
      e.b8 != e.b9,
      e.b0 != e.b9,
      (e.b1 != e.b6) != e.b8,
      (e.b2 != e.b7) != e.b9,
      e.b3 != e.b8,
      ((e.b4 != e.b6) != e.b8) != e.b9,
      (e.b5 != e.b7) != e.b9)
  }

  function Shift8(e: Bits): (r: Bits) {
    E((((e.b2 != e.b4) != e.b6) != e.b7) != e.b8,
      ((((e.b2 != e.b3) != e.b4) != e.b5) != e.b6) != e.b9,
      (((e.b3 != e.b4) != e.b5) != e.b6) != e.b7,
      (((e.b4 != e.b5) != e.b6) != e.b7) != e.b8,
      (((e.b5 != e.b6) != e.b7) != e.b8) != e.b9,
      (e.b2 != e.b4) != e.b9,
      e.b3 != e.b5,
      e.b4 != e.b6,
      ((((e.b0 != e.b2) != e.b4) != e.b5) != e.b6) != e.b8,
      ((((e.b1 != e.b3) != e.b5) != e.b6) != e.b7) != e.b9)
  }

  lemma {:induction false} ShiftFour(e: Bits)
    ensures Shift(Shift(Shift(Shift(e)))) == Shift4(e)
  {
  }

  lemma {:induction false} ShiftEight(e: Bits, n: nat)
    requires n == 8
    ensures ShiftBy(e, n) == Shift8(e)
  {
    ShiftFour(e);
    ShiftFour(Shift4(e));
    ShiftTwice(e);
    ShiftByFour(e, 4);
    ShiftByFour(Shift4(e), 4);
    ShiftByAdd(e, 4, 4);
  }

  lemma {:induction false} ShiftByFour(e: Bits, n: nat)
    requires n == 4
    ensures ShiftBy(e, n) == Shift(Shift(Shift(Shift(e))))
  {
    assert ShiftBy(e, n - 3) == Shift(ShiftBy(e, n - 4));
    assert ShiftBy(e, n - 1) == Shift(ShiftBy(e, n - 2));
  }

  lemma {:induction false} ShiftTwice(e: Bits)
    ensures Shift4(Shift4(e)) == Shift8(e)
  {
  }

  /** Multiplication by y^24, y^25 or y^26 in three steps. */
  lemma {:induction false} ShiftLong(e: Bits, f: Bits, g: Bits, h: Bits, n: nat)
    requires Shift8(e) == f && Shift8(f) == g && Shift8(g) == h
    ensures n == 24 ==> ShiftBy(e, n) == h
    ensures n == 25 ==> ShiftBy(e, n) == Shift(h)
    ensures n == 26 ==> ShiftBy(e, n) == Shift(Shift(h))
  {
    ShiftEight(e, 8);
    ShiftEight(f, 8);
    ShiftEight(g, 8);
    ShiftThrice(e, f, g, h, 8, 8);
    if n == 25 || n == 26 {
      assert ShiftBy(e, n - 1) == Shift(ShiftBy(e, n - 2));
      assert ShiftBy(e, n) == Shift(ShiftBy(e, n - 1));
    }
  }

  lemma {:induction false} At144()
    ensures At(144) == E698
  {
    assert At(0) == ONE && At(1) == E2;
    AtDouble(1);
    assert At(2) == E4;
    AtDouble(2);
    assert At(4) == E16;
    AtDouble(4);
    assert At(8) == E256;
    assert At(9) == E512;
    AtDouble(9);
    assert At(18) == E327;
    AtDouble(18);
    assert At(36) == E163;
    AtDouble(36);
    assert At(72) == E697;
    AtDouble(72);
    assert At(144) == E698;
  }

  lemma {:induction false} At150()
    ensures At(150) == E166
  {
    assert At(0) == ONE && At(1) == E2;
    AtDouble(1);
    assert At(2) == E4;
    AtDouble(2);
    assert At(4) == E16;
    AtDouble(4);
    assert At(8) == E256;
    assert At(9) == E512;
    AtDouble(9);
    assert At(18) == E327;
    AtDouble(18);
    assert At(36) == E163;
    assert At(37) == E326;
    AtDouble(37);
    assert At(74) == E162;
    assert At(75) == E324;
    AtDouble(75);
    assert At(150) == E166;
  }

  lemma {:induction false} At156()
    ensures At(156) == E152
  {
    assert At(0) == ONE && At(1) == E2;
    AtDouble(1);
    assert At(2) == E4;
    AtDouble(2);
    assert At(4) == E16;
    AtDouble(4);
    assert At(8) == E256;
    assert At(9) == E512;
    AtDouble(9);
    assert At(18) == E327;
    assert At(19) == E654;
    AtDouble(19);
    assert At(38) == E652;
    assert At(39) == E59;
    AtDouble(39);
    assert At(78) == E102;
    AtDouble(78);
    assert At(156) == E152;
  }

  /** The generator, in bits. */
  const SIX: seq<Bits> := [E946, E229, E235, E234, E946, E177]

  lemma {:induction false} SixIs(i: nat)
    requires i < 6
    ensures Emb(G[i]) == Of(SIX[i])
  {
    if i == 0 || i == 4 {
      Emb29(G[i]);
    } else if i == 1 {
      Emb22(G[i]);
    } else if i == 2 {
      Emb20(G[i]);
    } else if i == 3 {
      Emb21(G[i]);
    } else {
      Emb18(G[i]);
    }
  }

  lemma {:induction false} PowerOfPow(n: nat, k: nat)
    ensures k * n >= 0 && Power(Pow(n), k) == Pow(k * n)
    decreases k
  {
    if k > 0 {
      PowerOfPow(n, k - 1);
      assert n + (k - 1) * n == k * n;
      PowAdd(n, (k - 1) * n);
    }
  }

  /** One step of Horner's rule for the generator at y^n. */
  lemma {:induction false} HornerNext(n: nat, i: nat, e: Bits, f: Bits, r: Bits, acc: Elem)
    requires i < 6 && acc == Of(e) && ShiftBy(e, n) == f && Add(f, SIX[i]) == r
    ensures Eval(G[i..], Pow(n), acc) == Eval(G[i + 1..], Pow(n), Of(r))
  {
    SixIs(i);
    HornerStep(n, e, f, G[i], SIX[i], r);
    EvalNext(G[i..], Pow(n), acc);
    assert G[i..][1..] == G[i + 1..] && G[i..][0] == G[i];
  }

  lemma {:induction false} ZeroIf(n: nat, m: nat, e: Bits, v: Elem)
    requires v == Of(e) && m == 6 * n && At(m) == e && Eval(G[1..], Pow(n), Of(SIX[0])) == v
    ensures IsZero(Pow(n))
  {
    SixIs(0);
    MulZero(Pow(n));
    SumSelf(Emb(G[0]));
    EvalNext(G, Pow(n), 0);
    PowerOfPow(n, 6);
    PowOf(m);
  }

  // At y^24 the sums of Horner's rule are 946, 125, 125, 124, 212 and 698, which is y^144.

  lemma {:induction false} Multiple24At5(n: nat)
    requires n == 24
    ensures ShiftBy(E212, n) == E523
  {
    ShiftLong(E212, E270, E124, E523, n);
  }

  lemma {:induction false} Horner24From5(n: nat, i: nat, e: Bits)
    requires n == 24 && i == 5 && e == E212
    ensures Eval(G[i..], Pow(n), Of(e)) == Of(E698)
  {
    Multiple24At5(n);
    HornerNext(n, i, e, E523, E698, Of(e));
    assert G[i + 1..] == [];
  }

  lemma {:induction false} Multiple24At4(n: nat)
    requires n == 24
    ensures ShiftBy(E124, n) == E870
  {
    ShiftLong(E124, E523, E884, E870, n);
  }

  lemma {:induction false} Horner24From4(n: nat, i: nat, e: Bits)
    requires n == 24 && i == 4 && e == E124
    ensures Eval(G[i..], Pow(n), Of(e)) == Of(E698)
  {
    Multiple24At4(n);
    HornerNext(n, i, e, E870, E212, Of(e));
    Horner24From5(n, i + 1, E212);
  }

  lemma {:induction false} Multiple24At3(n: nat)
    requires n == 24
    ensures ShiftBy(E125, n) == E150
  {
    ShiftLong(E125, E779, E621, E150, n);
  }

  lemma {:induction false} Horner24From3(n: nat, i: nat, e: Bits)
    requires n == 24 && i == 3 && e == E125
    ensures Eval(G[i..], Pow(n), Of(e)) == Of(E698)
  {
    Multiple24At3(n);
    HornerNext(n, i, e, E150, E124, Of(e));
    Horner24From4(n, i + 1, E124);
  }

  lemma {:induction false} Horner24From2(n: nat, i: nat, e: Bits)
    requires n == 24 && i == 2 && e == E125
    ensures Eval(G[i..], Pow(n), Of(e)) == Of(E698)
  {
    Multiple24At3(n);
    HornerNext(n, i, e, E150, E125, Of(e));
    Horner24From3(n, i + 1, E125);
  }

  lemma {:induction false} Multiple24At1(n: nat)
    requires n == 24
    ensures ShiftBy(E946, n) == E152
  {
    ShiftLong(E946, E455, E696, E152, n);
  }

  lemma {:induction false} Horner24From1(n: nat, i: nat, e: Bits)
    requires n == 24 && i == 1 && e == E946
    ensures Eval(G[i..], Pow(n), Of(e)) == Of(E698)
  {
    Multiple24At1(n);
    HornerNext(n, i, e, E152, E125, Of(e));
    Horner24From2(n, i + 1, E125);
  }

  lemma {:induction false} ZeroAt24(n: nat)
    requires n == 24
    ensures IsZero(Pow(n))
  {
    var e := E698;
    Horner24From1(n, 1, SIX[0]);
    At144();
    ZeroIf(n, 6 * n, e, Of(e));
  }

  // At y^25 the sums of Horner's rule are 946, 469, 941, 105, 991 and 166, which is y^150.

  lemma {:induction false} Multiple25At5(n: nat)
    requires n == 25
    ensures ShiftBy(E991, n) == E23
  {
    ShiftLong(E991, E867, E234, E666, n);
  }

  lemma {:induction false} Horner25From5(n: nat, i: nat, e: Bits)
    requires n == 25 && i == 5 && e == E991
    ensures Eval(G[i..], Pow(n), Of(e)) == Of(E166)
  {
    Multiple25At5(n);
    HornerNext(n, i, e, E23, E166, Of(e));
    assert G[i + 1..] == [];
  }

  lemma {:induction false} Multiple25At4(n: nat)
    requires n == 25
    ensures ShiftBy(E105, n) == E109
  {
    ShiftLong(E105, E903, E789, E679, n);
  }

  lemma {:induction false} Horner25From4(n: nat, i: nat, e: Bits)
    requires n == 25 && i == 4 && e == E105
    ensures Eval(G[i..], Pow(n), Of(e)) == Of(E166)
  {
    Multiple25At4(n);
    HornerNext(n, i, e, E109, E991, Of(e));
    Horner25From5(n, i + 1, E991);
  }

  lemma {:induction false} Multiple25At3(n: nat)
    requires n == 25
    ensures ShiftBy(E941, n) == E131
  {
    ShiftLong(E941, E13, E613, E720, n);
  }

  lemma {:induction false} Horner25From3(n: nat, i: nat, e: Bits)
    requires n == 25 && i == 3 && e == E941
    ensures Eval(G[i..], Pow(n), Of(e)) == Of(E166)
  {
    Multiple25At3(n);
    HornerNext(n, i, e, E131, E105, Of(e));
    Horner25From4(n, i + 1, E105);
  }

  lemma {:induction false} Multiple25At2(n: nat)
    requires n == 25
    ensures ShiftBy(E469, n) == E838
  {
    ShiftLong(E469, E279, E661, E419, n);
  }

  lemma {:induction false} Horner25From2(n: nat, i: nat, e: Bits)
    requires n == 25 && i == 2 && e == E469
    ensures Eval(G[i..], Pow(n), Of(e)) == Of(E166)
  {
    Multiple25At2(n);
    HornerNext(n, i, e, E838, E941, Of(e));
    Horner25From3(n, i + 1, E941);
  }

  lemma {:induction false} Multiple25At1(n: nat)
    requires n == 25
    ensures ShiftBy(E946, n) == E304
  {
    ShiftLong(E946, E455, E696, E152, n);
  }

  lemma {:induction false} Horner25From1(n: nat, i: nat, e: Bits)
    requires n == 25 && i == 1 && e == E946
    ensures Eval(G[i..], Pow(n), Of(e)) == Of(E166)
  {
    Multiple25At1(n);
    HornerNext(n, i, e, E304, E469, Of(e));
    Horner25From2(n, i + 1, E469);
  }

  lemma {:induction false} ZeroAt25(n: nat)
    requires n == 25
    ensures IsZero(Pow(n))
  {
    var e := E166;
    Horner25From1(n, 1, SIX[0]);
    At150();
    ZeroIf(n, 6 * n, e, Of(e));
  }

  // At y^26 the sums of Horner's rule are 946, 645, 170, 311, 403 and 152, which is y^156.

  lemma {:induction false} Multiple26At5(n: nat)
    requires n == 26
    ensures ShiftBy(E403, n) == E41
  {
    ShiftLong(E403, E427, E284, E979, n);
  }

  lemma {:induction false} Horner26From5(n: nat, i: nat, e: Bits)
    requires n == 26 && i == 5 && e == E403
    ensures Eval(G[i..], Pow(n), Of(e)) == Of(E152)
  {
    Multiple26At5(n);
    HornerNext(n, i, e, E41, E152, Of(e));
    assert G[i + 1..] == [];
  }

  lemma {:induction false} Multiple26At4(n: nat)
    requires n == 26
    ensures ShiftBy(E311, n) == E545
  {
    ShiftLong(E311, E459, E477, E849, n);
  }

  lemma {:induction false} Horner26From4(n: nat, i: nat, e: Bits)
    requires n == 26 && i == 4 && e == E311
    ensures Eval(G[i..], Pow(n), Of(e)) == Of(E152)
  {
    Multiple26At4(n);
    HornerNext(n, i, e, E545, E403, Of(e));
    Horner26From5(n, i + 1, E403);
  }

  lemma {:induction false} Multiple26At3(n: nat)
    requires n == 26
    ensures ShiftBy(E170, n) == E477
  {
    ShiftLong(E170, E261, E314, E942, n);
  }

  lemma {:induction false} Horner26From3(n: nat, i: nat, e: Bits)
    requires n == 26 && i == 3 && e == E170
    ensures Eval(G[i..], Pow(n), Of(e)) == Of(E152)
  {
    Multiple26At3(n);
    HornerNext(n, i, e, E477, E311, Of(e));
    Horner26From4(n, i + 1, E311);
  }

  lemma {:induction false} Multiple26At2(n: nat)
    requires n == 26
    ensures ShiftBy(E645, n) == E65
  {
    ShiftLong(E645, E12, E869, E969, n);
  }

  lemma {:induction false} Horner26From2(n: nat, i: nat, e: Bits)
    requires n == 26 && i == 2 && e == E645
    ensures Eval(G[i..], Pow(n), Of(e)) == Of(E152)
  {
    Multiple26At2(n);
    HornerNext(n, i, e, E65, E170, Of(e));
    Horner26From3(n, i + 1, E170);
  }

  lemma {:induction false} Multiple26At1(n: nat)
    requires n == 26
    ensures ShiftBy(E946, n) == E608
  {
    ShiftLong(E946, E455, E696, E152, n);
  }

  lemma {:induction false} Horner26From1(n: nat, i: nat, e: Bits)
    requires n == 26 && i == 1 && e == E946
    ensures Eval(G[i..], Pow(n), Of(e)) == Of(E152)
  {
    Multiple26At1(n);
    HornerNext(n, i, e, E608, E645, Of(e));
    Horner26From2(n, i + 1, E645);
  }

  lemma {:induction false} ZeroAt26(n: nat)
    requires n == 26
    ensures IsZero(Pow(n))
  {
    var e := E152;
    Horner26From1(n, 1, SIX[0]);
    At156();
    ZeroIf(n, 6 * n, e, Of(e));
  }
}
