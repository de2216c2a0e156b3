/**
 The symbols of Bech32 (src/bech32.cpp), GF(32), inside GF(1024): {2} is y^3 + y^2 + y there.
 */
module Bech32Symbols {
  import opened Bech32
  import opened Bech32Bits
  import opened Bech32Field
  import opened Bech32Poly
  import opened Numbers

  /** y^3 + y^2 + y */
  const GAMMA: Elem := 14

  /** The element of a symbol: the polynomial of its bits in {2}. */
  function Emb(s: nat): (e: Elem) {
    if s == 0 then 0 else Sum(s % 2, Mul(Emb(s / 2), GAMMA))
  }

  lemma {:induction false} EmbStep(s: nat)
    ensures Emb(s) == Sum(s % 2, Mul(Emb(s / 2), GAMMA))
  {
    SumSelf(0);
  }

  lemma {:induction false} EmbXor(s: nat, t: nat)
    ensures Emb(Xor(s, t)) == Sum(Emb(s), Emb(t))
    decreases s + t
  {
    if s == 0 {
      SumSelf(Emb(t));
    } else if t == 0 {
      SumSelf(Emb(s));
    } else {
      var a, b := Emb(s / 2), Emb(t / 2);
      XorBits(s, t);
      EmbStep(Xor(s, t));
      EmbXor(s / 2, t / 2);
      MulSumLeft(a, b, GAMMA);
      TopXor(s % 2, t % 2);
      SumFour(s % 2, t % 2, Mul(a, GAMMA), Mul(b, GAMMA));
    }
  }

  lemma {:induction false} EmbEven(s: nat)
    ensures Emb(2 * s) == Mul(Emb(s), GAMMA)
  {
    EmbStep(2 * s);
    assert 2 * s / 2 == s && 2 * s % 2 == 0;
    SumSelf(Mul(Emb(s), GAMMA));
  }

  lemma {:induction false} MulGamma(c: Elem)
    ensures Mul(GAMMA, c) == Sum(Up(c), Sum(Up(Up(c)), Up(Up(Up(c)))))
  {
    var c1, c2, c3 := Up(c), Up(Up(c)), Up(Up(Up(c)));
    assert Mul(1, c3) == Sum(c3, Mul(0, Up(c3))) && Mul(0, Up(c3)) == 0;
    SumSelf(c3);
    assert Mul(3, c2) == Sum(c2, Mul(1, c3));
    assert Mul(7, c1) == Sum(c1, Mul(3, c2));
    assert Mul(14, c) == Sum(0, Mul(7, c1));
    SumSelf(Mul(7, c1));
  }

  /** The multiple by {2}, in bits. */
  function Doubly(e: Bits): (r: Bits) {
    Add(Shift(e), Add(Shift(Shift(e)), Shift(Shift(Shift(e)))))
  }

  lemma {:induction false} DoublyOf(e: Bits)
    ensures Mul(Of(e), GAMMA) == Of(Doubly(e))
  {
    var e1, e2, e3 := Shift(e), Shift(Shift(e)), Shift(Shift(Shift(e)));
    MulComm(Of(e), GAMMA);
    MulGamma(Of(e));
    UpOf(e);
    UpOf(e1);
    UpOf(e2);
    SumOf(e2, e3);
    SumOf(e1, Add(e2, e3));
  }

  function Bit(x: bool): (e: Bits) {
    E(x, false, false, false, false, false, false, false, false, false)
  }

  lemma {:induction false} EmbCons(x: bool, m: nat, e: Bits)
    requires Emb(m) == Of(e)
    ensures Emb(One(x) + 2 * m) == Of(Add(Bit(x), Doubly(e)))
  {
    EmbStep(One(x) + 2 * m);
    assert (One(x) + 2 * m) / 2 == m && (One(x) + 2 * m) % 2 == One(x) == Of(Bit(x));
    DoublyOf(e);
    SumOf(Bit(x), Doubly(e));
  }

  /** The bits of the element of a symbol. */
  function SymBits(x0: bool, x1: bool, x2: bool, x3: bool, x4: bool): (e: Bits) {
    Add(Bit(x0), Doubly(Add(Bit(x1), Doubly(Add(Bit(x2), Doubly(Add(Bit(x3), Doubly(Bit(x4)))))))))
  }

  lemma {:induction false} EmbBits(x0: bool, x1: bool, x2: bool, x3: bool, x4: bool, s: nat)
    requires s == One(x0) + 2 * (One(x1) + 2 * (One(x2) + 2 * (One(x3) + 2 * One(x4))))
    ensures Emb(s) == Of(SymBits(x0, x1, x2, x3, x4))
  {
    var e3 := Add(Bit(x3), Doubly(Bit(x4)));
    var e2 := Add(Bit(x2), Doubly(e3));
    var s3, s2 := One(x3) + 2 * One(x4), One(x2) + 2 * (One(x3) + 2 * One(x4));
    EmbSmall(x4);
    EmbCons(x3, One(x4), Bit(x4));
    EmbCons(x2, s3, e3);
    EmbCons(x1, s2, e2);
    EmbCons(x0, One(x1) + 2 * s2, Add(Bit(x1), Doubly(e2)));
  }

  lemma {:induction false} EmbSmall(x: bool)
    ensures Emb(One(x)) == Of(Bit(x))
  {
    EmbStep(One(x));
    assert Emb(0) == 0 && Mul(0, GAMMA) == 0;
    SumSelf(One(x));
  }

  lemma {:induction false} SymBitsZero(x0: bool, x1: bool, x2: bool, x3: bool, x4: bool)
    requires SymBits(x0, x1, x2, x3, x4) == Bit(false)
    ensures !x0 && !x1 && !x2 && !x3 && !x4
  {
  }

  // ---------------------------------------------------------------- the symbols of the generator

  lemma {:induction false} EmbNext(x: bool, m: nat, e: Bits, s: nat, d: Bits)
    requires Emb(m) == Of(e) && s == One(x) + 2 * m && d == Add(Bit(x), Doubly(e))
    ensures Emb(s) == Of(d)
  {
    EmbCons(x, m, e);
  }

  lemma {:induction false} Emb2(s: nat)
    requires s == 2
    ensures Emb(s) == Of(E14)
  {
    EmbSmall(true);
    EmbNext(false, s / 2, ONE, s, E14);
  }

  lemma {:induction false} Emb3(s: nat)
    requires s == 3
    ensures Emb(s) == Of(E15)
  {
    EmbSmall(true);
    EmbNext(true, s / 2, ONE, s, E15);
  }

  lemma {:induction false} Emb4(s: nat)
    requires s == 4
    ensures Emb(s) == Of(E84)
  {
    Emb2(s / 2);
    EmbNext(false, s / 2, E14, s, E84);
  }

  lemma {:induction false} Emb5(s: nat)
    requires s == 5
    ensures Emb(s) == Of(E85)
  {
    Emb2(s / 2);
    EmbNext(true, s / 2, E14, s, E85);
  }

  lemma {:induction false} Emb7(s: nat)
    requires s == 7
    ensures Emb(s) == Of(E91)
  {
    Emb3(s / 2);
    EmbNext(true, s / 2, E15, s, E91);
  }

  lemma {:induction false} Emb8(s: nat)
    requires s == 8
    ensures Emb(s) == Of(E856)
  {
    Emb4(s / 2);
    EmbNext(false, s / 2, E84, s, E856);
  }

  lemma {:induction false} Emb9(s: nat)
    requires s == 9
    ensures Emb(s) == Of(E857)
  {
    Emb4(s / 2);
    EmbNext(true, s / 2, E84, s, E857);
  }

  lemma {:induction false} Emb10(s: nat)
    requires s == 10
    ensures Emb(s) == Of(E854)
  {
    Emb5(s / 2);
    EmbNext(false, s / 2, E85, s, E854);
  }

  lemma {:induction false} Emb11(s: nat)
    requires s == 11
    ensures Emb(s) == Of(E855)
  {
    Emb5(s / 2);
    EmbNext(true, s / 2, E85, s, E855);
  }

  lemma {:induction false} Emb14(s: nat)
    requires s == 14
    ensures Emb(s) == Of(E770)
  {
    Emb7(s / 2);
    EmbNext(false, s / 2, E91, s, E770);
  }

  lemma {:induction false} Emb16(s: nat)
    requires s == 16
    ensures Emb(s) == Of(E191)
  {
    Emb8(s / 2);
    EmbNext(false, s / 2, E856, s, E191);
  }

  lemma {:induction false} Emb18(s: nat)
    requires s == 18
    ensures Emb(s) == Of(E177)
  {
    Emb9(s / 2);
    EmbNext(false, s / 2, E857, s, E177);
  }

  lemma {:induction false} Emb20(s: nat)
    requires s == 20
    ensures Emb(s) == Of(E235)
  {
    Emb10(s / 2);
    EmbNext(false, s / 2, E854, s, E235);
  }

  lemma {:induction false} Emb21(s: nat)
    requires s == 21
    ensures Emb(s) == Of(E234)
  {
    Emb10(s / 2);
    EmbNext(true, s / 2, E854, s, E234);
  }

  lemma {:induction false} Emb22(s: nat)
    requires s == 22
    ensures Emb(s) == Of(E229)
  {
    Emb11(s / 2);
    EmbNext(false, s / 2, E855, s, E229);
  }

  lemma {:induction false} Emb29(s: nat)
    requires s == 29
    ensures Emb(s) == Of(E946)
  {
    Emb14(s / 2);
    EmbNext(true, s / 2, E770, s, E946);
  }

  // ---------------------------------------------------------------- products of symbols

  /** {2}^5 = {2}^3 + 1. */
  lemma {:induction false} EmbNine(s: nat, t: nat)
    requires s == 16 && t == 9
    ensures Mul(Emb(s), GAMMA) == Emb(t)
  {
    Emb16(s);
    Emb9(t);
    DoublyOf(E191);
  }

  lemma {:induction false} XorTop(r: nat, s: nat)
    requires r < 16 == s
    ensures Xor(s, r) == s + r
  {
    assert Pow2(4) == 16;
    XorDisjoint(1, r, 4);
  }

  /** Doubling a symbol in GF(32) is multiplication by {2}. */
  lemma {:induction false} EmbDouble(b: Sym)
    ensures Emb(Double(b)) == Mul(Emb(b), GAMMA)
  {
    if b < 16 {
      EmbEven(b);
    } else {
      EmbCarry(b - 16, b, 16, 9);
    }
  }

  lemma {:induction false} EmbCarry(r: nat, b: Sym, s: nat, t: nat)
    requires r < 16 == s && t == 9 && b == s + r
    ensures Emb(Xor(2 * r, t)) == Mul(Emb(b), GAMMA)
  {
    EmbXor(2 * r, t);
    EmbEven(r);
    EmbNine(s, t);
    XorTop(r, s);
    EmbXor(s, r);
    MulSumLeft(Emb(s), Emb(r), GAMMA);
    SumAssoc(Emb(t), Mul(Emb(r), GAMMA), 0);
  }

  /** The product in GF(32) is the product of the elements. */
  lemma {:induction false} EmbTimes(a: nat, b: Sym)
    ensures Emb(Times(a, b)) == Mul(Emb(a), Emb(b))
    decreases a
  {
    if a > 0 {
      var h, e, g := a / 2, Emb(a / 2), Emb(b);
      EmbXor(When(a % 2 == 1, b), Times(h, Double(b)));
      EmbTimes(h, Double(b));
      EmbDouble(b);
      MulSumLeft(a % 2, Mul(e, GAMMA), g);
      MulAssoc(e, GAMMA, g);
      MulComm(GAMMA, g);
      MulBit(a % 2, g);
    }
  }

  lemma {:induction false} MulBit(x: Elem, g: Elem)
    requires x < 2
    ensures Mul(x, g) == if x == 1 then g else 0
  {
    MulComm(x, g);
    MulOne(g);
    MulZero(g);
  }
}
