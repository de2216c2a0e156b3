/**
 Computations in GF(1024) bit by bit: the coefficient of y^i is the field bi.
 */
module Bech32Bits {
  import opened Bech32
  import opened Bech32Field
  import opened Numbers

  datatype Bits = E(b0: bool, b1: bool, b2: bool, b3: bool, b4: bool, b5: bool, b6: bool, b7: bool, b8: bool, b9: bool)

  const ONE := E(true, false, false, false, false, false, false, false, false, false)

  function Add(a: Bits, b: Bits): (r: Bits) {
    E(a.b0 != b.b0, a.b1 != b.b1, a.b2 != b.b2, a.b3 != b.b3, a.b4 != b.b4,
      a.b5 != b.b5, a.b6 != b.b6, a.b7 != b.b7, a.b8 != b.b8, a.b9 != b.b9)
  }

  /** Multiplication by y. */
  function Shift(e: Bits): (r: Bits) {
    E(e.b9, e.b0 != e.b9, e.b1, e.b2, e.b3, e.b4 != e.b9, e.b5, e.b6, e.b7 != e.b9, e.b8)
  }

  // ---------------------------------------------------------------- bits and numbers

  /** Two bits in front of a number. */
  function Two(x: bool, y: bool, m: nat): (n: nat) {
    One(x) + 2 * (One(y) + 2 * m)
  }

  lemma {:induction false} XorOnes(x: bool, y: bool, m: nat, n: nat)
    ensures Xor(One(x) + 2 * m, One(y) + 2 * n) == One(x != y) + 2 * Xor(m, n)
  {
    XorDouble(m, One(x), n, One(y));
  }

  lemma {:induction false} XorTwo(x: bool, y: bool, m: nat, x': bool, y': bool, n: nat)
    ensures Xor(Two(x, y, m), Two(x', y', n)) == Two(x != x', y != y', Xor(m, n))
  {
    XorOnes(x, x', One(y) + 2 * m, One(y') + 2 * n);
    XorOnes(y, y', m, n);
  }

  function From8(e: Bits): (n: nat) {
    Two(e.b8, e.b9, 0)
  }

  function From6(e: Bits): (n: nat) {
    Two(e.b6, e.b7, From8(e))
  }

  function From4(e: Bits): (n: nat) {
    Two(e.b4, e.b5, From6(e))
  }

  function From2(e: Bits): (n: nat) {
    Two(e.b2, e.b3, From4(e))
  }

  /** The number whose bits they are. */
  function Num(e: Bits): (n: nat) {
    Two(e.b0, e.b1, From2(e))
  }

  lemma {:induction false} Xor8(a: Bits, b: Bits)
    ensures From8(Add(a, b)) == Xor(From8(a), From8(b))
  {
    XorTwo(a.b8, a.b9, 0, b.b8, b.b9, 0);
  }

  lemma {:induction false} Xor6(a: Bits, b: Bits)
    ensures From6(Add(a, b)) == Xor(From6(a), From6(b))
  {
    Xor8(a, b);
    XorTwo(a.b6, a.b7, From8(a), b.b6, b.b7, From8(b));
  }

  lemma {:induction false} Xor4(a: Bits, b: Bits)
    ensures From4(Add(a, b)) == Xor(From4(a), From4(b))
  {
    Xor6(a, b);
    XorTwo(a.b4, a.b5, From6(a), b.b4, b.b5, From6(b));
  }

  lemma {:induction false} Xor2(a: Bits, b: Bits)
    ensures From2(Add(a, b)) == Xor(From2(a), From2(b))
  {
    Xor4(a, b);
    XorTwo(a.b2, a.b3, From4(a), b.b2, b.b3, From4(b));
  }

  lemma {:induction false} NumXor(a: Bits, b: Bits)
    ensures Num(Add(a, b)) == Xor(Num(a), Num(b))
  {
    Xor2(a, b);
    XorTwo(a.b0, a.b1, From2(a), b.b0, b.b1, From2(b));
  }

  lemma {:induction false} NumParts(e: Bits)
    ensures Num(e) < 1024 && (Num(e) >= 512 <==> e.b9) && Num(Doubled(e)) == 2 * (Num(e) % 512)
  {
    var d := Doubled(e);
    HighParts(e, d, From4(e), From4(d));
    LowParts(One(e.b0), One(e.b1), One(e.b2), One(e.b3), From4(e), From4(d), One(e.b9), Num(e), Num(d));
  }

  lemma {:induction false} HighParts(e: Bits, d: Bits, n: nat, m: nat)
    requires d == Doubled(e) && n == From4(e) && m == From4(d)
    ensures n < 64 && m < 64 && m + 64 * One(e.b9) == One(e.b3) + 2 * n
  {
  }

  lemma {:induction false} LowParts(x0: nat, x1: nat, x2: nat, x3: nat, n: nat, m: nat, x9: nat, all: nat, twice: nat)
    requires x0 < 2 && x1 < 2 && x2 < 2 && x3 < 2 && x9 < 2 && n < 64 && m < 64 && m + 64 * x9 == x3 + 2 * n
    requires all == x0 + 2 * (x1 + 2 * (x2 + 2 * (x3 + 2 * n))) && twice == 2 * (x0 + 2 * (x1 + 2 * (x2 + 2 * m)))
    ensures all < 1024 && (all >= 512 <==> x9 == 1) && twice == 2 * (all % 512)
  {
    var low := x0 + 2 * (x1 + 2 * (x2 + 2 * m));
    assert low < 512 && all == low + 512 * x9;
  }

  /** The multiple by y before it is reduced. */
  function Doubled(e: Bits): (r: Bits) {
    E(false, e.b0, e.b1, e.b2, e.b3, e.b4, e.b5, e.b6, e.b7, e.b8)
  }

  /** The element with these bits. */
  function Of(e: Bits): (c: Elem) {
    NumParts(e);
    Num(e)
  }

  lemma {:induction false} SumOf(a: Bits, b: Bits)
    ensures Sum(Of(a), Of(b)) == Of(Add(a, b))
  {
    NumXor(a, b);
  }

  const MODULUS := E(true, true, false, false, false, true, false, false, true, false)

  lemma {:induction false} ShiftIs(e: Bits)
    ensures Shift(e) == if e.b9 then Add(Doubled(e), MODULUS) else Doubled(e)
  {
  }

  lemma {:induction false} UpOf(e: Bits)
    ensures Up(Of(e)) == Of(Shift(e))
  {
    var d := Doubled(e);
    NumParts(e);
    ShiftIs(e);
    assert Of(MODULUS) == 291;
    if e.b9 {
      SumOf(d, MODULUS);
    } else {
      SumSelf(Of(d));
    }
  }

  // ---------------------------------------------------------------- the elements computed with, by their numbers

  const E2 := E(false, true, false, false, false, false, false, false, false, false)
  const E4 := E(false, false, true, false, false, false, false, false, false, false)
  const E8 := E(false, false, false, true, false, false, false, false, false, false)
  const E12 := E(false, false, true, true, false, false, false, false, false, false)
  const E13 := E(true, false, true, true, false, false, false, false, false, false)
  const E14 := E(false, true, true, true, false, false, false, false, false, false)
  const E15 := E(true, true, true, true, false, false, false, false, false, false)
  const E16 := E(false, false, false, false, true, false, false, false, false, false)
  const E22 := E(false, true, true, false, true, false, false, false, false, false)
  const E23 := E(true, true, true, false, true, false, false, false, false, false)
  const E27 := E(true, true, false, true, true, false, false, false, false, false)
  const E32 := E(false, false, false, false, false, true, false, false, false, false)
  const E41 := E(true, false, false, true, false, true, false, false, false, false)
  const E44 := E(false, false, true, true, false, true, false, false, false, false)
  const E54 := E(false, true, true, false, true, true, false, false, false, false)
  const E59 := E(true, true, false, true, true, true, false, false, false, false)
  const E63 := E(true, true, true, true, true, true, false, false, false, false)
  const E64 := E(false, false, false, false, false, false, true, false, false, false)
  const E65 := E(true, false, false, false, false, false, true, false, false, false)
  const E84 := E(false, false, true, false, true, false, true, false, false, false)
  const E85 := E(true, false, true, false, true, false, true, false, false, false)
  const E88 := E(false, false, false, true, true, false, true, false, false, false)
  const E91 := E(true, true, false, true, true, false, true, false, false, false)
  const E102 := E(false, true, true, false, false, true, true, false, false, false)
  const E105 := E(true, false, false, true, false, true, true, false, false, false)
  const E109 := E(true, false, true, true, false, true, true, false, false, false)
  const E124 := E(false, false, true, true, true, true, true, false, false, false)
  const E125 := E(true, false, true, true, true, true, true, false, false, false)
  const E126 := E(false, true, true, true, true, true, true, false, false, false)
  const E128 := E(false, false, false, false, false, false, false, true, false, false)
  const E131 := E(true, true, false, false, false, false, false, true, false, false)
  const E150 := E(false, true, true, false, true, false, false, true, false, false)
  const E152 := E(false, false, false, true, true, false, false, true, false, false)
  const E162 := E(false, true, false, false, false, true, false, true, false, false)
  const E163 := E(true, true, false, false, false, true, false, true, false, false)
  const E166 := E(false, true, true, false, false, true, false, true, false, false)
  const E170 := E(false, true, false, true, false, true, false, true, false, false)
  const E176 := E(false, false, false, false, true, true, false, true, false, false)
  const E177 := E(true, false, false, false, true, true, false, true, false, false)
  const E191 := E(true, true, true, true, true, true, false, true, false, false)
  const E212 := E(false, false, true, false, true, false, true, true, false, false)
  const E229 := E(true, false, true, false, false, true, true, true, false, false)
  const E234 := E(false, true, false, true, false, true, true, true, false, false)
  const E235 := E(true, true, false, true, false, true, true, true, false, false)
  const E252 := E(false, false, true, true, true, true, true, true, false, false)
  const E256 := E(false, false, false, false, false, false, false, false, true, false)
  const E261 := E(true, false, true, false, false, false, false, false, true, false)
  const E270 := E(false, true, true, true, false, false, false, false, true, false)
  const E279 := E(true, true, true, false, true, false, false, false, true, false)
  const E281 := E(true, false, false, true, true, false, false, false, true, false)
  const E284 := E(false, false, true, true, true, false, false, false, true, false)
  const E304 := E(false, false, false, false, true, true, false, false, true, false)
  const E311 := E(true, true, true, false, true, true, false, false, true, false)
  const E314 := E(false, true, false, true, true, true, false, false, true, false)
  const E324 := E(false, false, true, false, false, false, true, false, true, false)
  const E326 := E(false, true, true, false, false, false, true, false, true, false)
  const E327 := E(true, true, true, false, false, false, true, false, true, false)
  const E371 := E(true, true, false, false, true, true, true, false, true, false)
  const E403 := E(true, true, false, false, true, false, false, true, true, false)
  const E419 := E(true, true, false, false, false, true, false, true, true, false)
  const E427 := E(true, true, false, true, false, true, false, true, true, false)
  const E437 := E(true, false, true, false, true, true, false, true, true, false)
  const E455 := E(true, true, true, false, false, false, true, true, true, false)
  const E459 := E(true, true, false, true, false, false, true, true, true, false)
  const E462 := E(false, true, true, true, false, false, true, true, true, false)
  const E469 := E(true, false, true, false, true, false, true, true, true, false)
  const E472 := E(false, false, false, true, true, false, true, true, true, false)
  const E477 := E(true, false, true, true, true, false, true, true, true, false)
  const E497 := E(true, false, false, false, true, true, true, true, true, false)
  const E504 := E(false, false, false, true, true, true, true, true, true, false)
  const E512 := E(false, false, false, false, false, false, false, false, false, true)
  const E523 := E(true, true, false, true, false, false, false, false, false, true)
  const E541 := E(true, false, true, true, true, false, false, false, false, true)
  const E545 := E(true, false, false, false, false, true, false, false, false, true)
  const E576 := E(false, false, false, false, false, false, true, false, false, true)
  const E582 := E(false, true, true, false, false, false, true, false, false, true)
  const E608 := E(false, false, false, false, false, true, true, false, false, true)
  const E611 := E(true, true, false, false, false, true, true, false, false, true)
  const E613 := E(true, false, true, false, false, true, true, false, false, true)
  const E617 := E(true, false, false, true, false, true, true, false, false, true)
  const E621 := E(true, false, true, true, false, true, true, false, false, true)
  const E645 := E(true, false, true, false, false, false, false, true, false, true)
  const E652 := E(false, false, true, true, false, false, false, true, false, true)
  const E654 := E(false, true, true, true, false, false, false, true, false, true)
  const E657 := E(true, false, false, false, true, false, false, true, false, true)
  const E661 := E(true, false, true, false, true, false, false, true, false, true)
  const E666 := E(false, true, false, true, true, false, false, true, false, true)
  const E679 := E(true, true, true, false, false, true, false, true, false, true)
  const E696 := E(false, false, false, true, true, true, false, true, false, true)
  const E697 := E(true, false, false, true, true, true, false, true, false, true)
  const E698 := E(false, true, false, true, true, true, false, true, false, true)
  const E720 := E(false, false, false, false, true, false, true, true, false, true)
  const E742 := E(false, true, true, false, false, true, true, true, false, true)
  const E770 := E(false, true, false, false, false, false, false, false, true, true)
  const E779 := E(true, true, false, true, false, false, false, false, true, true)
  const E789 := E(true, false, true, false, true, false, false, false, true, true)
  const E838 := E(false, true, true, false, false, false, true, false, true, true)
  const E842 := E(false, true, false, true, false, false, true, false, true, true)
  const E849 := E(true, false, false, false, true, false, true, false, true, true)
  const E854 := E(false, true, true, false, true, false, true, false, true, true)
  const E855 := E(true, true, true, false, true, false, true, false, true, true)
  const E856 := E(false, false, false, true, true, false, true, false, true, true)
  const E857 := E(true, false, false, true, true, false, true, false, true, true)
  const E867 := E(true, true, false, false, false, true, true, false, true, true)
  const E869 := E(true, false, true, false, false, true, true, false, true, true)
  const E870 := E(false, true, true, false, false, true, true, false, true, true)
  const E874 := E(false, true, false, true, false, true, true, false, true, true)
  const E884 := E(false, false, true, false, true, true, true, false, true, true)
  const E903 := E(true, true, true, false, false, false, false, true, true, true)
  const E924 := E(false, false, true, true, true, false, false, true, true, true)
  const E927 := E(true, true, true, true, true, false, false, true, true, true)
  const E928 := E(false, false, false, false, false, true, false, true, true, true)
  const E941 := E(true, false, true, true, false, true, false, true, true, true)
  const E942 := E(false, true, true, true, false, true, false, true, true, true)
  const E946 := E(false, true, false, false, true, true, false, true, true, true)
  const E969 := E(true, false, false, true, false, false, true, true, true, true)
  const E979 := E(true, true, false, false, true, false, true, true, true, true)
  const E991 := E(true, true, true, true, true, false, true, true, true, true)

  // ---------------------------------------------------------------- powers of y

  function At(n: nat): (r: Bits) {
    if n == 0 then ONE else Shift(At(n - 1))
  }

  lemma {:induction false} PowOf(n: nat)
    ensures Pow(n) == Of(At(n))
  {
    if n > 0 {
      PowOf(n - 1);
      UpOf(At(n - 1));
    }
  }

  /** The square, as a linear map. */
  function Square(e: Bits): (r: Bits) {
    E(((((e.b0 != e.b5) != e.b6) != e.b7) != e.b8) != e.b9,
      ((e.b5 != e.b6) != e.b7) != e.b9,
      ((e.b1 != e.b6) != e.b7) != e.b9,
      (e.b6 != e.b7) != e.b8,
      (e.b2 != e.b7) != e.b8,
      e.b5 != e.b6,
      e.b3 != e.b9,
      e.b6 != e.b7,
      ((((e.b4 != e.b5) != e.b6) != e.b7) != e.b8) != e.b9,
      e.b7)
  }

  lemma {:induction false} SquareShift(e: Bits)
    ensures Square(Shift(e)) == Shift(Shift(Square(e)))
  {
  }

  lemma {:induction false} AtDouble(n: nat)
    ensures At(2 * n) == Square(At(n))
  {
    if n > 0 {
      AtDouble(n - 1);
      SquareShift(At(n - 1));
    }
  }

  lemma {:induction false} At33()
    ensures At(33) == E176
  {
    assert At(0) == ONE && At(1) == E2;
    AtDouble(1);
    assert At(2) == E4;
    AtDouble(2);
    assert At(4) == E16;
    AtDouble(4);
    assert At(8) == E256;
    AtDouble(8);
    assert At(16) == E281;
    AtDouble(16);
    assert At(32) == E88;
    assert At(33) == E176;
  }

  lemma {:induction false} At93()
    ensures At(93) == E874
  {
    assert At(0) == ONE && At(1) == E2;
    AtDouble(1);
    assert At(2) == E4;
    AtDouble(2);
    assert At(4) == E16;
    assert At(5) == E32;
    AtDouble(5);
    assert At(10) == MODULUS;
    assert At(11) == E582;
    AtDouble(11);
    assert At(22) == E252;
    assert At(23) == E504;
    AtDouble(23);
    assert At(46) == E842;
    AtDouble(46);
    assert At(92) == E437;
    assert At(93) == E874;
  }

  lemma {:induction false} At341()
    ensures At(341) == E54
  {
    assert At(0) == ONE && At(1) == E2;
    AtDouble(1);
    assert At(2) == E4;
    AtDouble(2);
    assert At(4) == E16;
    assert At(5) == E32;
    AtDouble(5);
    assert At(10) == MODULUS;
    AtDouble(10);
    assert At(20) == E63;
    assert At(21) == E126;
    AtDouble(21);
    assert At(42) == E472;
    AtDouble(42);
    assert At(84) == E617;
    assert At(85) == E497;
    AtDouble(85);
    assert At(170) == E779;
    AtDouble(170);
    assert At(340) == E27;
    assert At(341) == E54;
  }

  lemma {:induction false} At1023()
    ensures At(1023) == ONE
  {
    assert At(0) == ONE && At(1) == E2;
    AtDouble(1);
    assert At(2) == E4;
    assert At(3) == E8;
    AtDouble(3);
    assert At(6) == E64;
    assert At(7) == E128;
    AtDouble(7);
    assert At(14) == E927;
    assert At(15) == E541;
    AtDouble(15);
    assert At(30) == E22;
    assert At(31) == E44;
    AtDouble(31);
    assert At(62) == E371;
    assert At(63) == E742;
    AtDouble(63);
    assert At(126) == E576;
    assert At(127) == E419;
    AtDouble(127);
    assert At(254) == E928;
    assert At(255) == E611;
    AtDouble(255);
    assert At(510) == E462;
    assert At(511) == E924;
    AtDouble(511);
    assert At(1022) == E657;
    assert At(1023) == ONE;
  }

  lemma {:induction false} PowAt(n: nat, e: Bits)
    requires At(n) == e
    ensures Pow(n) == Num(e)
  {
    PowOf(n);
  }

  /** y^1023 is one, and y^33, y^93 and y^341 are not. */
  lemma {:induction false} PowersOfY(n: nat)
    ensures n == 1023 ==> Pow(n) == 1
    ensures n == 33 || n == 93 || n == 341 ==> Pow(n) != 1
  {
    if n == 1023 {
      At1023();
      PowAt(n, ONE);
    } else if n == 33 {
      At33();
      PowAt(n, E176);
    } else if n == 93 {
      At93();
      PowAt(n, E874);
    } else if n == 341 {
      At341();
      PowAt(n, E54);
    }
  }
}
