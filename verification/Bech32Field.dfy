/**
 The field GF(1024), of which the zeros of the Bech32 generator are elements: the polynomials
 over GF(2) modulo y^10 + y^8 + y^5 + y + 1.  An element is the number whose bits are its
 coefficients.
 */
module Bech32Field {
  import opened Bech32
  import opened Numbers

  type Elem = e: nat | e < 1024

  // ---------------------------------------------------------------- sums and multiples by y

  function Sum(a: Elem, b: Elem): (r: Elem) {
    XorBound(a, b, 10);
    assert Pow2(10) == 1024;
    Xor(a, b)
  }

  lemma {:induction false} SumSelf(a: Elem)
    ensures Sum(a, a) == 0 && Sum(a, 0) == a && Sum(0, a) == a
  {
    XorSelf(a);
  }

  lemma {:induction false} SumFour(a: Elem, b: Elem, c: Elem, d: Elem)
    ensures Sum(Sum(a, b), Sum(c, d)) == Sum(Sum(a, c), Sum(b, d))
  {
    XorFour(a, b, c, d);
  }

  lemma {:induction false} SumAssoc(a: Elem, b: Elem, c: Elem)
    ensures Sum(Sum(a, b), c) == Sum(a, Sum(b, c)) && Sum(a, b) == Sum(b, a)
  {
    XorAssoc(a, b, c);
    XorComm(a, b);
  }

  function Pick(c: bool, b: Elem): (r: Elem) {
    if c then b else 0
  }

  lemma {:induction false} PickSum(o: bool, c: Elem, d: Elem)
    ensures Pick(o, Sum(c, d)) == Sum(Pick(o, c), Pick(o, d))
  {
    SumSelf(0);
  }

  lemma {:induction false} PickXor(a: bool, b: bool, c: Elem)
    ensures Pick(a != b, c) == Sum(Pick(a, c), Pick(b, c))
  {
    SumSelf(c);
  }

  /** Multiplication by y. */
  function Up(b: Elem): (r: Elem) {
    Sum(2 * (b % 512), Pick(b >= 512, 291))
  }

  lemma {:induction false} SumParts(a: Elem, b: Elem)
    ensures Sum(a, b) % 512 == Xor(a % 512, b % 512) && (Sum(a, b) >= 512 <==> (a >= 512) != (b >= 512))
  {
    assert Pow2(9) == 512;
    XorHighLow(a, b, 9);
    HighLow(a, 9);
    HighLow(b, 9);
    HighLow(Xor(a, b), 9);
    TopXor(a / 512, b / 512);
  }

  lemma {:induction false} TopXor(x: nat, y: nat)
    requires x < 2 && y < 2
    ensures Xor(x, y) == if x != y then 1 else 0
  {
    XorSelf(x);
  }

  lemma {:induction false} UpSum(a: Elem, b: Elem)
    ensures Up(Sum(a, b)) == Sum(Up(a), Up(b))
  {
    var x: Elem, y: Elem := 2 * (a % 512), 2 * (b % 512);
    SumParts(a, b);
    XorDouble(a % 512, 0, b % 512, 0);
    assert 2 * (Sum(a, b) % 512) == Sum(x, y);
    PickXor(a >= 512, b >= 512, 291);
    SumFour(x, y, Pick(a >= 512, 291), Pick(b >= 512, 291));
  }

  /** Multiplication by y^k. */
  function UpBy(c: Elem, k: nat): (r: Elem)
    decreases k
  {
    if k == 0 then c else Up(UpBy(c, k - 1))
  }

  lemma {:induction false} UpBySum(a: Elem, b: Elem, k: nat)
    ensures UpBy(Sum(a, b), k) == Sum(UpBy(a, k), UpBy(b, k))
  {
    if k > 0 {
      UpBySum(a, b, k - 1);
      UpSum(UpBy(a, k - 1), UpBy(b, k - 1));
    }
  }

  lemma {:induction false} UpByAdd(c: Elem, j: nat, k: nat)
    ensures UpBy(UpBy(c, j), k) == UpBy(c, j + k)
    decreases k
  {
    if k > 0 {
      UpByAdd(c, j, k - 1);
    }
  }

  lemma {:induction false} UpByZero(k: nat)
    ensures UpBy(0, k) == 0
  {
    if k > 0 {
      UpByZero(k - 1);
    }
  }

  // ---------------------------------------------------------------- products

  /** The multiples of `b` by the powers of y that the bits of `a` select. */
  function Mul(a: nat, b: Elem): (r: Elem) {
    if a == 0 then 0 else Sum(Pick(a % 2 == 1, b), Mul(a / 2, Up(b)))
  }

  lemma {:induction false} MulZero(a: nat)
    ensures Mul(a, 0) == 0
  {
    if a > 0 {
      assert Up(0) == 0;
      MulZero(a / 2);
    }
  }

  lemma {:induction false} MulSum(a: nat, b: Elem, c: Elem)
    ensures Mul(a, Sum(b, c)) == Sum(Mul(a, b), Mul(a, c))
  {
    if a == 0 {
      SumSelf(0);
    } else {
      var o, h := a % 2 == 1, a / 2;
      UpSum(b, c);
      MulSum(h, Up(b), Up(c));
      PickSum(o, b, c);
      SumFour(Pick(o, b), Pick(o, c), Mul(h, Up(b)), Mul(h, Up(c)));
    }
  }

  lemma {:induction false} MulUp(a: nat, b: Elem)
    ensures Mul(a, Up(b)) == Up(Mul(a, b))
  {
    assert Up(0) == 0;
    if a > 0 {
      MulUp(a / 2, Up(b));
      UpSum(Pick(a % 2 == 1, b), Mul(a / 2, Up(b)));
    }
  }

  lemma {:induction false} MulSwap(a: nat, b: nat, c: Elem)
    ensures Mul(a, Mul(b, c)) == Mul(b, Mul(a, c))
    decreases a
  {
    MulZero(b);
    if a > 0 {
      MulUp(b, c);
      MulSwap(a / 2, b, Up(c));
      MulSum(b, Pick(a % 2 == 1, c), Mul(a / 2, Up(c)));
    }
  }

  lemma {:induction false} UpSmall(w: Elem)
    requires w < 512
    ensures Up(w) == 2 * w
  {
    SumSelf(2 * w);
  }

  lemma {:induction false} OddPart(a: nat, h: nat, w: nat, x: Elem, y: Elem, k: nat)
    requires w == Pow2(k) && h == a / 2 && x == h * (2 * w) && y == if a % 2 == 1 then w else 0
    ensures Sum(y, x) == a * w
  {
    assert Pow2(k + 1) == 2 * w;
    XorDisjoint(h, y, k + 1);
    XorComm(x, y);
    assert a == 2 * h + a % 2;
    Distribute(2 * h, a % 2, w);
    Assoc(2, h, w);
    Assoc(h, 2, w);
  }

  /** Without overflow the product with a power of two is the product of the numbers. */
  lemma {:induction false} MulPow2(a: nat, k: nat, w: nat)
    requires k <= 10 && 0 < a < Pow2(10 - k) && w == Pow2(k)
    ensures w < 1024 && Mul(a, w) == a * w
    decreases a
  {
    var h := a / 2;
    SmallPower(k);
    if h == 0 {
      assert a == 1 && Mul(0, Up(w)) == 0;
      SumSelf(w);
    } else {
      assert Pow2(10 - k) == 2 * Pow2(9 - k);
      MulPow2(h, k + 1, 2 * w);
      SmallPower(k + 1);
      UpSmall(w);
      OddPart(a, h, w, Mul(h, 2 * w), Pick(a % 2 == 1, w), k);
    }
  }

  lemma {:induction false} SmallPower(k: nat)
    requires k <= 10 && 1 < Pow2(10 - k)
    ensures 2 * Pow2(k) <= 1024
  {
    assert Pow2(0) == 1;
    assert k < 10;
    Pow2Mono(k + 1, 10);
    assert Pow2(10) == 1024 && Pow2(k + 1) == 2 * Pow2(k);
  }

  lemma {:induction false} MulOne(a: Elem)
    ensures Mul(a, 1) == a
  {
    if a > 0 {
      assert Pow2(10) == 1024 && Pow2(0) == 1;
      MulPow2(a, 0, 1);
    }
  }

  lemma {:induction false} MulComm(a: Elem, b: Elem)
    ensures Mul(a, b) == Mul(b, a)
  {
    MulOne(a);
    MulOne(b);
    MulSwap(a, b, 1);
  }

  lemma {:induction false} MulAssoc(a: Elem, b: Elem, c: Elem)
    ensures Mul(Mul(a, b), c) == Mul(a, Mul(b, c))
  {
    MulComm(Mul(a, b), c);
    MulSwap(c, a, b);
    MulComm(b, c);
  }

  lemma {:induction false} MulSumLeft(a: Elem, b: Elem, c: Elem)
    ensures Mul(Sum(a, b), c) == Sum(Mul(a, c), Mul(b, c))
  {
    MulComm(Sum(a, b), c);
    MulSum(c, a, b);
    MulComm(a, c);
    MulComm(b, c);
  }

  lemma {:induction false} UpNonzero(a: Elem)
    requires a != 0
    ensures Up(a) != 0
  {
    if a < 512 {
      UpSmall(a);
    } else {
      XorBits(2 * (a % 512), 291);
    }
  }

  // ---------------------------------------------------------------- powers of y

  function Pow(n: nat): (r: Elem) {
    UpBy(1, n)
  }

  lemma {:induction false} MulUpBy(a: nat, c: Elem, n: nat)
    ensures Mul(a, UpBy(c, n)) == UpBy(Mul(a, c), n)
  {
    if n > 0 {
      MulUpBy(a, c, n - 1);
      MulUp(a, UpBy(c, n - 1));
    }
  }

  /** Multiplication by y^n is multiplication by the power. */
  lemma {:induction false} MulPow(a: Elem, n: nat)
    ensures Mul(Pow(n), a) == UpBy(a, n)
  {
    MulComm(Pow(n), a);
    MulUpBy(a, 1, n);
    MulOne(a);
  }

  lemma {:induction false} PowAdd(m: nat, n: nat)
    ensures Mul(Pow(m), Pow(n)) == Pow(m + n)
  {
    MulPow(Pow(n), m);
    UpByAdd(1, n, m);
  }

  lemma {:induction false} PowNonzero(n: nat)
    ensures Pow(n) != 0
  {
    if n > 0 {
      PowNonzero(n - 1);
      UpNonzero(Pow(n - 1));
    }
  }
}
