/**
 Amount compression of coin records (src/compressor.cpp), with the wrap-around of 64-bit
 unsigned arithmetic.
 */
module Compressor {
  import opened Numbers

  /** MAX_MONEY (src/amount.h), the largest amount for which CompressAmount is declared. */
  const MAX_MONEY := 2_100_000_000_000_000_000

  /** The largest amount up to which compression does not wrap. */
  const NO_WRAP := 2_049_638_230_412_172_402

  // ---------------------------------------------------------------- without wrap-around

  /** Divide by 10 as long as possible, up to an exponent of 9. */
  function Strip(m: nat, e: nat): (r: (nat, nat))
    requires e <= 9 && m > 0
    ensures r.0 > 0 && e <= r.1 <= 9 && (r.1 < 9 ==> r.0 % 10 != 0)
    decreases 9 - e
  {
    if m % 10 == 0 && e < 9 then Strip(m / 10, e + 1) else (m, e)
  }

  /** m * 10^e. */
  function Up(m: nat, e: nat): (r: nat)
    decreases e
  {
    if e == 0 then m else Up(m * 10, e - 1)
  }

  function Pack(m: nat, e: nat): (x: nat)
    requires e <= 9 && m > 0 && (e < 9 ==> m % 10 != 0)
  {
    if e < 9 then 1 + (m / 10 * 9 + m % 10 - 1) * 10 + e else 1 + (m - 1) * 10 + 9
  }

  function Compressed(n: nat): (x: nat) {
    if n == 0 then 0 else var (m, e) := Strip(n, 0); Pack(m, e)
  }

  /** The number before its zeros are put back. */
  function Base(x: nat): (n: nat)
    requires x > 0
  {
    var y := (x - 1) / 10;
    if (x - 1) % 10 < 9 then y / 9 * 10 + y % 9 + 1 else y + 1
  }

  function Restored(x: nat): (n: nat) {
    if x == 0 then 0 else Up(Base(x), (x - 1) % 10)
  }

  lemma {:induction false} StripUp(m: nat, e: nat)
    requires e <= 9 && m > 0
    ensures Up(Strip(m, e).0, Strip(m, e).1) == Up(m, e)
    decreases 9 - e
  {
    if m % 10 == 0 && e < 9 {
      StripUp(m / 10, e + 1);
      assert Up(m / 10, e + 1) == Up(m / 10 * 10, e);
    }
  }

  lemma {:induction false} PackBase(m: nat, e: nat)
    requires e <= 9 && m > 0 && (e < 9 ==> m % 10 != 0)
    ensures Pack(m, e) > 0 && Base(Pack(m, e)) == m && (Pack(m, e) - 1) % 10 == e
  {
    if e < 9 {
      var y := m / 10 * 9 + m % 10 - 1;
      assert (Pack(m, e) - 1) / 10 == y && y / 9 == m / 10 && y % 9 == m % 10 - 1;
    }
  }

  /** Without wrap-around every amount is restored. */
  lemma {:induction false} RestoresCompressed(n: nat)
    ensures Restored(Compressed(n)) == n
  {
    if n > 0 {
      var (m, e) := Strip(n, 0);
      PackBase(m, e);
      StripUp(n, 0);
    }
  }

  lemma {:induction false} UpStrip(m: nat, e: nat, k: nat)
    requires m > 0 && k + e <= 9 && (k + e < 9 ==> m % 10 != 0)
    ensures Up(m, e) > 0 && Strip(Up(m, e), k) == (m, k + e)
    decreases e
  {
    if e > 0 {
      UpLast(m, e);
      UpStrip(m, e - 1, k + 1);
      StripTen(Up(m, e - 1), k);
    }
  }

  lemma {:induction false} StripTen(n: nat, k: nat)
    requires n > 0 && k < 9
    ensures Strip(n * 10, k) == Strip(n, k + 1)
  {
    assert n * 10 % 10 == 0 && n * 10 / 10 == n;
  }

  lemma {:induction false} UpLast(m: nat, e: nat)
    requires e > 0
    ensures Up(m, e) == Up(m, e - 1) * 10
    decreases e
  {
    if e > 1 {
      UpLast(m * 10, e - 1);
    }
  }

  /** Every number is the compressed form of one amount. */
  lemma {:induction false} CompressesRestored(x: nat)
    ensures Compressed(Restored(x)) == x
  {
    if x > 0 {
      BasePack(x);
      UpStrip(Base(x), (x - 1) % 10, 0);
    }
  }

  lemma {:induction false} BasePack(x: nat)
    requires x > 0
    ensures var m, e := Base(x), (x - 1) % 10;
            m > 0 && (e < 9 ==> m % 10 != 0) && Pack(m, e) == x
  {
    var y, e := (x - 1) / 10, (x - 1) % 10;
    assert x == 10 * y + e + 1;
    if e < 9 {
      var q, r := y / 9, y % 9;
      assert y == 9 * q + r && Base(x) == 10 * q + (r + 1);
      DigitOf(q, r + 1);
    }
  }

  lemma {:induction false} DigitOf(q: nat, d: nat)
    requires d < 10
    ensures (10 * q + d) / 10 == q && (10 * q + d) % 10 == d
  {
  }

  // ---------------------------------------------------------------- the operations

  method CompressAmount(amount: UInt64) returns (x: UInt64)
    ensures x == Compressed(amount) % TWO_64
  {
    if amount == 0 {
      return 0;
    }
    var n: nat, e := amount, 0;
    while n % 10 == 0 && e < 9
      invariant 0 < n < TWO_64 && e <= 9 && Strip(n, e) == Strip(amount, 0)
      decreases 9 - e
    {
      n, e := n / 10, e + 1;
    }
    if e < 9 {
      var d := n % 10;
      n := n / 10;
      x := (1 + (n * 9 % TWO_64 + d - 1) % TWO_64 * 10 % TWO_64 + e) % TWO_64;
      WrapDigits(n, d, e);
    } else {
      x := (1 + (n - 1) * 10 % TWO_64 + 9) % TWO_64;
      WrapSum((n - 1) * 10, 10);
    }
  }

  lemma {:induction false} WrapMore(t: nat, k: nat)
    ensures (t + k * TWO_64) % TWO_64 == t % TWO_64
  {
  }

  lemma {:induction false} WrapSum(t: nat, c: nat)
    ensures (t % TWO_64 + c) % TWO_64 == (t + c) % TWO_64
  {
    WrapMore(t % TWO_64 + c, t / TWO_64);
  }

  lemma {:induction false} WrapTimes(t: nat)
    ensures t % TWO_64 * 10 % TWO_64 == t * 10 % TWO_64
  {
    WrapMore(t % TWO_64 * 10, t / TWO_64 * 10);
  }

  lemma {:induction false} WrapDigits(n: nat, d: nat, e: nat)
    requires d > 0
    ensures (1 + (n * 9 % TWO_64 + d - 1) % TWO_64 * 10 % TWO_64 + e) % TWO_64 ==
              (1 + (n * 9 + d - 1) * 10 + e) % TWO_64
  {
    WrapSum(n * 9, d - 1);
    WrapTimes(n * 9 % TWO_64 + d - 1);
    WrapTimes(n * 9 + d - 1);
    WrapSum((n * 9 + d - 1) * 10, 1 + e);
  }

  method DecompressAmount(amount: UInt64) returns (n: UInt64)
    ensures n == Restored(amount) % TWO_64
  {
    if amount == 0 {
      return 0;
    }
    var x: nat := amount - 1;
    var e := x % 10;
    x := x / 10;
    if e < 9 {
      var d := x % 9 + 1;
      x := x / 9;
      n := (x * 10 + d) % TWO_64;
    } else {
      n := (x + 1) % TWO_64;
    }
    ghost var full: nat := Base(amount);
    while e != 0
      invariant 0 <= e <= 9 && n == full % TWO_64 && Up(full, e) == Restored(amount)
      decreases e
    {
      WrapTimes(full);
      n := n * 10 % TWO_64;
      full, e := full * 10, e - 1;
    }
  }

  // ---------------------------------------------------------------- when an amount is restored

  lemma {:induction false} StripBound(m: nat, e: nat)
    requires e <= 9 && m > 0
    ensures Strip(m, e).0 <= m
    decreases 9 - e
  {
    if m % 10 == 0 && e < 9 {
      StripBound(m / 10, e + 1);
    }
  }

  lemma {:induction false} NoWrap(n: UInt64)
    ensures Compressed(n) < TWO_64 <==> n % 10 == 0 || n <= NO_WRAP
  {
    if n > 0 && n % 10 == 0 {
      StripBound(n / 10, 1);
    }
  }

  /** 2^64 / 10, rounded up. */
  const STEP := 1_844_674_407_370_955_162

  /** A wrapped form is taken for one with four zeros. */
  lemma {:induction false} WrappedForm(n: UInt64)
    requires n % 10 != 0 && NO_WRAP < n <= MAX_MONEY
    ensures var y := n / 10 * 9 + n % 10 - 1 - STEP;
            && y >= 0 && Compressed(n) % TWO_64 == 10 * y + 5
            && Restored(Compressed(n) % TWO_64) == (y / 9 * 10 + y % 9 + 1) * 10000
  {
    var y := n / 10 * 9 + n % 10 - 1 - STEP;
    NotStripped(n);
    WrapMore(10 * y + 5, 1);
    FourZeros(y);
  }

  lemma {:induction false} NotStripped(n: nat)
    requires n % 10 != 0
    ensures Compressed(n) == 1 + (n / 10 * 9 + n % 10 - 1) * 10
  {
  }

  lemma {:induction false} FourZeros(y: nat)
    ensures Restored(10 * y + 5) == (y / 9 * 10 + y % 9 + 1) * 10000
  {
    DigitOf(y, 4);
    assert 10 * y + 5 - 1 == 10 * y + 4;
    UpFour(Base(10 * y + 5));
  }

  lemma {:induction false} UpFour(m: nat)
    ensures Up(m, 4) == m * 10000
  {
    assert Up(m, 4) == Up(m * 10, 3) == Up(m * 10 * 10, 2) == Up(m * 10 * 10 * 10, 1);
  }

  lemma {:induction false} NoWholeNumber(p: int, j: nat, r: nat)
    requires j < 28 && r in {65761, 55762, 35763, 25764, 15765, 5766, 95757, 85758, 75759}
    ensures 99990 * p != j * 11896 + r
  {
  }

  /** No wrapped form is restored to its amount by chance: with n == 10 * p + d, the wraps `j` and the
      last digit `d` leave no whole number for p. */
  lemma {:induction false} NoCoincidence(p: nat, d: nat, a: nat, b: nat, j: nat)
    requires 1 <= d <= 9 && 1 <= b <= 9 && 9 * a + b == 9 * p + d - STEP && 10 * p + d <= MAX_MONEY
    ensures 10000 * (10 * a + b) != 10 * p + d + j * TWO_64
  {
    if j < 28 {
      NoCoincidenceBelow(p, d, a, b, j);
    }
  }

  lemma {:induction false} NoCoincidenceBelow(p: nat, d: nat, a: nat, b: nat, j: nat)
    requires 1 <= d <= 9 && 1 <= b <= 9 && 9 * a + b == 9 * p + d - STEP && j < 28
    ensures 10000 * (10 * a + b) != 10 * p + d + j * TWO_64
  {
    if d == 1 {
      assert b == 8 && a == p - 204963823041217241;
      NoWholeNumber(p - j * 184485889326028 - 204984321473364576, j, 65761);
    } else if d == 2 {
      assert b == 9 && a == p - 204963823041217241;
      NoWholeNumber(p - j * 184485889326028 - 204984321473364576, j, 55762);
    } else if d == 3 {
      assert b == 1 && a == p - 204963823041217240;
      NoWholeNumber(p - j * 184485889326028 - 204984321473364576, j, 35763);
    } else if d == 4 {
      assert b == 2 && a == p - 204963823041217240;
      NoWholeNumber(p - j * 184485889326028 - 204984321473364576, j, 25764);
    } else if d == 5 {
      assert b == 3 && a == p - 204963823041217240;
      NoWholeNumber(p - j * 184485889326028 - 204984321473364576, j, 15765);
    } else if d == 6 {
      assert b == 4 && a == p - 204963823041217240;
      NoWholeNumber(p - j * 184485889326028 - 204984321473364576, j, 5766);
    } else if d == 7 {
      assert b == 5 && a == p - 204963823041217240;
      NoWholeNumber(p - j * 184485889326028 - 204984321473364575, j, 95757);
    } else if d == 8 {
      assert b == 6 && a == p - 204963823041217240;
      NoWholeNumber(p - j * 184485889326028 - 204984321473364575, j, 85758);
    } else {
      assert b == 7 && a == p - 204963823041217240;
      NoWholeNumber(p - j * 184485889326028 - 204984321473364575, j, 75759);
    }
  }

  /** Within the declared range an amount is restored exactly if its compression does not wrap:
      if it is a multiple of 10 or at most NO_WRAP. */
  lemma {:induction false} AmountRoundTrip(n: UInt64)
    ensures n % 10 == 0 || n <= NO_WRAP ==> Restored(Compressed(n) % TWO_64) % TWO_64 == n
    ensures n <= MAX_MONEY && Restored(Compressed(n) % TWO_64) % TWO_64 == n ==> n % 10 == 0 || n <= NO_WRAP
  {
    NoWrap(n);
    if n % 10 == 0 || n <= NO_WRAP {
      RestoresCompressed(n);
      NotWrapped(n, Compressed(n));
    } else if n <= MAX_MONEY {
      WrapLoses(n);
    }
  }

  lemma {:induction false} NotWrapped(n: UInt64, x: nat)
    requires x < TWO_64 && Restored(x) == n
    ensures Restored(x % TWO_64) % TWO_64 == n
  {
    assert x % TWO_64 == x;
  }

  lemma {:induction false} WrapLoses(n: UInt64)
    requires n % 10 != 0 && NO_WRAP < n <= MAX_MONEY
    ensures Restored(Compressed(n) % TWO_64) % TWO_64 != n
  {
    WrappedForm(n);
    var p, d := n / 10, n % 10;
    var y := p * 9 + d - 1 - STEP;
    var a, b := y / 9, y % 9 + 1;
    NotResidue(10000 * (10 * a + b), p, d, a, b);
  }

  lemma {:induction false} NotResidue(r: nat, p: nat, d: nat, a: nat, b: nat)
    requires 1 <= d <= 9 && 1 <= b <= 9 && 9 * a + b == 9 * p + d - STEP && 10 * p + d <= MAX_MONEY
    requires r == 10000 * (10 * a + b)
    ensures r % TWO_64 != 10 * p + d
  {
    NoCoincidence(p, d, a, b, r / TWO_64);
  }
}
