/**
 Facts about powers of two, division and bitwise "or" that the number formats share.
 */
module Numbers {

  const TWO_32 := 0x1_0000_0000
  const TWO_64 := 0x1_0000_0000_0000_0000

  type Byte = b: nat | b < 256

  type UInt64 = x: nat | x < TWO_64

  function One(b: bool): (n: nat)
    ensures n <= 1
  {
    if b then 1 else 0
  }

  function Max(a: int, b: int): int {
    if a < b then b else a
  }

  function Min(a: int, b: int): int {
    if a < b then a else b
  }

  // ---------------------------------------------------------------- products and quotients

  lemma {:induction false} MulMono(a: int, b: int, c: int)
    requires a <= b && 0 <= c
    ensures a * c <= b * c
  {
    assert b * c - a * c == (b - a) * c;
  }

  lemma {:induction false} MulPos(a: int, b: int)
    requires a > 0 && b > 0
    ensures a * b > 0 && a * b >= a && a * b >= b
  {
    MulMono(1, a, b);
    MulMono(1, b, a);
  }

  lemma {:induction false} MulNat(a: nat, b: nat)
    ensures a * b >= 0
  {
    if a > 0 && b > 0 {
      MulPos(a, b);
    }
  }

  lemma {:induction false} Distribute(a: int, b: int, c: int)
    ensures (a + b) * c == a * c + b * c
    ensures c * (a + b) == c * a + c * b
  {
  }

  lemma {:induction false} Assoc(a: int, b: int, c: int)
    ensures (a * b) * c == a * (b * c) == (a * c) * b
  {
  }

  lemma {:induction false} SmallMultiple(n: int, x: int)
    requires -n < n * x < n
    ensures x == 0
  {
  }

  /** Division is determined by its remainder bound. */
  lemma {:induction false} Quotient(a: int, n: int, q: int, r: int)
    requires n > 0 && a == q * n + r && 0 <= r < n
    ensures a / n == q && a % n == r
  {
    var q', r' := a / n, a % n;
    assert a == q' * n + r';
    assert n * (q - q') == q * n - q' * n;
    SmallMultiple(n, q - q');
  }

  lemma {:induction false} QuotientIn(a: int, n: int, q: int)
    requires n > 0 && q * n <= a < (q + 1) * n
    ensures a / n == q
  {
    Distribute(q, 1, n);
    Quotient(a, n, q, a - q * n);
  }

  lemma {:induction false} NatQuotient(n: nat, b: nat)
    requires b > 0
    ensures n / b >= 0 && n == n / b * b + n % b && n / b * b >= 0
  {
    if n / b < 0 {
      MulMono(n / b, -1, b);
    }
  }

  /** A number below a product has its quotient below the factor. */
  lemma {:induction false} DivBelow(a: int, n: int, m: int)
    requires n > 0 && 0 <= a < m * n
    ensures 0 <= a / n < m
  {
    if a / n >= m {
      MulMono(m, a / n, n);
    }
  }

  lemma {:induction false} DivTwice(v: int, p: int, c: int)
    requires p > 0 && c > 0 && v >= 0
    ensures p * c > 0 && v / (p * c) == v / p / c
  {
    var d, r := v / p, v % p;
    var q, r' := d / c, d % c;
    MulPos(p, c);
    assert v == d * p + r && d == q * c + r';
    Distribute(q * c, r', p);
    Assoc(q, c, p);
    MulMono(0, r', p);
    MulMono(r' + 1, c, p);
    Distribute(r', 1, p);
    Quotient(v, p * c, q, r' * p + r);
  }

  /** x * w, as a function that the solver does not take for arithmetic. */
  ghost function Scaled(x: nat, w: nat): (p: nat) {
    if x == 0 then 0 else w + Scaled(x - 1, w)
  }

  lemma {:induction false} ScaledIs(x: nat, w: nat)
    ensures Scaled(x, w) == x * w
  {
    if x > 0 {
      ScaledIs(x - 1, w);
      Distribute(x - 1, 1, w);
    }
  }

  lemma {:induction false} ScaledAdd(x: nat, y: nat, w: nat)
    ensures Scaled(x + y, w) == Scaled(x, w) + Scaled(y, w)
  {
    ScaledIs(x, w);
    ScaledIs(y, w);
    ScaledIs(x + y, w);
    Distribute(x, y, w);
  }

  lemma {:induction false} ScaledMono(x: nat, y: nat, w: nat)
    requires x <= y
    ensures Scaled(x, w) <= Scaled(y, w)
  {
    ScaledAdd(x, y - x, w);
  }

  lemma {:induction false} ScaledSplit(v: nat, x: nat, y: nat)
    ensures Scaled(v, x + y) == Scaled(v, x) + Scaled(v, y)
  {
    ScaledIs(v, x + y);
    ScaledIs(v, x);
    ScaledIs(v, y);
    Distribute(x, y, v);
  }

  lemma {:induction false} ScaledSwap(x: nat, w: nat, b: nat)
    requires b * x >= 0
    ensures Scaled(b * x, w) == Scaled(Scaled(x, w), b)
  {
    ScaledIs(x, w);
    ScaledIs(x * w, b);
    ScaledIs(b * x, w);
    Assoc(x, w, b);
    Assoc(b, x, w);
  }

  lemma {:induction false} ScaledTwice(x: nat, u: nat, v: nat)
    requires u * v >= 0
    ensures Scaled(x, u * v) == Scaled(Scaled(x, u), v)
  {
    ScaledIs(x, u);
    ScaledIs(x, u * v);
    ScaledIs(x * u, v);
    Assoc(x, u, v);
  }

  /** t % m, as a function that the solver does not take for arithmetic. */
  ghost function Mod(t: nat, m: nat): (r: nat)
    requires m > 0
    ensures r < m
  {
    if t < m then t else Mod(t - m, m)
  }

  lemma {:induction false} ModIs(t: nat, m: nat)
    requires m > 0
    ensures Mod(t, m) == t % m
  {
    if t < m {
      Quotient(t, m, 0, t);
    } else {
      ModIs(t - m, m);
      assert t - m == (t - m) / m * m + (t - m) % m;
      Distribute((t - m) / m, 1, m);
      Quotient(t, m, (t - m) / m + 1, (t - m) % m);
    }
  }

  lemma {:induction false} ModOf(v: nat, c: nat, m: nat)
    requires v < m
    ensures Mod(v + Scaled(c, m), m) == v
  {
    if c > 0 {
      ModOf(v, c - 1, m);
    }
  }

  lemma {:induction false} ModAdd(t: nat, u: nat, m: nat)
    requires m > 0
    ensures Mod(Mod(t, m) + u, m) == Mod(t + u, m)
  {
    if t >= m {
      ModAdd(t - m, u, m);
    }
  }

  // ---------------------------------------------------------------- powers of two

  function Pow2(k: nat): (p: nat)
    ensures p >= 1
  {
    if k == 0 then 1 else 2 * Pow2(k - 1)
  }

  lemma {:induction false} Pow2Add(a: nat, b: nat)
    ensures Pow2(a + b) == Pow2(a) * Pow2(b)
    decreases a
  {
    if a > 0 {
      Pow2Add(a - 1, b);
      assert Pow2(a + b) == 2 * Pow2(a - 1 + b);
      Assoc(2, Pow2(a - 1), Pow2(b));
    }
  }

  lemma {:induction false} Pow2Mono(a: nat, b: nat)
    requires a <= b
    ensures Pow2(a) <= Pow2(b)
    ensures Pow2(b) % Pow2(a) == 0
  {
    Pow2Add(b - a, a);
    MulMono(1, Pow2(b - a), Pow2(a));
    Quotient(Pow2(b), Pow2(a), Pow2(b - a), 0);
  }

  lemma {:induction false} Pow2Values()
    ensures Pow2(1) == 2 && Pow2(8) == 0x100 && Pow2(15) == 0x8000 && Pow2(16) == 0x1_0000
    ensures Pow2(23) == 0x80_0000 && Pow2(24) == 0x100_0000 && Pow2(32) == 0x1_0000_0000
    ensures Pow2(64) == 0x1_0000_0000_0000_0000
  {
    assert Pow2(4) == 16;
    Pow2Add(4, 4);
    Pow2Add(8, 8);
    assert Pow2(16) == 2 * Pow2(15);
    Pow2Add(16, 8);
    assert Pow2(24) == 2 * Pow2(23);
    Pow2Add(16, 16);
    Pow2Add(32, 32);
  }

  /** x >> k. */
  function High(x: nat, k: nat): (h: nat) {
    if k == 0 then x else High(x / 2, k - 1)
  }

  lemma {:induction false} HighIs(x: nat, k: nat)
    ensures High(x, k) == x / Pow2(k)
    decreases k
  {
    if k > 0 {
      HighIs(x / 2, k - 1);
      DivTwice(x, 2, Pow2(k - 1));
    }
  }

  // ---------------------------------------------------------------- bitwise or

  /** Bitwise or of two unsigned numbers. */
  function Or(x: nat, y: nat): (r: nat) {
    if x == 0 then y
    else if y == 0 then x
    else 2 * Or(x / 2, y / 2) + if x % 2 == 1 || y % 2 == 1 then 1 else 0
  }

  /** The low `c` bits of `x` are 0. */
  ghost predicate Aligned(x: nat, c: nat) {
    c == 0 || (x % 2 == 0 && Aligned(x / 2, c - 1))
  }

  lemma {:induction false} AlignedMultiple(q: nat, c: nat)
    requires q * Pow2(c) >= 0
    ensures Aligned(q * Pow2(c), c)
  {
    if c > 0 {
      MulMono(0, q, Pow2(c - 1));
      AlignedMultiple(q, c - 1);
      Assoc(2, q, Pow2(c - 1));
      Assoc(q, 2, Pow2(c - 1));
    }
  }

  /** There is room for another bit below the lowest one. */
  lemma {:induction false} AlignedRoom(x: nat, c: nat, n: nat)
    requires Aligned(x, c) && x < Pow2(n) && c <= n
    ensures x + Pow2(c) <= Pow2(n)
  {
    if c > 0 {
      AlignedRoom(x / 2, c - 1, n - 1);
    }
  }

  lemma {:induction false} AlignedBit(x: nat, c: nat)
    requires Aligned(x, c + 1)
    ensures Aligned(x, c) && Aligned(x + Pow2(c), c)
  {
    if c > 0 {
      AlignedBit(x / 2, c - 1);
      assert (x + Pow2(c)) / 2 == x / 2 + Pow2(c - 1);
    }
  }

  lemma {:induction false} AlignedZero(c: nat)
    ensures Aligned(0, c)
  {
    if c > 0 {
      AlignedZero(c - 1);
    }
  }

  /** Numbers with no common bits are added by "or". */
  lemma {:induction false} OrDisjoint(x: nat, y: nat, s: nat)
    requires x < Pow2(s) && Aligned(y, s)
    ensures Or(x, y) == x + y && Or(y, x) == x + y
  {
    if x != 0 && y != 0 {
      OrDisjoint(x / 2, y / 2, s - 1);
    }
  }
}
