/**
 How long the walk to an ancestor along the skip list is (src/chain.cpp).

 Numbers are looked at bit by bit, in tables of those below a bound.  Above the place
 where two heights first differ, a skip pointer clears ones of the higher one.
 */
module ChainWalk {
  import opened Chain
  import opened Numbers

  // ---------------------------------------------------------------- bits

  function Ones(x: nat): (n: nat) {
    if x == 0 then 0 else x % 2 + Ones(x / 2)
  }

  lemma {:induction false} AndSelf(x: nat)
    ensures And(x, x) == x
  {
    if x > 0 {
      AndSelf(x / 2);
    }
  }

  /** The number without its lowest one. */
  function Cleared(n: nat): (r: nat)
    ensures n > 0 ==> r < n && r % 2 == 0
    ensures n == 0 ==> r == 0
  {
    if n == 0 then 0 else if n % 2 == 1 then n - 1 else 2 * Cleared(n / 2)
  }

  lemma {:induction false} ClearedIs(n: nat)
    ensures InvertLowestOne(n) == Cleared(n)
  {
    if n % 2 == 1 {
      AndSelf(n / 2);
      assert (n - 1) / 2 == n / 2;
    } else if n > 0 {
      assert (n - 1) / 2 == n / 2 - 1;
      ClearedIs(n / 2);
    }
  }

  /** GetSkipHeight, bit by bit. */
  function SkipHeight(h: nat): (s: nat)
    ensures h > 0 ==> s < h
  {
    if h < 2 then 0 else if h % 2 == 0 then Cleared(h) else Cleared(Cleared(h - 1)) + 1
  }

  lemma {:induction false} SkipHeightIs(h: nat)
    ensures GetSkipHeight(h) == SkipHeight(h)
  {
    ClearedIs(h);
    if h > 1 {
      ClearedIs(h - 1);
      ClearedIs(Cleared(h - 1));
    }
  }

  /** One step, with the heights where the skip pointers of `h` and of the block before lead. */
  lemma {:induction false} OneStep(h: nat, t: nat, skip: nat, prev: nat)
    requires t < h && skip == GetSkipHeight(h) && prev == GetSkipHeight(h - 1)
    ensures Steps(h, t)
         == 1 + Steps(if skip == t || (skip > t && !(prev < skip - 2 && prev >= t)) then skip else h - 1, t)
  {
  }

  // ---------------------------------------------------------------- tables

  /** For every number below a bound: itself without its lowest one, its ones, and its skip height. */
  datatype Bits = Bits(cleared: seq<nat>, ones: seq<nat>, skip: seq<nat>)

  ghost predicate HalfAt(b: Bits, m: nat)
    requires |b.cleared| == |b.ones| && 2 * m + 1 < |b.ones|
  {
    && b.ones[2 * m] == b.ones[m] && b.ones[2 * m + 1] == b.ones[m] + 1
    && b.cleared[2 * m] == 2 * b.cleared[m] && b.cleared[2 * m + 1] == 2 * m
  }

  ghost predicate LessAt(b: Bits, n: nat)
    requires n < |b.cleared|
  {
    if n == 0 then b.cleared[n] == 0 else b.cleared[n] < n
  }

  ghost predicate SkipAt(b: Bits, m: nat)
    requires |b.cleared| == |b.skip| && 2 * m + 1 < |b.skip|
  {
    && b.skip[2 * m] == b.cleared[2 * m]
    && var c := b.cleared[2 * m]; c < |b.skip| && b.skip[2 * m + 1] == if m == 0 then 0 else b.cleared[c] + 1
  }

  ghost predicate BitsOk(b: Bits) {
    && |b.cleared| == |b.ones| == |b.skip| && |b.ones| > 0 && b.ones[0] == 0
    && (forall m {:trigger HalfAt(b, m)} :: 0 <= m && 2 * m + 1 < |b.ones| ==> HalfAt(b, m))
    && (forall n {:trigger LessAt(b, n)} :: 0 <= n < |b.ones| ==> LessAt(b, n))
    && forall m {:trigger SkipAt(b, m)} :: 0 <= m && 2 * m + 1 < |b.ones| ==> SkipAt(b, m)
  }

  function BitsBelow(n: nat): (b: Bits) {
    Bits(seq(n, x requires x >= 0 => Cleared(x)), seq(n, x requires x >= 0 => Ones(x)),
         seq(n, x requires x >= 0 => SkipHeight(x)))
  }

  lemma {:induction false} HalfHolds(n: nat, m: nat)
    requires 2 * m + 1 < n
    ensures HalfAt(BitsBelow(n), m)
  {
    assert 2 * m / 2 == m && (2 * m + 1) / 2 == m;
  }

  lemma {:induction false} SkipHolds(n: nat, m: nat)
    requires 2 * m + 1 < n
    ensures SkipAt(BitsBelow(n), m)
  {
  }

  lemma {:induction false} BitsBelowOk(n: nat)
    requires n > 0
    ensures BitsOk(BitsBelow(n))
  {
    var b := BitsBelow(n);
    forall m: nat | 2 * m + 1 < n ensures HalfAt(b, m) {
      HalfHolds(n, m);
    }
    forall m: nat | 2 * m + 1 < n ensures SkipAt(b, m) {
      SkipHolds(n, m);
    }
    forall x: nat | x < n ensures LessAt(b, x) {
    }
  }

  // ---------------------------------------------------------------- clearing ones

  lemma {:induction false} ClearedHalf(b: Bits, n: nat) returns (k: nat)
    requires BitsOk(b) && n + 1 < |b.ones|
    ensures b.cleared[n] == 2 * k && 2 * k <= n && (n > 0 ==> 2 * k < n)
  {
    var m := n / 2;
    assert HalfAt(b, m) && LessAt(b, n) && LessAt(b, m);
    k := if n == 2 * m then b.cleared[m] else m;
  }

  lemma {:induction false} ClearedOnes(b: Bits, n: nat)
    requires BitsOk(b) && 0 < n && n + 1 < |b.ones|
    ensures b.cleared[n] < n && b.ones[b.cleared[n]] + 1 == b.ones[n]
  {
    var m := n / 2;
    assert HalfAt(b, m) && LessAt(b, n);
    if n == 2 * m {
      ClearedOnes(b, m);
      assert HalfAt(b, b.cleared[m]);
    }
  }

  /** The two lowest ones of a number go, and a one comes. */
  lemma {:induction false} TwoLess(b: Bits, u: nat, v: nat, w: nat)
    requires BitsOk(b) && 0 < v < u && u + 1 < |b.ones| && v == b.cleared[u] && w == b.cleared[v]
    ensures w + 1 < u && b.ones[w + 1] + 1 == b.ones[u]
  {
    ClearedOnes(b, u);
    ClearedOnes(b, v);
    var k := ClearedHalf(b, v);
    assert HalfAt(b, k);
  }

  /** Without its two lowest ones z - 1 is less than z without one only if z - 1 has no more ones than z. */
  lemma {:induction false} ClearedBefore(b: Bits, z: nat, v: nat, w: nat)
    requires BitsOk(b) && z > 0 && z + 1 < |b.ones| && v == b.cleared[z - 1] && v < |b.ones|
    requires w == b.cleared[v] < b.cleared[z]
    ensures b.ones[z - 1] <= b.ones[z]
  {
    var m := z / 2;
    assert HalfAt(b, m);
    if z == 2 * m {
      var j := m / 2;
      assert HalfAt(b, j) && HalfAt(b, m - 1);
      if m == 2 * j {
        ClearedFour(b, j, v, w);
      }
    }
  }

  lemma {:induction false} ClearedFour(b: Bits, j: nat, v: nat, w: nat)
    requires BitsOk(b) && j > 0 && 4 * j + 1 < |b.ones| && v == b.cleared[4 * j - 1] && v < |b.ones|
    requires w == b.cleared[v]
    ensures w >= b.cleared[4 * j]
  {
    assert HalfAt(b, 2 * j) && HalfAt(b, j) && LessAt(b, j);
    assert HalfAt(b, 2 * j - 1) && HalfAt(b, j - 1);
    assert 2 * (2 * j) == 4 * j && 2 * (2 * j - 1) + 1 == 4 * j - 1 && 2 * (j - 1) + 1 == 2 * j - 1;
  }

  /** A skip pointer that is better after a step back from an even number clears a one as well. */
  lemma {:induction false} BetterSkip(b: Bits, z: nat, u: nat, v: nat, w: nat)
    requires BitsOk(b) && u == 2 * z - 2 && 2 * z + 1 < |b.ones| && z > 0
    requires v == b.cleared[u] && v < |b.ones| && w == b.cleared[v] && w + 3 < b.cleared[2 * z]
    ensures b.ones[u] <= b.ones[2 * z]
  {
    assert HalfAt(b, z) && HalfAt(b, z - 1) && LessAt(b, z - 1);
    var c := b.cleared[z - 1];
    assert HalfAt(b, c);
    ClearedBefore(b, z, c, b.cleared[c]);
  }

  // ---------------------------------------------------------------- above an odd multiple of 2^p

  /** (2 * q + 1) * 2^p */
  function OddMultiple(q: nat, p: nat): (r: nat)
    ensures r >= 1
  {
    if p == 0 then 2 * q + 1 else 2 * OddMultiple(q, p - 1)
  }

  lemma {:induction false} ClearBase(b: Bits, q: nat, p: nat, base: nat)
    requires BitsOk(b) && base == OddMultiple(q, p) && base + 1 < |b.ones|
    ensures b.cleared[base] == base - Pow2(p)
  {
    if p == 0 {
      assert HalfAt(b, q);
    } else {
      ClearBase(b, q, p - 1, OddMultiple(q, p - 1));
      assert HalfAt(b, OddMultiple(q, p - 1));
    }
  }

  lemma {:induction false} ClearAbove(b: Bits, q: nat, p: nat, base: nat, x: nat)
    requires BitsOk(b) && base == OddMultiple(q, p) && 0 < x < Pow2(p) && base + x + 1 < |b.ones|
    ensures b.cleared[base + x] == base + b.cleared[x]
  {
    var half, m := OddMultiple(q, p - 1), x / 2;
    assert HalfAt(b, m) && HalfAt(b, half + m);
    if x == 2 * m {
      assert base + x == 2 * (half + m);
      ClearAbove(b, q, p - 1, half, m);
    } else {
      assert base + x == 2 * (half + m) + 1;
    }
  }

  /** The skip pointer of an odd height with more ones clears two of them. */
  lemma {:induction false} SkipOdd(b: Bits, q: nat, p: nat, base: nat, m: nat, v: nat, w: nat)
    requires BitsOk(b) && base == OddMultiple(q, p) && p > 0 && 2 * m + 1 < Pow2(p) && base + 2 * m + 2 < |b.ones|
    requires v == b.cleared[2 * m] > 0 && v < 2 * m && w == b.cleared[v]
    ensures b.skip[base + 2 * m + 1] == base + w + 1 && w + 1 < 2 * m && b.ones[w + 1] + 1 == b.ones[2 * m]
  {
    var half := OddMultiple(q, p - 1);
    ClearAbove(b, q, p, base, 2 * m);
    ClearAbove(b, q, p, base, v);
    TwoLess(b, 2 * m, v, w);
    assert base + 2 * m == 2 * (half + m);
    assert SkipAt(b, half + m);
  }

  /** With fewer ones it leads below the multiple. */
  lemma {:induction false} SkipOddBelow(b: Bits, q: nat, p: nat, base: nat, m: nat)
    requires BitsOk(b) && base == OddMultiple(q, p) && p > 0 && 2 * m + 1 < Pow2(p) && base + 2 * m + 2 < |b.ones|
    requires b.cleared[2 * m] == 0
    ensures b.skip[base + 2 * m + 1] < base
  {
    var half := OddMultiple(q, p - 1);
    assert base + 2 * m == 2 * (half + m);
    assert SkipAt(b, half + m);
    ClearBase(b, q, p, base);
    if m > 0 {
      ClearAbove(b, q, p, base, 2 * m);
    } else {
      assert LessAt(b, b.cleared[base]);
    }
  }

  /** The skip pointer of an even height clears a one. */
  lemma {:induction false} SkipEven(b: Bits, q: nat, p: nat, base: nat, m: nat)
    requires BitsOk(b) && base == OddMultiple(q, p) && p > 0 && 0 < 2 * m < Pow2(p) && base + 2 * m + 2 < |b.ones|
    ensures b.skip[base + 2 * m] == base + b.cleared[2 * m] && b.cleared[2 * m] < 2 * m
    ensures b.ones[b.cleared[2 * m]] < b.ones[2 * m]
  {
    var half := OddMultiple(q, p - 1);
    assert base + 2 * m == 2 * (half + m);
    assert SkipAt(b, half + m);
    ClearAbove(b, q, p, base, 2 * m);
    ClearedOnes(b, 2 * m);
  }

  // ---------------------------------------------------------------- walks as tables

  /** How one step of the walk to `t` changes its length `f`, when the skip pointers lead to the heights `skip`. */
  ghost predicate LengthAt(f: seq<nat>, skip: seq<nat>, t: nat, h: nat)
    requires 0 < h < |f| == |skip|
  {
    var s, prev := skip[h], skip[h - 1];
    s < h && f[h] == 1 + f[if s == t || (s > t && !(prev < s - 2 && prev >= t)) then s else h - 1]
  }

  ghost predicate IsLength(f: seq<nat>, skip: seq<nat>, t: nat) {
    |f| == |skip| && forall h {:trigger LengthAt(f, skip, t, h)} :: t < h < |f| ==> LengthAt(f, skip, t, h)
  }

  /**
   Where the skip pointers lead from a height `x` above `base`: below it, or to a height with fewer ones; and at
   an even height a better one of the block before does so too.
   */
  ghost predicate SkipsDown(skip: seq<nat>, ones: seq<nat>, base: nat, x: nat)
    requires 0 < x < |ones| && base + x < |skip|
  {
    var s, prev := skip[base + x], skip[base + (x - 1)];
    && ones[x] > 0 && s < base + x && (s >= base ==> ones[s - base] < ones[x])
    && if x % 2 == 1 then prev >= s - 1 && ones[x - 1] < ones[x]
       else s >= base && (base <= prev < s - 2 ==> ones[prev - base] < ones[x])
  }

  ghost predicate AllSkipDown(skip: seq<nat>, ones: seq<nat>, base: nat) {
    && base + |ones| <= |skip|
    && forall x {:trigger SkipsDown(skip, ones, base, x)} :: 0 < x < |ones| ==> SkipsDown(skip, ones, base, x)
  }

  /** All walks inside the block below `base` take at most `b` steps. */
  ghost predicate Within(f: seq<nat>, base: nat, t: nat, b: nat)
    requires base <= |f|
  {
    forall a :: t <= a < base ==> f[a] <= b
  }

  /** So every one of `x` costs at most two steps, on top of one step and the walk below `base`. */
  lemma {:induction false} Walk(f: seq<nat>, skip: seq<nat>, ones: seq<nat>, base: nat, x: nat, t: nat, b: nat)
    requires AllSkipDown(skip, ones, base) && x < |ones|
    requires t < base && IsLength(f, skip, t) && Within(f, base, t, b)
    ensures f[base + x] <= 2 * ones[x] + 1 + b
    decreases x
  {
    assert LengthAt(f, skip, t, base + x);
    if x > 0 {
      assert SkipsDown(skip, ones, base, x);
      var s, prev := skip[base + x], skip[base + (x - 1)];
      if x % 2 == 1 {
        if s >= base {
          Walk(f, skip, ones, base, s - base, t, b);
        } else if s < t {
          Walk(f, skip, ones, base, x - 1, t, b);
        }
      } else if f[base + x] == 1 + f[s] {
        Walk(f, skip, ones, base, s - base, t, b);
      } else {
        assert SkipsDown(skip, ones, base, x - 1) && LengthAt(f, skip, t, base + (x - 1));
        assert f[base + (x - 1)] == 1 + f[prev];
        if prev >= base {
          Walk(f, skip, ones, base, prev - base, t, b);
        }
      }
    }
  }

  // ---------------------------------------------------------------- the walk

  /** At an odd height the block before has no better skip pointer. */
  lemma {:induction false} OddPrevious(b: Bits, m: nat)
    requires BitsOk(b) && 2 * m + 1 < |b.ones|
    ensures b.skip[2 * m] + 1 >= b.skip[2 * m + 1]
  {
    assert SkipAt(b, m);
    assert LessAt(b, b.cleared[2 * m]);
  }

  lemma {:induction false} OddDown(b: Bits, q: nat, p: nat, base: nat, m: nat)
    requires BitsOk(b) && base == OddMultiple(q, p) && p > 0 && 2 * m + 1 < Pow2(p) && base + Pow2(p) < |b.ones|
    ensures SkipsDown(b.skip, b.ones, base, 2 * m + 1)
  {
    assert HalfAt(b, m) && LessAt(b, 2 * m);
    OddPrevious(b, OddMultiple(q, p - 1) + m);
    assert base + 2 * m == 2 * (OddMultiple(q, p - 1) + m);
    var v := b.cleared[2 * m];
    if v > 0 {
      SkipOdd(b, q, p, base, m, v, b.cleared[v]);
    } else {
      SkipOddBelow(b, q, p, base, m);
    }
  }

  lemma {:induction false} EvenDown(b: Bits, q: nat, p: nat, base: nat, m: nat)
    requires BitsOk(b) && base == OddMultiple(q, p) && p > 0 && 0 < 2 * m < Pow2(p) && base + Pow2(p) < |b.ones|
    ensures SkipsDown(b.skip, b.ones, base, 2 * m)
  {
    SkipEven(b, q, p, base, m);
    var u := 2 * m - 2;
    assert LessAt(b, u);
    var v := b.cleared[u];
    assert base + (2 * m - 1) == base + 2 * (m - 1) + 1;
    if v > 0 {
      var w := b.cleared[v];
      SkipOdd(b, q, p, base, m - 1, v, w);
      if w + 3 < b.cleared[2 * m] {
        BetterSkip(b, m, u, v, w);
      }
    } else {
      SkipOddBelow(b, q, p, base, m - 1);
    }
  }

  function LengthTable(t: nat, n: nat): (r: seq<nat>) {
    seq(n, h requires h >= 0 => if h >= t then Steps(h, t) else 0)
  }

  lemma {:induction false} StepsAreLength(t: nat, n: nat)
    ensures IsLength(LengthTable(t, n), BitsBelow(n).skip, t)
  {
    forall h: nat | t < h < n
      ensures LengthAt(LengthTable(t, n), BitsBelow(n).skip, t, h)
    {
      SkipHeightIs(h);
      SkipHeightIs(h - 1);
      OneStep(h, t, SkipHeight(h), SkipHeight(h - 1));
    }
  }

  lemma {:induction false} AllDown(b: Bits, q: nat, p: nat, base: nat)
    requires BitsOk(b) && base == OddMultiple(q, p) && base + Pow2(p) < |b.ones|
    ensures AllSkipDown(b.skip, b.ones[..Pow2(p)], base)
  {
    forall x: nat | 0 < x < Pow2(p)
      ensures SkipsDown(b.skip, b.ones[..Pow2(p)], base, x)
    {
      var m := x / 2;
      if x == 2 * m {
        EvenDown(b, q, p, base, m);
      } else {
        OddDown(b, q, p, base, m);
      }
    }
  }

  lemma {:induction false} OnesBound(x: nat, p: nat)
    requires x < Pow2(p)
    ensures Ones(x) <= p
  {
    if p > 0 {
      OnesBound(x / 2, p - 1);
    }
  }

  /** Above the multiple: two steps for every one, on top of one step and the walk below. */
  lemma {:induction false} BlockWalk(q: nat, p: nat, base: nat, x: nat, t: nat, k: nat)
    requires base == OddMultiple(q, p) && x < Pow2(p) && t < base
    requires forall a :: t <= a < base ==> Steps(a, t) <= k
    ensures Steps(base + x, t) <= 2 * p + 1 + k
  {
    var n := base + Pow2(p) + 1;
    var b, f := BitsBelow(n), LengthTable(t, n);
    BitsBelowOk(n);
    AllDown(b, q, p, base);
    StepsAreLength(t, n);
    Walk(f, b.skip, b.ones[..Pow2(p)], base, x, t, k);
    OnesBound(x, p);
  }

  /** Two heights agree in all bits from bit `k` on. */
  ghost predicate SameAbove(h: nat, t: nat, k: nat) {
    if k == 0 then h == t else SameAbove(h / 2, t / 2, k - 1)
  }

  lemma {:induction false} BothSmall(h: nat, t: nat, k: nat)
    requires h < Pow2(k) && t < Pow2(k)
    ensures SameAbove(h, t, k)
  {
    if k > 0 {
      BothSmall(h / 2, t / 2, k - 1);
    }
  }

  lemma {:induction false} InBlock(q: nat, p: nat, base: nat, a: nat, b: nat)
    requires base == OddMultiple(q, p) && base - Pow2(p) <= a < base && base - Pow2(p) <= b < base
    ensures SameAbove(a, b, p)
  {
    if p > 0 {
      InBlock(q, p - 1, OddMultiple(q, p - 1), a / 2, b / 2);
    }
  }

  /** The first bit in which two heights differ. */
  lemma {:induction false} Split(h: nat, t: nat, k: nat) returns (q: nat, p: nat, base: nat)
    requires t < h && SameAbove(h, t, k)
    ensures p < k && base == OddMultiple(q, p) && base <= h < base + Pow2(p) && base - Pow2(p) <= t < base
  {
    if h / 2 == t / 2 {
      q, p, base := h / 2, 0, h;
    } else {
      q, p, base := Split(h / 2, t / 2, k - 1);
      p, base := p + 1, 2 * base;
    }
  }

  lemma {:induction false} StepsInBlock(h: nat, t: nat, k: nat)
    requires t <= h && SameAbove(h, t, k)
    ensures Steps(h, t) <= k * k
    decreases k
  {
    if t < h {
      var q, p, base := Split(h, t, k);
      forall a: nat | t <= a < base
        ensures Steps(a, t) <= p * p
      {
        InBlock(q, p, base, a, t);
        StepsInBlock(a, t, p);
      }
      BlockWalk(q, p, base, h - base, t, p * p);
      NextSquare(p, k);
    }
  }

  lemma {:induction false} NextSquare(p: nat, k: nat)
    requires p < k
    ensures p * p + 2 * p + 1 <= k * k
  {
    assert (p + 1) * (p + 1) == p * p + 2 * p + 1;
    MulMono(p + 1, k, p + 1);
    MulMono(p + 1, k, k);
  }

  /** From below 2^k the walk takes at most k^2 steps: the square of the length of the height in binary. */
  lemma {:induction false} StepBound(h: nat, t: nat, k: nat)
    requires t <= h < Pow2(k)
    ensures Steps(h, t) <= k * k
  {
    BothSmall(h, t, k);
    StepsInBlock(h, t, k);
  }
}
