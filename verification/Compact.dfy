/**
 The compact encoding of difficulty targets (src/arith_uint256.cpp) and the proof of
 work of a block (src/chain.cpp). A compact number is an exponent `e` of base 256, a sign
 bit and a mantissa `m` of 23 bits, for m * 256^(e - 3).
 */
module Compact {
  import opened Numbers
  import opened ArithUint256

  /** 2^256. */
  const M := 0x1_00000000_00000000_00000000_00000000_00000000_00000000_00000000_00000000

  lemma {:induction false} FullWeight(w: nat)
    requires w == 8
    ensures Wt(w) == M
  {
    assert Wt(2) == B * B;
    assert Wt(4) == B * B * Wt(2);
    assert Wt(6) == B * B * Wt(4);
    assert Wt(8) == B * B * Wt(6);
  }

  // ---------------------------------------------------------------- mantissas

  /** floor(v * 256^(3 - e)). */
  function Mantissa(v: nat, e: nat): (m: nat)
  {
    if e <= 3 then Scale(v, 3 - e) else Drop(v, e - 3)
  }

  /** floor(m * 256^(e - 3)). */
  function Decoded(e: nat, m: nat): (v: nat)
  {
    if e <= 3 then Drop(m, 3 - e) else Scale(m, e - 3)
  }

  /** v * 256^k. */
  function Scale(v: nat, k: nat): (r: nat)
  {
    if k == 0 then v else Scale(v, k - 1) * 256
  }

  /** v / 256^k. */
  function Drop(v: nat, k: nat): (r: nat)
  {
    if k == 0 then v else Drop(v, k - 1) / 256
  }

  /** The exponent at which a number has a mantissa of more than 15 and at most 23 bits. */
  predicate Normal(v: nat, e: nat) {
    0x8000 <= Mantissa(v, e) < 0x80_0000
  }

  lemma {:induction false} MantissaStep(v: nat, e: nat)
    ensures Mantissa(v, e + 1) == Mantissa(v, e) / 256
  {
    if e < 3 {
      assert Mantissa(v, e) == Scale(v, 3 - e) == Scale(v, 2 - e) * 256;
      assert Mantissa(v, e + 1) == Scale(v, 2 - e);
    } else {
      assert Mantissa(v, e) == Drop(v, e - 3);
      assert Mantissa(v, e + 1) == Drop(v, e - 2) == Drop(v, e - 3) / 256;
    }
  }

  lemma {:induction false} MantissaBelow(v: nat, e: nat, e': nat)
    requires e < e'
    ensures Mantissa(v, e') <= Mantissa(v, e) / 256
  {
    MantissaStep(v, e' - 1);
    if e < e' - 1 {
      MantissaBelow(v, e, e' - 1);
    }
  }

  /** At most one exponent is normal for a number. */
  lemma {:induction false} NormalUnique(v: nat, e: nat, e': nat)
    requires Normal(v, e) && Normal(v, e')
    ensures e == e'
  {
    if e < e' {
      MantissaBelow(v, e, e');
    } else if e' < e {
      MantissaBelow(v, e', e);
    }
  }

  lemma {:induction false} DropScale(v: nat, k: nat)
    ensures Drop(Scale(v, k), k) == v
  {
    if k > 0 {
      DropLast(Scale(v, k - 1), k - 1);
      DropScale(v, k - 1);
    }
  }

  lemma {:induction false} DropLast(u: nat, k: nat)
    ensures Drop(u * 256, k + 1) == Drop(u, k)
  {
    if k > 0 {
      DropLast(u, k - 1);
    }
  }

  /** Dropping digits and putting zeros in their place loses less than one unit of the last digit kept. */
  lemma {:induction false} ScaleDrop(v: nat, k: nat)
    ensures Scale(Drop(v, k), k) <= v < Scale(Drop(v, k) + 1, k)
  {
    if k > 0 {
      ScaleDrop(v, k - 1);
      var d := Drop(v, k - 1);
      ScaleTwice(d / 256, k);
      ScaleTwice(d / 256 + 1, k);
      ScaleMono(d / 256 * 256, d, k - 1);
      ScaleMono(d + 1, (d / 256 + 1) * 256, k - 1);
    }
  }

  lemma {:induction false} ScaleTwice(u: nat, k: nat)
    requires k > 0
    ensures Scale(u, k) == Scale(u * 256, k - 1)
  {
    if k > 1 {
      ScaleTwice(u, k - 1);
    }
  }

  lemma {:induction false} ScaleMono(u: nat, v: nat, k: nat)
    requires u <= v
    ensures Scale(u, k) <= Scale(v, k)
    ensures u < v ==> Scale(u, k) < Scale(v, k)
  {
    if k > 0 {
      ScaleMono(u, v, k - 1);
    }
  }

  lemma {:induction false} ScaleLinear(u: nat, c: nat, k: nat)
    requires c * u >= 0
    ensures Scale(c * u, k) == c * Scale(u, k)
  {
    if k > 0 {
      ScaleLinear(u, c, k - 1);
      Assoc(c, Scale(u, k - 1), 256);
    }
  }

  lemma {:induction false} ScaleAdd(u: nat, v: nat, k: nat)
    ensures Scale(u + v, k) == Scale(u, k) + Scale(v, k)
  {
    if k > 0 {
      ScaleAdd(u, v, k - 1);
    }
  }

  /** The encoding rounds down, by less than one part in 2^15, and is exact on its own results. */
  lemma {:induction false} CompactRoundTrip(v: nat, e: nat)
    requires Normal(v, e)
    ensures var y := Decoded(e, Mantissa(v, e));
            && y <= v && 0x8000 * (v - y) < y
            && Normal(y, e) && Mantissa(y, e) == Mantissa(v, e)
  {
    var m := Mantissa(v, e);
    if e <= 3 {
      DropScale(v, 3 - e);
      assert v > 0 by {
        if v == 0 {
          ScaleZero(3 - e);
        }
      }
    } else {
      var k := e - 3;
      ScaleDrop(v, k);
      ScaleAdd(m, 1, k);
      ScaleMono(0x8000, m, k);
      ScaleLinear(1, 0x8000, k);
      DropScale(m, k);
    }
  }

  lemma {:induction false} ScaleZero(k: nat)
    ensures Scale(0, k) == 0
  {
    if k > 0 {
      ScaleZero(k - 1);
    }
  }

  // ---------------------------------------------------------------- shifts by whole bytes

  lemma {:induction false} ScaleIsShift(v: nat, k: nat)
    ensures Scale(v, k) == Scaled(v, Pow2(8 * k))
  {
    if k == 0 {
      ScaledIs(v, 1);
    } else {
      ScaleIsShift(v, k - 1);
      ByteStep(k);
      ScaledTwice(v, Pow2(8 * (k - 1)), 256);
      ScaledIs(Scaled(v, Pow2(8 * (k - 1))), 256);
    }
  }

  lemma {:induction false} ByteStep(k: nat)
    requires k > 0
    ensures Pow2(8 * k) == Pow2(8 * (k - 1)) * 256
  {
    Pow2Add(8 * (k - 1), 8);
    BytePow();
  }

  lemma {:induction false} BytePow()
    ensures Pow2(8) == 256
  {
    Pow2Values();
  }

  lemma {:induction false} DropIsShift(v: nat, k: nat)
    ensures Drop(v, k) == v / Pow2(8 * k)
  {
    if k > 0 {
      DropIsShift(v, k - 1);
      ByteStep(k);
      DivTwice(v, Pow2(8 * (k - 1)), 256);
    }
  }

  lemma {:induction false} ScaleScale(u: nat, a: nat, b: nat)
    ensures Scale(Scale(u, a), b) == Scale(u, a + b)
  {
    if b > 0 {
      ScaleScale(u, a, b - 1);
    }
  }

  lemma {:induction false} ScaleWeight(j: nat)
    ensures Scale(1, 4 * j) == Wt(j)
  {
    if j > 0 {
      ScaleWeight(j - 1);
      var k := 4 * j;
      assert Scale(1, k) == Scale(1, k - 1) * 256;
      assert Scale(1, k - 1) == Scale(1, k - 2) * 256;
      assert Scale(1, k - 2) == Scale(1, k - 3) * 256;
      assert Scale(1, k - 3) == Scale(1, k - 4) * 256;
    }
  }

  lemma {:induction false} FullScale(k: nat)
    requires k == 32
    ensures Scale(1, k) == M
    ensures Scale(0x100, k - 1) == M && Scale(0x1_0000, k - 2) == M
  {
    ScaleWeight(8);
    FullWeight(8);
    ScaleTwice(1, k);
    ScaleTwice(0x100, k - 1);
  }

  /** Comparing a scaled mantissa with 2^256 is comparing the mantissa. */
  lemma {:induction false} ScaleReaches(u: nat, m: nat, k: nat)
    requires Scale(u, k) == M
    ensures Scale(m, k) >= M <==> m >= u
  {
    if m >= u {
      ScaleMono(u, m, k);
    } else {
      ScaleMono(m, u, k);
    }
  }

  /** The overflow test: the decoded number does not fit in 256 bits. */
  lemma {:induction false} OverflowTest(e: nat, m: nat)
    requires m < 0x80_0000 && e > 3
    ensures Decoded(e, m) >= M <==> m != 0 && (e > 34 || (m > 0xff && e > 33) || (m > 0xffff && e > 32))
  {
    var k := e - 3;
    FullScale(32);
    if k >= 32 {
      ScaleScale(m, 32, k - 32);
      ScaleReaches(1, m, 32);
      ScaleGrows(Scale(m, 32), k - 32);
      ScaleZero(k);
    } else if k == 31 {
      ScaleReaches(0x100, m, k);
    } else if k == 30 {
      ScaleReaches(0x1_0000, m, k);
    } else {
      SmallFits(m, k);
    }
  }

  lemma {:induction false} ScaleGrows(u: nat, k: nat)
    ensures Scale(u, k) >= u && (u == 0 ==> Scale(u, k) == 0)
  {
    if k > 0 {
      ScaleGrows(u, k - 1);
    }
  }

  lemma {:induction false} SmallFits(m: nat, k: nat)
    requires m < 0x80_0000 && k <= 29
    ensures Scale(m, k) < M
    decreases 29 - k
  {
    FullScale(32);
    if k == 29 {
      ScaleMono(m, 0x100_0000, k);
      ScaleTwice(0x1_0000, 30);
    } else {
      SmallFits(m, k + 1);
    }
  }

  /** The size in bytes, from the highest bit, gives a mantissa of 17 to 24 bits. */
  lemma {:induction false} SizeOf(v: nat, nb: nat)
    requires nb > 0 && Pow2(nb - 1) <= v < Pow2(nb)
    ensures 0x1_0000 <= Mantissa(v, (nb + 7) / 8) < 0x100_0000
    ensures (nb + 7) / 8 <= 3 ==> v < 0x100_0000
  {
    var n := (nb + 7) / 8;
    Pow2Mono(8 * (n - 1), nb - 1);
    Pow2Mono(nb, 8 * n);
    ScaleIsShift(1, n - 1);
    ScaleIsShift(1, n);
    ScaledIs(1, Pow2(8 * (n - 1)));
    ScaledIs(1, Pow2(8 * n));
    SizeBounds(v, n);
  }

  lemma {:induction false} SizeBounds(v: nat, n: nat)
    requires n > 0 && Scale(1, n - 1) <= v < Scale(1, n)
    ensures 0x1_0000 <= Mantissa(v, n) < 0x100_0000
    ensures n <= 3 ==> v < 0x100_0000
  {
    assert Scale(1, 2) == 0x1_0000 && Scale(1, 3) == 0x100_0000;
    if n <= 3 {
      ScaleMono(Scale(1, n - 1), v, 3 - n);
      ScaleMono(v, Scale(1, n), 3 - n);
      ScaleScale(1, n - 1, 3 - n);
      ScaleScale(1, n, 3 - n);
      ScaleGrows(v, 3 - n);
    } else {
      var k, d := n - 3, Drop(v, n - 3);
      ScaleScale(1, 2, k);
      ScaleScale(1, 3, k);
      ScaleDrop(v, k);
      if d < 0x1_0000 {
        ScaleMono(d + 1, 0x1_0000, k);
      }
      if d >= 0x100_0000 {
        ScaleMono(0x100_0000, d, k);
      }
    }
  }

  // ---------------------------------------------------------------- the operations

  type UInt32 = c: nat | c < B

  function ExponentOf(c: UInt32): (e: nat) {
    c / 0x100_0000
  }

  function MantissaOf(c: UInt32): (m: nat)
    ensures m < 0x80_0000
  {
    c % 0x80_0000
  }

  predicate SignOf(c: UInt32) {
    c / 0x80_0000 % 2 == 1
  }

  /** The number that a compact number stands for, without its sign. */
  function Target(c: UInt32): (v: nat) {
    Decoded(ExponentOf(c), MantissaOf(c))
  }

  method SetCompact(x: BaseUint, c: UInt32) returns (negative: bool, overflow: bool)
    requires x.pn.Length == 8
    modifies x.pn
    ensures overflow <==> Target(c) >= M
    ensures negative <==> SignOf(c) && Target(c) != 0
    ensures x.Value() == Target(c) % x.Modulus()
  {
    var nSize, nWord := ExponentOf(c), MantissaOf(c);
    if nSize <= 3 {
      DropIsShift(nWord, 3 - nSize);
      nWord := nWord / Pow2(8 * (3 - nSize));
      DropBelow(MantissaOf(c), 3 - nSize);
      x.Assign64(nWord);
      Fits(x, nWord);
    } else {
      x.Assign64(nWord);
      SmallScale(nWord, nSize - 3);
      x.Shl(8 * (nSize - 3));
      OverflowTest(nSize, nWord);
      ScaleGrows(nWord, nSize - 3);
    }
    negative := nWord != 0 && SignOf(c);
    overflow := nWord != 0 && (nSize > 34 || (nWord > 0xff && nSize > 33) || (nWord > 0xffff && nSize > 32));
  }

  lemma {:induction false} Fits(x: BaseUint, v: nat)
    requires x.pn.Length == 8 && v < M
    ensures v % x.Modulus() == v
  {
    FullWeight(x.pn.Length);
    Quotient(v, x.Modulus(), 0, v);
  }

  lemma {:induction false} DropBelow(v: nat, k: nat)
    ensures Drop(v, k) <= v
  {
    if k > 0 {
      DropBelow(v, k - 1);
    }
  }

  /** The encoding of `v` has the one normal exponent of `v`, its mantissa there, and the sign asked for. */
  method GetCompact(x: BaseUint, fNegative: bool) returns (c: UInt32)
    requires x.pn.Length == 8
    ensures x.Value() == 0 ==> c == 0
    ensures x.Value() != 0 ==> Normal(x.Value(), ExponentOf(c)) && MantissaOf(c) == Mantissa(x.Value(), ExponentOf(c))
    ensures x.Value() != 0 ==> (SignOf(c) <==> fNegative)
  {
    var nSize, nCompact := TopBytes(x);
    if nCompact / 0x80_0000 % 2 == 1 {
      MantissaStep(x.Value(), nSize);
      nCompact, nSize := nCompact / 0x100, nSize + 1;
    }
    c := Fields(nCompact, nSize, fNegative && nCompact != 0);
  }

  /** The three fields do not overlap. */
  method Fields(nCompact: nat, nSize: nat, negative: bool) returns (c: UInt32)
    requires nCompact < 0x80_0000 && nSize <= 0xff
    ensures ExponentOf(c) == nSize && MantissaOf(c) == nCompact && (SignOf(c) <==> negative)
  {
    var sign := if negative then 1 else 0;
    var high := nSize * 2 + sign;
    assert high / 2 == nSize && high % 2 == sign;
    c := nCompact + nSize * 0x100_0000 + if negative then 0x80_0000 else 0;
    assert c == high * 0x80_0000 + nCompact;
  }

  /** The size of a number in bytes and its three highest bytes. */
  method TopBytes(x: BaseUint) returns (nSize: nat, nCompact: nat)
    requires x.pn.Length == 8
    ensures x.Value() == 0 ==> nSize == 0 && nCompact == 0
    ensures x.Value() != 0 ==>
              nSize <= 32 && nCompact == Mantissa(x.Value(), nSize) && 0x1_0000 <= nCompact < 0x100_0000
  {
    ghost var v := x.Value();
    var bits := x.Bits();
    nSize := (bits + 7) / 8;
    if bits > 0 {
      SizeOf(v, bits);
    }
    if nSize <= 3 {
      var low := x.GetLow64();
      Small64(v);
      SmallScale(v, 3 - nSize);
      nCompact := low * Pow2(8 * (3 - nSize));
    } else {
      var bn := new BaseUint.From(x.pn[..]);
      bn.Shr(8 * (nSize - 3));
      DropIsShift(v, nSize - 3);
      nCompact := bn.GetLow64();
      Small64(bn.Value());
    }
  }

  lemma {:induction false} Small64(v: nat)
    ensures v < B ==> v % (B * B) == v
  {
    if v < B {
      Quotient(v, B * B, 0, v);
    }
  }

  lemma {:induction false} SmallScale(v: nat, k: nat)
    ensures v * Pow2(8 * k) == Scale(v, k)
  {
    ScaleIsShift(v, k);
    ScaledIs(v, Pow2(8 * k));
  }

  /** Decoding an encoding gives the number rounded down by less than one part in 2^15,
      with the same encoding again. */
  lemma {:induction false} CompactTwice(v: nat, c: UInt32, y: nat, c': UInt32)
    requires Normal(v, ExponentOf(c)) && MantissaOf(c) == Mantissa(v, ExponentOf(c)) && y == Target(c)
    requires Normal(y, ExponentOf(c')) && MantissaOf(c') == Mantissa(y, ExponentOf(c')) && (SignOf(c) <==> SignOf(c'))
    ensures y <= v && 0x8000 * (v - y) < y && c' == c
  {
    CompactRoundTrip(v, ExponentOf(c));
    NormalUnique(y, ExponentOf(c), ExponentOf(c'));
    SameFields(c, c');
  }

  lemma {:induction false} SameFields(c: UInt32, c': UInt32)
    requires ExponentOf(c) == ExponentOf(c') && MantissaOf(c) == MantissaOf(c') && (SignOf(c) <==> SignOf(c'))
    ensures c == c'
  {
    var h, h' := c / 0x80_0000, c' / 0x80_0000;
    assert h / 2 == ExponentOf(c) && h' / 2 == ExponentOf(c');
  }

  /** A target never is 2^256 - 1, so that adding 1 does not wrap. */
  lemma {:induction false} TargetNotFull(c: UInt32)
    ensures Target(c) != M - 1
  {
    var e, m := ExponentOf(c), MantissaOf(c);
    if e <= 3 {
      DropBelow(m, 3 - e);
    } else {
      assert Target(c) == Scale(m, e - 4) * 256;
    }
  }

  /** 2^256 / (target + 1) for a valid target, and 0 for any other. */
  method GetBlockProof(nBits: UInt32) returns (r: BaseUint)
    ensures fresh(r) && fresh(r.pn) && r.pn.Length == 8
    ensures r.Value() == if SignOf(nBits) || Target(nBits) == 0
            || Target(nBits) >= M then 0 else M / (Target(nBits) + 1)
  {
    var bnTarget := new BaseUint(8);
    var negative, overflow := SetCompact(bnTarget, nBits);
    ghost var t := Target(nBits);
    var zero := new BaseUint(8);
    var c := bnTarget.CompareTo(zero.pn[..]);
    if negative || overflow || c == 0 {
      r := zero;
      return;
    }
    Fits(bnTarget, t);
    TargetNotFull(nBits);
    r := ProofOf(bnTarget, t);
  }

  /** (~target / (target + 1)) + 1. */
  method ProofOf(bnTarget: BaseUint, ghost t: nat) returns (r: BaseUint)
    requires bnTarget.pn.Length == 8 && bnTarget.Value() == t && 0 < t < M - 1
    modifies bnTarget.pn
    ensures fresh(r) && fresh(r.pn) && r.pn.Length == 8
    ensures r.Value() == M / (t + 1)
  {
    FullWeight(bnTarget.pn.Length);
    r := bnTarget.Complement();
    Fits(bnTarget, t + 1);
    bnTarget.Increment();
    var ok := r.Div(bnTarget.pn[..]);
    assert ok;
    ProofFits(t);
    Fits(r, r.Value() + 1);
    r.Increment();
  }

  lemma {:induction false} ProofFits(t: nat)
    requires 0 < t < M - 1
    ensures 0 <= (M - 1 - t) / (t + 1) < M - 1
    ensures (M - 1 - t) / (t + 1) + 1 == M / (t + 1)
  {
    var q, r := (M - 1 - t) / (t + 1), (M - 1 - t) % (t + 1);
    Distribute(q, 1, t + 1);
    Quotient(M, t + 1, q + 1, r);
    MulMono(1, t + 1, q);
    if q < 0 {
      MulMono(q, -1, t + 1);
    }
  }
}
