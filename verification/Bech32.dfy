/**
 Bech32 and Bech32m strings (src/bech32.cpp): the checksum polynomial over GF(32), with the
 six coefficients packed into a 30-bit number, and the two string formats of BIP 173 and
 BIP 350.
 */
module Bech32 {
  import opened Numbers

  // ---------------------------------------------------------------- exclusive or

  /** Bitwise exclusive or of two unsigned numbers. */
  function Xor(x: nat, y: nat): (r: nat)
    decreases x + y
  {
    if x == 0 then y
    else if y == 0 then x
    else 2 * Xor(x / 2, y / 2) + if x % 2 != y % 2 then 1 else 0
  }

  lemma {:induction false} XorBits(x: nat, y: nat)
    ensures Xor(x, y) % 2 == (if x % 2 != y % 2 then 1 else 0)
    ensures Xor(x, y) / 2 == Xor(x / 2, y / 2)
  {
    if x == 0 {
      assert Xor(x, y) == y && Xor(x / 2, y / 2) == y / 2;
    } else if y == 0 {
      assert Xor(x, y) == x && Xor(x / 2, y / 2) == x / 2;
    } else {
      var h, b := Xor(x / 2, y / 2), if x % 2 != y % 2 then 1 else 0;
      assert Xor(x, y) == 2 * h + b;
    }
  }

  lemma {:induction false} XorComm(x: nat, y: nat)
    ensures Xor(x, y) == Xor(y, x)
    decreases x + y
  {
    if x != 0 && y != 0 {
      XorComm(x / 2, y / 2);
    }
  }

  lemma {:induction false} XorSelf(x: nat)
    ensures Xor(x, x) == 0 && Xor(x, 0) == x
  {
    if x != 0 {
      XorSelf(x / 2);
    }
  }

  lemma {:induction false} XorAssoc(x: nat, y: nat, z: nat)
    ensures Xor(Xor(x, y), z) == Xor(x, Xor(y, z))
    decreases x + y + z
  {
    if x != 0 && y != 0 && z != 0 {
      XorAssoc(x / 2, y / 2, z / 2);
      XorBits(x, y);
      XorBits(y, z);
      XorBits(Xor(x, y), z);
      XorBits(x, Xor(y, z));
    } else {
      XorSelf(x);
      XorSelf(Xor(x, y));
    }
  }

  lemma {:induction false} XorFour(a: nat, b: nat, c: nat, d: nat)
    ensures Xor(Xor(a, b), Xor(c, d)) == Xor(Xor(a, c), Xor(b, d))
  {
    XorAssoc(a, b, Xor(c, d));
    XorAssoc(b, c, d);
    XorComm(b, c);
    XorAssoc(c, b, d);
    XorAssoc(a, c, Xor(b, d));
  }

  /** Exclusive or undoes itself. */
  lemma {:induction false} XorCancel(x: nat, y: nat)
    ensures Xor(x, Xor(x, y)) == y
    ensures Xor(x, y) == 0 ==> x == y
  {
    XorAssoc(x, x, y);
    XorSelf(x);
  }

  /** The lowest `k` bits of x. */
  ghost function Low(x: nat, k: nat): (l: nat) {
    if k == 0 then 0 else 2 * Low(x / 2, k - 1) + x % 2
  }

  lemma {:induction false} HighLow(x: nat, k: nat)
    ensures High(x, k) == x / Pow2(k) && Low(x, k) == x % Pow2(k)
    decreases k
  {
    if k > 0 {
      HighLow(x / 2, k - 1);
      HalfDiv(x, k);
    }
  }

  lemma {:induction false} XorHighLow(x: nat, y: nat, k: nat)
    ensures High(Xor(x, y), k) == Xor(High(x, k), High(y, k))
    ensures Low(Xor(x, y), k) == Xor(Low(x, k), Low(y, k))
    decreases k
  {
    if k > 0 {
      XorBits(x, y);
      XorHighLow(x / 2, y / 2, k - 1);
      XorDouble(Low(x / 2, k - 1), x % 2, Low(y / 2, k - 1), y % 2);
    }
  }

  lemma {:induction false} HalfDiv(x: nat, k: nat)
    requires k > 0
    ensures x / Pow2(k) == x / 2 / Pow2(k - 1) && x % Pow2(k) == 2 * (x / 2 % Pow2(k - 1)) + x % 2
  {
    var p, h := Pow2(k - 1), x / 2;
    var q, r := h / p, h % p;
    assert h == q * p + r;
    assert q * (2 * p) == 2 * (q * p);
    Quotient(x, 2 * p, q, 2 * r + x % 2);
  }

  lemma {:induction false} XorDouble(a: nat, i: nat, b: nat, j: nat)
    requires i < 2 && j < 2
    ensures Xor(2 * a + i, 2 * b + j) == 2 * Xor(a, b) + if i != j then 1 else 0
  {
    XorBits(2 * a + i, 2 * b + j);
    XorSelf(a);
  }

  lemma {:induction false} XorScale(a: nat, b: nat, k: nat)
    requires a * Pow2(k) >= 0 && b * Pow2(k) >= 0
    ensures Xor(a * Pow2(k), b * Pow2(k)) == Xor(a, b) * Pow2(k)
    decreases k
  {
    if k > 0 {
      var p := Pow2(k - 1);
      MulMono(0, a, p);
      MulMono(0, b, p);
      XorScale(a, b, k - 1);
      XorDouble(a * p, 0, b * p, 0);
      Assoc(a, 2, p);
      Assoc(b, 2, p);
      Assoc(Xor(a, b), 2, p);
    }
  }

  lemma {:induction false} XorBound(x: nat, y: nat, k: nat)
    requires x < Pow2(k) && y < Pow2(k)
    ensures Xor(x, y) < Pow2(k)
    decreases k
  {
    if k > 0 {
      XorBound(x / 2, y / 2, k - 1);
      XorBits(x, y);
    }
  }

  // ---------------------------------------------------------------- the generator

  const GEN: seq<nat> := [0x3b6a57b2, 0x26508e6d, 0x1ea119fa, 0x3d4233dd, 0x2a1462b3]

  const TWO_25 := 0x200_0000
  const TWO_30 := 0x4000_0000

  function When(b: bool, k: nat): (r: nat) {
    if b then k else 0
  }

  /** The combination of `ks` that the bits of `x` select. */
  function Mix(x: nat, ks: seq<nat>): (r: nat) {
    if ks == [] then 0 else Xor(When(x % 2 == 1, ks[0]), Mix(x / 2, ks[1..]))
  }

  /** One step of PolyMod: multiply by x, add the next symbol and reduce. */
  function Step(c: nat, v: nat): (r: nat) {
    Xor(Xor(c % TWO_25 * 32, v), Mix(c / TWO_25, GEN))
  }

  lemma {:induction false} MixLinear(x: nat, y: nat, ks: seq<nat>)
    ensures Mix(Xor(x, y), ks) == Xor(Mix(x, ks), Mix(y, ks))
    decreases |ks|
  {
    if ks != [] {
      MixLinear(x / 2, y / 2, ks[1..]);
      XorBits(x, y);
      WhenLinear(x % 2 == 1, y % 2 == 1, ks[0]);
      XorFour(When(x % 2 == 1, ks[0]), When(y % 2 == 1, ks[0]), Mix(x / 2, ks[1..]), Mix(y / 2, ks[1..]));
    }
  }

  lemma {:induction false} WhenLinear(b: bool, b': bool, k: nat)
    ensures When(b != b', k) == Xor(When(b, k), When(b', k))
  {
    XorSelf(k);
  }

  lemma {:induction false} Constants()
    ensures Pow2(25) == TWO_25 && Pow2(30) == TWO_30 && Pow2(5) == 32
  {
    Pow2Values();
    Pow2Add(24, 1);
    assert Pow2(5) == 32;
    Pow2Add(25, 5);
  }

  /** PolyMod is linear: a step of a sum is the sum of the steps. */
  lemma {:induction false} StepLinear(c: nat, v: nat, d: nat, w: nat)
    ensures Step(Xor(c, d), Xor(v, w)) == Xor(Step(c, v), Step(d, w))
  {
    ShiftLinear(c, d);
    MixLinear(c / TWO_25, d / TWO_25, GEN);
    XorFour(c % TWO_25 * 32, d % TWO_25 * 32, v, w);
    XorFour(Xor(c % TWO_25 * 32, v), Xor(d % TWO_25 * 32, w), Mix(c / TWO_25, GEN), Mix(d / TWO_25, GEN));
  }

  lemma {:induction false} ShiftLinear(c: nat, d: nat)
    ensures Xor(c, d) / TWO_25 == Xor(c / TWO_25, d / TWO_25)
    ensures Xor(c, d) % TWO_25 * 32 == Xor(c % TWO_25 * 32, d % TWO_25 * 32)
  {
    Constants();
    XorHighLow(c, d, 25);
    HighLow(c, 25);
    HighLow(d, 25);
    HighLow(Xor(c, d), 25);
    XorScale(c % TWO_25, d % TWO_25, 5);
  }

  lemma {:induction false} StepBound(c: nat, v: nat)
    requires v < 32
    ensures Step(c, v) < TWO_30
  {
    Constants();
    XorBound(c % TWO_25 * 32, v, 30);
    MixBound(c / TWO_25, GEN, 30);
    XorBound(Xor(c % TWO_25 * 32, v), Mix(c / TWO_25, GEN), 30);
  }

  lemma {:induction false} MixBound(x: nat, ks: seq<nat>, k: nat)
    requires forall i :: 0 <= i < |ks| ==> ks[i] < Pow2(k)
    ensures Mix(x, ks) < Pow2(k)
    decreases |ks|
  {
    if ks != [] {
      MixBound(x / 2, ks[1..], k);
      XorBound(When(x % 2 == 1, ks[0]), Mix(x / 2, ks[1..]), k);
    }
  }

  ghost predicate BitAt(x: nat, i: nat) {
    High(x, i) % 2 == 1
  }

  lemma {:induction false} XorBitAt(x: nat, y: nat, i: nat)
    ensures BitAt(Xor(x, y), i) <==> BitAt(x, i) != BitAt(y, i)
  {
    XorHighLow(x, y, i);
    XorBits(High(x, i), High(y, i));
  }

  lemma {:induction false} WhenBitAt(b: bool, k: nat, i: nat)
    ensures BitAt(When(b, k), i) <==> b && BitAt(k, i)
  {
    HighZero(i);
  }

  lemma {:induction false} HighZero(i: nat)
    ensures High(0, i) == 0
  {
    if i > 0 {
      HighZero(i - 1);
    }
  }

  lemma {:induction false} MixFive(x: nat, ks: seq<nat>)
    requires |ks| == 5
    ensures Mix(x, ks) == Xor(When(x % 2 == 1, ks[0]), Xor(When(x / 2 % 2 == 1, ks[1]), Xor(When(x / 4 % 2 == 1, ks[2]),
                            Xor(When(x / 8 % 2 == 1, ks[3]), When(x / 16 % 2 == 1, ks[4])))))
  {
    var k1, k2, k3, k4 := ks[1..], ks[2..], ks[3..], ks[4..];
    MixUnfold(x, ks, k1);
    MixUnfold(x / 2, k1, k2);
    MixUnfold(x / 4, k2, k3);
    MixUnfold(x / 8, k3, k4);
    MixUnfold(x / 16, k4, []);
    Halves(x);
    XorSelf(When(x / 16 % 2 == 1, ks[4]));
  }

  lemma {:induction false} Halves(x: nat)
    ensures x / 2 / 2 == x / 4 && x / 4 / 2 == x / 8 && x / 8 / 2 == x / 16
  {
  }

  lemma {:induction false} MixUnfold(x: nat, ks: seq<nat>, rest: seq<nat>)
    requires ks != [] && ks[1..] == rest
    ensures Mix(x, ks) == Xor(When(x % 2 == 1, ks[0]), Mix(x / 2, rest))
  {
  }

  /** A bit of a combination is the parity of that bit in the numbers selected. */
  lemma {:induction false} MixBitAt(x: nat, ks: seq<nat>, i: nat)
    requires |ks| == 5
    ensures BitAt(Mix(x, ks), i) <==>
            ((x % 2 == 1 && BitAt(ks[0], i)) !=
             ((x / 2 % 2 == 1 && BitAt(ks[1], i)) !=
              ((x / 4 % 2 == 1 && BitAt(ks[2], i)) !=
               ((x / 8 % 2 == 1 && BitAt(ks[3], i)) != (x / 16 % 2 == 1 && BitAt(ks[4], i))))))
  {
    var w0, w1, w2 := When(x % 2 == 1, ks[0]), When(x / 2 % 2 == 1, ks[1]), When(x / 4 % 2 == 1, ks[2]);
    var w3, w4 := When(x / 8 % 2 == 1, ks[3]), When(x / 16 % 2 == 1, ks[4]);
    MixFive(x, ks);
    WhenBitAt(x % 2 == 1, ks[0], i);
    WhenBitAt(x / 2 % 2 == 1, ks[1], i);
    WhenBitAt(x / 4 % 2 == 1, ks[2], i);
    WhenBitAt(x / 8 % 2 == 1, ks[3], i);
    WhenBitAt(x / 16 % 2 == 1, ks[4], i);
    XorBitAt(w3, w4, i);
    XorBitAt(w2, Xor(w3, w4), i);
    XorBitAt(w1, Xor(w2, Xor(w3, w4)), i);
    XorBitAt(w0, Xor(w1, Xor(w2, Xor(w3, w4))), i);
  }

  lemma {:induction false} HighTwice(k: nat, i: nat)
    ensures High(k, i + 1) == High(k, i) / 2
  {
    if i > 0 {
      HighTwice(k / 2, i - 1);
    }
  }

  lemma {:induction false} LowBits(k: nat)
    ensures BitAt(k, 0) <==> k % 2 == 1
    ensures BitAt(k, 1) <==> k / 2 % 2 == 1
    ensures BitAt(k, 2) <==> k / 4 % 2 == 1
    ensures BitAt(k, 3) <==> k / 8 % 2 == 1
    ensures BitAt(k, 4) <==> k / 16 % 2 == 1
  {
    HighTwice(k, 1);
    HighTwice(k, 2);
    HighTwice(k, 3);
    assert High(k, 1) == k / 2;
  }

  /** The low coefficients of the multiples of the generator are independent. */
  lemma {:induction false} MixKernel(h: nat)
    requires h < 32 && forall i :: 0 <= i < 5 ==> !BitAt(Mix(h, GEN), i)
    ensures h == 0
  {
    var b0, b1, b2, b3, b4 := h % 2 == 1, h / 2 % 2 == 1, h / 4 % 2 == 1, h / 8 % 2 == 1, h / 16 % 2 == 1;
    assert b1 == (b3 != b4) by { MixBitAt(h, GEN, 0); GenBits(); }
    assert b0 == (b2 != b4) by { MixBitAt(h, GEN, 1); GenBits(); }
    assert b1 == b3 by { MixBitAt(h, GEN, 2); GenBits(); }
    assert b1 == (b2 != b3) by { MixBitAt(h, GEN, 3); GenBits(); }
    assert b0 == (b2 != (b3 != b4)) by { MixBitAt(h, GEN, 4); GenBits(); }
    assert !b0 && !b1 && !b2 && !b3 && !b4;
  }

  lemma {:induction false} GenBits()
    ensures !BitAt(GEN[0], 0) && BitAt(GEN[1], 0) && !BitAt(GEN[2], 0) && BitAt(GEN[3], 0) && BitAt(GEN[4], 0)
    ensures BitAt(GEN[0], 1) && !BitAt(GEN[1], 1) && BitAt(GEN[2], 1) && !BitAt(GEN[3], 1) && BitAt(GEN[4], 1)
    ensures !BitAt(GEN[0], 2) && BitAt(GEN[1], 2) && !BitAt(GEN[2], 2) && BitAt(GEN[3], 2) && !BitAt(GEN[4], 2)
    ensures !BitAt(GEN[0], 3) && BitAt(GEN[1], 3) && BitAt(GEN[2], 3) && BitAt(GEN[3], 3) && !BitAt(GEN[4], 3)
    ensures BitAt(GEN[0], 4) && !BitAt(GEN[1], 4) && BitAt(GEN[2], 4) && BitAt(GEN[3], 4) && BitAt(GEN[4], 4)
  {
    LowBits(GEN[0]);
    LowBits(GEN[1]);
    LowBits(GEN[2]);
    LowBits(GEN[3]);
    LowBits(GEN[4]);
  }

  /** The step is injective: only 0 is taken to 0 by a zero symbol. */
  lemma {:induction false} StepKernel(c: nat)
    requires c < TWO_30 && Step(c, 0) == 0
    ensures c == 0
  {
    var l, h := c % TWO_25 * 32, c / TWO_25;
    XorSelf(l);
    XorCancel(l, Mix(h, GEN));
    MultipleBits(c % TWO_25);
    MixKernel(h);
    MixZero(GEN);
  }

  lemma {:induction false} MultipleBits(q: nat)
    ensures forall i :: 0 <= i < 5 ==> !BitAt(q * 32, i)
  {
    forall i | 0 <= i < 5 ensures !BitAt(q * 32, i) {
      Constants();
      MultipleBit(q, 5, i);
    }
  }

  lemma {:induction false} MultipleBit(q: nat, k: nat, i: nat)
    requires i < k && q * Pow2(k) >= 0
    ensures !BitAt(q * Pow2(k), i)
    decreases i
  {
    var m := q * Pow2(k - 1);
    Assoc(q, 2, Pow2(k - 1));
    MulMono(0, q, Pow2(k - 1));
    assert q * Pow2(k) == 2 * m;
    if i > 0 {
      MultipleBit(q, k - 1, i - 1);
      assert High(2 * m, i) == High(m, i - 1);
    }
  }

  lemma {:induction false} MixZero(ks: seq<nat>)
    ensures Mix(0, ks) == 0
    decreases |ks|
  {
    if ks != [] {
      MixZero(ks[1..]);
    }
  }

  // ---------------------------------------------------------------- symbols and characters

  type Sym = v: nat | v < 32

  /** The characters of the symbols, by their codes: "qpzry9x8gf2tvdw0s3jn54khce6mua7l". */
  const CHARSET: seq<Byte> := [
    113, 112, 122, 114, 121, 57, 120, 56, 103, 102, 50, 116, 118, 100, 119, 48,
    115, 51, 106, 110, 53, 52, 107, 104, 99, 101, 54, 109, 117, 97, 55, 108]

  /** The 16 entries of the reverse table from character code 16 * `row` on. */
  function RevRow(row: nat): (r: seq<int>)
    ensures |r| == 16
  {
    if row == 3 then [15, -1, 10, 17, 21, 20, 26, 30, 7, 5, -1, -1, -1, -1, -1, -1]
    else if row == 4 || row == 6 then [-1, 29, -1, 24, 13, 25, 9, 8, 23, -1, 18, 22, 31, 27, 19, -1]
    else if row == 5 || row == 7 then [1, 0, 3, 16, 11, 28, 12, 14, 6, 4, 2, -1, -1, -1, -1, -1]
    else [-1, -1, -1, -1, -1, -1, -1, -1, -1, -1, -1, -1, -1, -1, -1, -1]
  }

  function CharsetRev(c: Byte): (v: int)
    requires c < 128
    ensures -1 <= v < 32
  {
    RevRow(c / 16)[c % 16]
  }

  /** Every symbol has a character of its own: no capital letter and not the separator. */
  lemma {:induction false} CharsetFacts(v: Sym)
    ensures 33 <= CHARSET[v] <= 126 && !(65 <= CHARSET[v] <= 90) && CHARSET[v] != 49
    ensures CharsetRev(CHARSET[v]) == v
  {
  }

  /** A symbol is read from its character, in capitals or not. */
  lemma {:induction false} RevFacts(c: Byte)
    requires c < 128 && CharsetRev(c) != -1
    ensures CHARSET[CharsetRev(c)] == LowerCase(c)
  {
    var row, j := c / 16, c % 16;
    assert c == 16 * row + j;
    if row == 3 {
      RowDigits(j);
    } else if row == 4 || row == 6 {
      RowLetters(j);
    } else {
      assert row == 5 || row == 7;
      RowMoreLetters(j);
    }
  }

  lemma {:induction false} RowDigits(j: nat)
    requires j < 16 && RevRow(3)[j] != -1
    ensures 0 <= RevRow(3)[j] < 32 && CHARSET[RevRow(3)[j]] == 48 + j
  {
  }

  lemma {:induction false} RowLetters(j: nat)
    requires j < 16 && RevRow(6)[j] != -1
    ensures 0 <= RevRow(6)[j] < 32 && CHARSET[RevRow(6)[j]] == 96 + j
  {
  }

  lemma {:induction false} RowMoreLetters(j: nat)
    requires j < 16 && RevRow(7)[j] != -1
    ensures 0 <= RevRow(7)[j] < 32 && CHARSET[RevRow(7)[j]] == 112 + j
  {
  }

  function LowerCase(c: Byte): (r: Byte) {
    if 65 <= c <= 90 then c + 32 else c
  }

  // ---------------------------------------------------------------- the checksum of a sequence

  /** PolyMod from a given state on. */
  ghost function Run(c: nat, v: seq<Sym>): (r: nat)
    decreases |v|
  {
    if v == [] then c else Run(Step(c, v[0]), v[1..])
  }

  lemma {:induction false} RunConcat(c: nat, u: seq<Sym>, v: seq<Sym>)
    ensures Run(c, u + v) == Run(Run(c, u), v)
    decreases |u|
  {
    if u == [] {
      assert u + v == v;
    } else {
      assert (u + v)[0] == u[0] && (u + v)[1..] == u[1..] + v;
      RunConcat(Step(c, u[0]), u[1..], v);
    }
  }

  lemma {:induction false} RunBound(c: nat, v: seq<Sym>)
    requires c < TWO_30
    ensures Run(c, v) < TWO_30
    decreases |v|
  {
    if v != [] {
      StepBound(c, v[0]);
      RunBound(Step(c, v[0]), v[1..]);
    }
  }

  function XorSym(a: Sym, b: Sym): (r: Sym) {
    XorBound(a, b, 5);
    assert Pow2(5) == 32;
    Xor(a, b)
  }

  /** The symbolwise exclusive or of two sequences. */
  function Diff(u: seq<Sym>, v: seq<Sym>): (d: seq<Sym>)
    requires |u| == |v|
    ensures |d| == |u|
  {
    if u == [] then [] else [XorSym(u[0], v[0])] + Diff(u[1..], v[1..])
  }

  /** PolyMod is linear over whole sequences. */
  lemma {:induction false} RunLinear(c: nat, d: nat, u: seq<Sym>, v: seq<Sym>)
    requires |u| == |v|
    ensures Run(Xor(c, d), Diff(u, v)) == Xor(Run(c, u), Run(d, v))
    decreases |u|
  {
    if u != [] {
      StepLinear(c, u[0], d, v[0]);
      RunLinear(Step(c, u[0]), Step(d, v[0]), u[1..], v[1..]);
    }
  }

  function Zeros(n: nat): (z: seq<Sym>)
    ensures |z| == n
  {
    if n == 0 then [] else [0] + Zeros(n - 1)
  }

  lemma {:induction false} DiffZeros(v: seq<Sym>)
    ensures Diff(Zeros(|v|), v) == v
    decreases |v|
  {
    if v != [] {
      DiffZeros(v[1..]);
    }
  }

  /** Zero symbols never take a state other than 0 to 0. */
  lemma {:induction false} RunZeros(c: nat, n: nat)
    requires c < TWO_30
    ensures Run(c, Zeros(n)) == 0 <==> c == 0
    decreases n
  {
    if n > 0 {
      StepBound(c, 0);
      StepZero();
      if c != 0 && Step(c, 0) == 0 {
        StepKernel(c);
      }
      RunZeros(Step(c, 0), n - 1);
    }
  }

  lemma {:induction false} StepZero()
    ensures Step(0, 0) == 0
  {
    MixZero(GEN);
  }

  // ---------------------------------------------------------------- up to six symbols

  /** The number with the given base-32 digits after `c`. */
  function Pack(c: nat, v: seq<Sym>): (r: nat)
    decreases |v|
  {
    if v == [] then c else Pack(c * 32 + v[0], v[1..])
  }

  lemma {:induction false} StepSmall(c: nat, v: Sym)
    requires c < TWO_25
    ensures Step(c, v) == c * 32 + v
  {
    MixZero(GEN);
    XorSelf(Xor(c * 32, v));
    XorLow(c, v);
  }

  lemma {:induction false} XorLow(c: nat, v: Sym)
    ensures Xor(c * 32, v) == c * 32 + v
  {
    Constants();
    XorDisjoint(c, v, 5);
  }

  lemma {:induction false} XorDisjoint(c: nat, v: nat, k: nat)
    requires v < Pow2(k) && c * Pow2(k) >= 0
    ensures Xor(c * Pow2(k), v) == c * Pow2(k) + v
    decreases k
  {
    if k == 0 {
      XorSelf(c);
    } else {
      var p := Pow2(k - 1);
      MulMono(0, c, p);
      XorDisjoint(c, v / 2, k - 1);
      XorDouble(c * p, 0, v / 2, v % 2);
      Assoc(c, 2, p);
    }
  }

  /** A state small enough just takes up symbols. */
  lemma {:induction false} RunPack(c: nat, v: seq<Sym>, k: nat)
    requires c < Pow2(5 * k) && k + |v| <= 6
    ensures Run(c, v) == Pack(c, v)
    decreases |v|
  {
    if v != [] {
      Pow2Mono(5 * k, 25);
      Constants();
      StepSmall(c, v[0]);
      Pow2Add(5 * k, 5);
      RunPack(c * 32 + v[0], v[1..], k + 1);
    }
  }

  lemma {:induction false} PackZero(c: nat, v: seq<Sym>)
    ensures Pack(c, v) == 0 <==> c == 0 && v == Zeros(|v|)
    decreases |v|
  {
    if v != [] {
      PackZero(c * 32 + v[0], v[1..]);
      assert v == [v[0]] + v[1..];
    }
  }

  /** Six symbols fed after state `c` are added to what six zeros would give. */
  lemma {:induction false} RunSix(c: nat, w: seq<Sym>)
    requires |w| == 6
    ensures Run(c, w) == Xor(Run(c, Zeros(6)), Pack(0, w))
  {
    RunLinear(c, 0, Zeros(6), w);
    DiffZeros(w);
    XorSelf(c);
    RunPack(0, w, 0);
  }

  // ---------------------------------------------------------------- bursts

  /** The sequences agree except for at most six consecutive symbols. */
  predicate Burst(u: seq<Sym>, v: seq<Sym>, p: nat, n: nat) {
    |u| == |v| && n <= 6 && p + n <= |u| && u[..p] == v[..p] && u[p + n..] == v[p + n..]
  }

  /** A change within six consecutive symbols always changes the checksum, at any length. */
  lemma {:induction false} BurstDetected(c: nat, u: seq<Sym>, v: seq<Sym>, p: nat, n: nat)
    requires Burst(u, v, p, n) && u != v
    ensures Run(c, u) != Run(c, v)
  {
    var a, b, tail := u[p..p + n], v[p..p + n], u[p + n..];
    var s := Run(c, u[..p]);
    assert u == u[..p] + (a + tail) && v == u[..p] + (b + tail);
    assert a != b;
    RunConcat(c, u[..p], a + tail);
    RunConcat(c, u[..p], b + tail);
    RunConcat(s, a, tail);
    RunConcat(s, b, tail);
    BurstState(s, a, b);
    RunApart(Run(s, a), Run(s, b), tail);
  }

  /** After the burst the states differ. */
  lemma {:induction false} BurstState(s: nat, a: seq<Sym>, b: seq<Sym>)
    requires |a| == |b| <= 6 && a != b
    ensures Run(s, a) != Run(s, b) && Xor(Run(s, a), Run(s, b)) < TWO_30
  {
    RunLinear(s, s, a, b);
    XorSelf(s);
    RunPack(0, Diff(a, b), 0);
    PackZero(0, Diff(a, b));
    DiffEqual(a, b);
    XorSelf(Run(s, a));
    RunBound(0, Diff(a, b));
  }

  lemma {:induction false} DiffEqual(a: seq<Sym>, b: seq<Sym>)
    requires |a| == |b|
    ensures Diff(a, b) == Zeros(|a|) ==> a == b
    decreases |a|
  {
    if a != [] {
      var d, z := Diff(a, b), Zeros(|a|);
      if d == z {
        assert d[0] == z[0] && d[1..] == z[1..];
        XorCancel(a[0], b[0]);
        DiffEqual(a[1..], b[1..]);
        assert a == [a[0]] + a[1..] && b == [b[0]] + b[1..];
      }
    }
  }

  /** Equal symbols keep different states different. */
  lemma {:induction false} RunApart(x: nat, y: nat, v: seq<Sym>)
    requires x != y && Xor(x, y) < TWO_30
    ensures Run(x, v) != Run(y, v)
  {
    RunLinear(x, y, v, v);
    DiffSame(v);
    XorCancel(x, y);
    RunZeros(Xor(x, y), |v|);
    XorSelf(Run(x, v));
  }

  lemma {:induction false} DiffSame(v: seq<Sym>)
    ensures Diff(v, v) == Zeros(|v|)
    decreases |v|
  {
    if v != [] {
      XorSelf(v[0]);
      DiffSame(v[1..]);
    }
  }

  // ---------------------------------------------------------------- checksums of strings

  datatype Encoding = INVALID | BECH32 | BECH32M

  function EncodingConstant(e: Encoding): (c: nat)
    requires e != INVALID
    ensures c < TWO_30
  {
    if e == BECH32 then 1 else 0x2bc830a3
  }

  /** The high bits of every character, a zero, and the low bits of every character. */
  function Expanded(hrp: seq<Byte>): (v: seq<Sym>)
    ensures |v| == 2 * |hrp| + 1
  {
    seq(|hrp|, i requires 0 <= i < |hrp| => hrp[i] / 32) + [0] + seq(|hrp|, i requires 0 <= i < |hrp| => hrp[i] % 32)
  }

  ghost function Check(hrp: seq<Byte>, values: seq<Sym>): (c: nat) {
    Run(1, Expanded(hrp) + values)
  }

  ghost function Verified(hrp: seq<Byte>, values: seq<Sym>): (e: Encoding) {
    if Check(hrp, values) == EncodingConstant(BECH32) then BECH32
    else if Check(hrp, values) == EncodingConstant(BECH32M) then BECH32M
    else INVALID
  }

  /** The last `n` base-32 digits of a number. */
  function Digits(m: nat, n: nat): (d: seq<Sym>)
    ensures |d| == n
  {
    if n == 0 then [] else Digits(m / 32, n - 1) + [m % 32]
  }

  /** Digit `i`, by a shift and a mask. */
  lemma {:induction false} DigitAt(m: nat, n: nat, i: nat)
    requires i < n
    ensures Digits(m, n)[i] == m / Pow2(5 * (n - 1 - i)) % 32
    decreases n
  {
    if i < n - 1 {
      DigitAt(m / 32, n - 1, i);
      Pow2Add(5 * (n - 2 - i), 5);
      assert Pow2(5) == 32;
      DivTwice(m, 32, Pow2(5 * (n - 2 - i)));
    }
  }

  lemma {:induction false} PackAppend(c: nat, v: seq<Sym>, x: Sym)
    ensures Pack(c, v + [x]) == Pack(c, v) * 32 + x
    decreases |v|
  {
    if v == [] {
      assert v + [x] == [x];
    } else {
      assert (v + [x])[1..] == v[1..] + [x];
      PackAppend(c * 32 + v[0], v[1..], x);
    }
  }

  /** Packing and taking digits are inverse. */
  lemma {:induction false} PackDigits(m: nat, n: nat)
    requires m < Pow2(5 * n)
    ensures Pack(0, Digits(m, n)) == m
    decreases n
  {
    if n > 0 {
      Pow2Add(5 * (n - 1), 5);
      assert Pow2(5) == 32;
      PackDigits(m / 32, n - 1);
      PackAppend(0, Digits(m / 32, n - 1), m % 32);
    }
  }

  lemma {:induction false} DigitsPack(d: seq<Sym>)
    ensures Pack(0, d) < Pow2(5 * |d|) && Digits(Pack(0, d), |d|) == d
    decreases |d|
  {
    if d != [] {
      var n := |d| - 1;
      var u, x := d[..n], d[n];
      assert d == u + [x];
      DigitsPack(u);
      PackAppend(0, u, x);
      DigitsLast(Pack(0, u), x, n);
    }
  }

  lemma {:induction false} DigitsLast(m: nat, x: Sym, n: nat)
    requires m < Pow2(5 * n)
    ensures m * 32 + x < Pow2(5 * (n + 1)) && Digits(m * 32 + x, n + 1) == Digits(m, n) + [x]
  {
    Pow2Add(5 * n, 5);
    assert Pow2(5) == 32;
    assert (m * 32 + x) / 32 == m && (m * 32 + x) % 32 == x;
  }

  ghost function ChecksumOf(e: Encoding, hrp: seq<Byte>, values: seq<Sym>): (w: seq<Sym>)
    requires e != INVALID
    ensures |w| == 6
  {
    Digits(Xor(Run(1, Expanded(hrp) + values + Zeros(6)), EncodingConstant(e)), 6)
  }

  lemma {:induction false} ModBound(e: Encoding, hrp: seq<Byte>, values: seq<Sym>)
    requires e != INVALID
    ensures Xor(Run(1, Expanded(hrp) + values + Zeros(6)), EncodingConstant(e)) < TWO_30
  {
    RunBound(1, Expanded(hrp) + values + Zeros(6));
    Constants();
    XorBound(Run(1, Expanded(hrp) + values + Zeros(6)), EncodingConstant(e), 30);
  }

  /** Six more symbols make a sequence valid exactly if they are its checksum. */
  lemma {:induction false} ChecksumUnique(e: Encoding, hrp: seq<Byte>, values: seq<Sym>, w: seq<Sym>)
    requires e != INVALID && |w| == 6
    ensures Check(hrp, values + w) == EncodingConstant(e) <==> w == ChecksumOf(e, hrp, values)
  {
    var base, k := Expanded(hrp) + values, EncodingConstant(e);
    var c := Run(1, base);
    assert Expanded(hrp) + (values + w) == base + w;
    RunConcat(1, base, w);
    RunConcat(1, base, Zeros(6));
    RunSix(c, w);
    var z := Run(c, Zeros(6));
    DigitsPack(w);
    Constants();
    ModBound(e, hrp, values);
    PackDigits(Xor(z, k), 6);
    XorCancel(z, Pack(0, w));
    XorCancel(z, k);
  }

  lemma {:induction false} VerifiedIff(hrp: seq<Byte>, values: seq<Sym>, w: seq<Sym>, e: Encoding)
    requires e != INVALID && |w| == 6
    ensures Verified(hrp, values + w) == e <==> w == ChecksumOf(e, hrp, values)
  {
    ChecksumUnique(e, hrp, values, w);
  }

  /** A burst of errors in a valid string breaks the checksum of its variant. */
  lemma {:induction false} BurstBreaksChecksum(hrp: seq<Byte>, u: seq<Sym>, v: seq<Sym>, p: nat, n: nat)
    requires Burst(u, v, p, n) && u != v && Verified(hrp, u) != INVALID
    ensures Verified(hrp, v) != Verified(hrp, u)
  {
    var x := Expanded(hrp);
    assert (x + u)[..|x| + p] == x + u[..p] && (x + v)[..|x| + p] == x + v[..p];
    assert (x + u)[|x| + p + n..] == u[p + n..] && (x + v)[|x| + p + n..] == v[p + n..];
    assert u == (x + u)[|x|..] && v == (x + v)[|x|..];
    BurstDetected(1, x + u, x + v, |x| + p, n);
  }

  // ---------------------------------------------------------------- strings

  /** A table of characters for symbols, and its reverse, -1 for no symbol. */
  datatype Code = Code(enc: Sym -> Byte, dec: Byte -> int)

  ghost predicate EncOk(code: Code, v: Sym) {
    33 <= code.enc(v) <= 126 && !IsUpper(code.enc(v)) && code.enc(v) != 49 && code.dec(code.enc(v)) == v
  }

  ghost predicate DecOk(code: Code, c: Byte) {
    && (code.dec(c) != -1 ==> 0 <= code.dec(c) < 32 && code.enc(code.dec(c)) == LowerCase(c))
    && code.dec(LowerCase(c)) == code.dec(c)
  }

  /** The tables are inverse up to case, and no symbol has the separator or a capital letter. */
  ghost predicate CodeOk(code: Code) {
    && (forall v: Sym {:trigger EncOk(code, v)} :: EncOk(code, v))
    && (forall c: Byte {:trigger DecOk(code, c)} :: DecOk(code, c))
  }

  const BECH: Code := Code((v: Sym) => CHARSET[v], (c: Byte) => if c < 128 then CharsetRev(c) else -1)

  lemma {:induction false} BechOk()
    ensures CodeOk(BECH)
  {
    forall v: Sym ensures EncOk(BECH, v) {
      CharsetFacts(v);
    }
    forall c: Byte ensures DecOk(BECH, c) {
      if c < 128 {
        if CharsetRev(c) != -1 {
          RevFacts(c);
        }
        SameInCapitals(c);
      }
    }
  }

  lemma {:induction false} SameInCapitals(c: Byte)
    requires c < 128
    ensures LowerCase(c) < 128 && CharsetRev(LowerCase(c)) == CharsetRev(c)
  {
    if IsUpper(c) {
      assert (c + 32) / 16 == c / 16 + 2 && (c + 32) % 16 == c % 16;
    }
  }

  function Chars(code: Code, v: seq<Sym>): (s: seq<Byte>)
    ensures |s| == |v| && forall i :: 0 <= i < |v| ==> s[i] == code.enc(v[i])
  {
    seq(|v|, i requires 0 <= i < |v| => code.enc(v[i]))
  }

  function Lower(s: seq<Byte>): (r: seq<Byte>)
    ensures |r| == |s| && forall i :: 0 <= i < |s| ==> r[i] == LowerCase(s[i])
  {
    seq(|s|, i requires 0 <= i < |s| => LowerCase(s[i]))
  }

  predicate IsLower(c: Byte) {
    97 <= c <= 122
  }

  predicate IsUpper(c: Byte) {
    65 <= c <= 90
  }

  /** Printable characters only, not of mixed case, and not too long. */
  ghost predicate WellFormed(s: seq<Byte>, extLength: bool) {
    && (forall i :: 0 <= i < |s| ==> 33 <= s[i] <= 126)
    && !((exists i :: 0 <= i < |s| && IsLower(s[i])) && (exists i :: 0 <= i < |s| && IsUpper(s[i])))
    && (|s| <= 90 || extLength)
  }

  /** The position of the last separator, or -1. */
  function RFind(s: seq<Byte>): (p: int)
    ensures -1 <= p < |s|
    ensures p >= 0 ==> s[p] == 49
    ensures forall i :: p < i < |s| ==> s[i] != 49
  {
    if s == [] then -1
    else if s[|s| - 1] == 49 then |s| - 1
    else RFind(s[..|s| - 1])
  }

  /** The characters `t` stand for the symbols `v`. */
  ghost predicate Reads(code: Code, t: seq<Byte>, v: seq<Sym>) {
    |v| == |t| && forall i :: 0 <= i < |t| ==> code.dec(t[i]) == v[i]
  }

  /** Characters stand for symbols exactly if in lower case they are the characters of these. */
  lemma {:induction false} ReadsIff(code: Code, t: seq<Byte>, v: seq<Sym>)
    requires CodeOk(code)
    ensures Reads(code, t, v) <==> Lower(t) == Chars(code, v)
    ensures Reads(code, t, v) ==> 49 !in t
  {
    forall i | 0 <= i < |t| && i < |v|
      ensures code.dec(t[i]) == v[i] <==> LowerCase(t[i]) == code.enc(v[i])
      ensures code.dec(t[i]) == v[i] ==> t[i] != 49
    {
      assert DecOk(code, t[i]) && EncOk(code, v[i]);
    }
    if Reads(code, t, v) {
      assert Lower(t) == Chars(code, v);
    }
  }

  datatype DecodeResult = Failed | Decoded(encoding: Encoding, hrp: seq<Byte>, data: seq<Sym>)

  /** The string with the given prefix and data. */
  ghost function Encoded(code: Code, e: Encoding, hrp: seq<Byte>, data: seq<Sym>): (s: seq<Byte>)
    requires e != INVALID
  {
    hrp + [49] + Chars(code, data + ChecksumOf(e, hrp, data))
  }

  /** The string is, in lower case, the encoding of a result. */
  ghost predicate Encodes(code: Code, s: seq<Byte>, r: DecodeResult) {
    r.Decoded? && r.encoding != INVALID && r.hrp != [] && Lower(s) == Encoded(code, r.encoding, r.hrp, r.data)
  }

  /** A string splits at the last separator, in lower case too. */
  lemma {:induction false} SplitLower(s: seq<Byte>, p: nat)
    requires p < |s| && s[p] == 49
    ensures Lower(s) == Lower(s[..p]) + [49] + Lower(s[p + 1..])
  {
  }

  lemma {:induction false} SplitUnique(s: seq<Byte>, h: seq<Byte>, t: seq<Byte>)
    requires Lower(s) == h + [49] + t && 49 !in t
    ensures RFind(s) == |h| && Lower(s[..|h|]) == h && Lower(s[|h| + 1..]) == t
  {
    var l := h + [49] + t;
    assert l[|h|] == 49 && LowerCase(s[|h|]) == 49;
    forall i | |h| < i < |s| ensures s[i] != 49 {
      assert l[i] == t[i - |h| - 1];
    }
    SplitParts(s, h, t);
  }

  lemma {:induction false} SplitParts(s: seq<Byte>, h: seq<Byte>, t: seq<Byte>)
    requires Lower(s) == h + [49] + t
    ensures Lower(s[..|h|]) == h && Lower(s[|h| + 1..]) == t
  {
    var l := h + [49] + t;
    forall i | 0 <= i < |h| ensures Lower(s[..|h|])[i] == h[i] {
      assert l[i] == h[i];
    }
    forall i | 0 <= i < |t| ensures Lower(s[|h| + 1..])[i] == t[i] {
      assert l[|h| + 1 + i] == t[i];
    }
  }

  lemma {:induction false} CharsNoSeparator(code: Code, v: seq<Sym>)
    requires CodeOk(code)
    ensures 49 !in Chars(code, v)
  {
    forall i | 0 <= i < |v| ensures Chars(code, v)[i] != 49 {
      assert EncOk(code, v[i]);
    }
  }

  /** What a string encodes is determined by what is read from it. */
  lemma {:induction false} EncodesUnique(code: Code, s: seq<Byte>, r: DecodeResult)
    requires CodeOk(code) && Encodes(code, s, r)
    ensures var p := RFind(s);
            && p == |r.hrp| && Lower(s[..p]) == r.hrp
            && Reads(code, s[p + 1..], r.data + ChecksumOf(r.encoding, r.hrp, r.data))
  {
    var v := r.data + ChecksumOf(r.encoding, r.hrp, r.data);
    CharsNoSeparator(code, v);
    SplitUnique(s, r.hrp, Chars(code, v));
    ReadsIff(code, s[|r.hrp| + 1..], v);
  }

  lemma {:induction false} ReadsOnce(code: Code, t: seq<Byte>, v: seq<Sym>, w: seq<Sym>)
    requires Reads(code, t, v) && Reads(code, t, w)
    ensures v == w
  {
    assert forall i :: 0 <= i < |t| ==> v[i] == w[i];
  }

  lemma {:induction false} DecodedEncodes(code: Code, s: seq<Byte>, h: seq<Byte>, d: seq<Sym>, w: seq<Sym>, e: Encoding)
    requires CodeOk(code) && RFind(s) > 0 && h == Lower(s[..RFind(s)]) && Reads(code, s[RFind(s) + 1..], d + w)
    requires |w| == 6 && e == Verified(h, d + w) && e != INVALID
    ensures Encodes(code, s, Decoded(e, h, d))
  {
    SplitLower(s, RFind(s));
    ReadsIff(code, s[RFind(s) + 1..], d + w);
    VerifiedIff(h, d, w, e);
  }

  lemma {:induction false} EncodedOnce(code: Code, s: seq<Byte>, h: seq<Byte>, d: seq<Sym>, w: seq<Sym>,
                                       r: DecodeResult)
    requires CodeOk(code) && RFind(s) > 0 && h == Lower(s[..RFind(s)]) && Reads(code, s[RFind(s) + 1..], d + w)
    requires |w| == 6 && Encodes(code, s, r)
    ensures r.encoding != INVALID && Verified(h, d + w) == r.encoding && r == Decoded(r.encoding, h, d)
  {
    var c := ChecksumOf(r.encoding, r.hrp, r.data);
    EncodesUnique(code, s, r);
    ReadsOnce(code, s[RFind(s) + 1..], d + w, r.data + c);
    SplitSame(d, w, r.data, c);
    VerifiedIff(h, d, w, r.encoding);
  }

  lemma {:induction false} SplitSame(d: seq<Sym>, w: seq<Sym>, d': seq<Sym>, w': seq<Sym>)
    requires |w| == |w'| && d + w == d' + w'
    ensures d == d' && w == w'
  {
    assert |d| == |d'|;
    assert d == (d + w)[..|d|] && w == (d + w)[|d|..];
    assert d' == (d' + w')[..|d|] && w' == (d' + w')[|d|..];
  }

  /** Decoding by the source's steps gives the result that the string encodes, and fails if there is none. */
  lemma {:induction false} DecodeIsRight(code: Code, s: seq<Byte>, h: seq<Byte>, v: seq<Sym>, e: Encoding)
    requires CodeOk(code) && RFind(s) > 0 && h == Lower(s[..RFind(s)]) && Reads(code, s[RFind(s) + 1..], v) && |v| >= 6
    requires e == Verified(h, v)
    ensures e != INVALID ==> Encodes(code, s, Decoded(e, h, v[..|v| - 6]))
    ensures forall r :: Encodes(code, s, r) ==> e != INVALID && r == Decoded(e, h, v[..|v| - 6])
  {
    var d, w := v[..|v| - 6], v[|v| - 6..];
    assert v == d + w;
    if e != INVALID {
      DecodedEncodes(code, s, h, d, w, e);
    }
    forall r | Encodes(code, s, r)
      ensures e != INVALID && r == Decoded(e, h, d)
    {
      EncodedOnce(code, s, h, d, w, r);
    }
  }

  lemma {:induction false} EncodesShape(code: Code, s: seq<Byte>, r: DecodeResult)
    requires CodeOk(code) && Encodes(code, s, r)
    ensures 0 < RFind(s) <= |s| - 7
    ensures forall i :: RFind(s) < i < |s| ==> code.dec(s[i]) != -1
  {
    EncodesUnique(code, s, r);
    var p := RFind(s);
    var t, v := s[p + 1..], r.data + ChecksumOf(r.encoding, r.hrp, r.data);
    forall i | p < i < |s| ensures code.dec(s[i]) != -1 {
      assert s[i] == t[i - p - 1] && code.dec(t[i - p - 1]) == v[i - p - 1];
    }
  }

  /** A string that is cut wrong, or has a character that is no symbol, encodes nothing. */
  lemma {:induction false} DecodeFails(code: Code, s: seq<Byte>)
    requires CodeOk(code)
    requires RFind(s) <= 0 || RFind(s) + 7 > |s| || exists i :: RFind(s) < i < |s| && code.dec(s[i]) == -1
    ensures forall r :: !Encodes(code, s, r)
  {
    forall r ensures !Encodes(code, s, r) {
      if Encodes(code, s, r) {
        EncodesShape(code, s, r);
      }
    }
  }

  // ---------------------------------------------------------------- the operations

  /** Reduce a state by the multiples of the generator that the bits of `c0` select. */
  method Reduce(c: nat, c0: nat) returns (r: nat)
    ensures r == Xor(c, Mix(c0, GEN))
  {
    r := c;
    MixFive(c0, GEN);
    if c0 % 2 == 1 {
      r := Xor(r, 0x3b6a57b2);
    }
    if c0 / 2 % 2 == 1 {
      r := Xor(r, 0x26508e6d);
    }
    if c0 / 4 % 2 == 1 {
      r := Xor(r, 0x1ea119fa);
    }
    if c0 / 8 % 2 == 1 {
      r := Xor(r, 0x3d4233dd);
    }
    if c0 / 16 % 2 == 1 {
      r := Xor(r, 0x2a1462b3);
    }
    ReduceChain(c, When(c0 % 2 == 1, 0x3b6a57b2), When(c0 / 2 % 2 == 1, 0x26508e6d), When(c0 / 4 % 2 == 1, 0x1ea119fa),
                When(c0 / 8 % 2 == 1, 0x3d4233dd), When(c0 / 16 % 2 == 1, 0x2a1462b3));
  }

  lemma {:induction false} ReduceChain(c: nat, a: nat, b: nat, d: nat, e: nat, f: nat)
    ensures Xor(Xor(Xor(Xor(Xor(c, a), b), d), e), f) == Xor(c, Xor(a, Xor(b, Xor(d, Xor(e, f)))))
    ensures Xor(c, 0) == c && Xor(Xor(c, a), 0) == Xor(c, a) && Xor(Xor(Xor(c, a), b), 0) == Xor(Xor(c, a), b)
    ensures Xor(Xor(Xor(Xor(c, a), b), d), 0) == Xor(Xor(Xor(c, a), b), d)
    ensures Xor(Xor(Xor(Xor(Xor(c, a), b), d), e), 0) == Xor(Xor(Xor(Xor(c, a), b), d), e)
  {
    var x := Xor(c, a);
    var y := Xor(x, b);
    var z := Xor(y, d);
    XorSelf(c);
    XorSelf(x);
    XorSelf(y);
    XorSelf(z);
    XorSelf(Xor(z, e));
    XorAssoc(z, e, f);
    XorAssoc(y, d, Xor(e, f));
    XorAssoc(x, b, Xor(d, Xor(e, f)));
    XorAssoc(c, a, Xor(b, Xor(d, Xor(e, f))));
  }

  method PolyMod(v: seq<Sym>) returns (c: nat)
    ensures c == Run(1, v) && c < TWO_30
  {
    c := 1;
    for i := 0 to |v|
      invariant Run(1, v) == Run(c, v[i..])
    {
      assert v[i..][0] == v[i] && v[i..][1..] == v[i + 1..];
      c := Reduce(Xor(c % TWO_25 * 32, v[i]), c / TWO_25);
    }
    RunBound(1, v);
  }

  method ExpandHRP(hrp: seq<Byte>) returns (ret: seq<Sym>)
    ensures ret == Expanded(hrp)
  {
    var a := new Sym[2 * |hrp| + 1](_ => 0);
    for i := 0 to |hrp|
      invariant forall j :: 0 <= j < i ==> a[j] == hrp[j] / 32 && a[j + |hrp| + 1] == hrp[j] % 32
      invariant a[|hrp|] == 0
    {
      a[i], a[i + |hrp| + 1] := hrp[i] / 32, hrp[i] % 32;
    }
    ret := a[..];
    forall j | 0 <= j < |ret| ensures ret[j] == Expanded(hrp)[j] {
      assert j > |hrp| ==> a[(j - |hrp| - 1) + |hrp| + 1] == hrp[j - |hrp| - 1] % 32;
    }
  }

  method VerifyChecksum(hrp: seq<Byte>, values: seq<Sym>) returns (e: Encoding)
    ensures e == Verified(hrp, values)
  {
    var x := ExpandHRP(hrp);
    var check := PolyMod(x + values);
    if check == EncodingConstant(BECH32) {
      return BECH32;
    }
    if check == EncodingConstant(BECH32M) {
      return BECH32M;
    }
    return INVALID;
  }

  method CreateChecksum(e: Encoding, hrp: seq<Byte>, values: seq<Sym>) returns (ret: seq<Sym>)
    requires e != INVALID
    ensures ret == ChecksumOf(e, hrp, values)
  {
    var x := ExpandHRP(hrp);
    var m := PolyMod(x + values + Zeros(6));
    m := Xor(m, EncodingConstant(e));
    ret := [];
    for i := 0 to 6
      invariant |ret| == i && forall j :: 0 <= j < i ==> ret[j] == Digits(m, 6)[j]
    {
      DigitAt(m, 6, i);
      ret := ret + [m / Pow2(5 * (5 - i)) % 32];
    }
    assert ret == Digits(m, 6);
  }

  /** The prefix must not have capital letters. */
  method Encode(e: Encoding, hrp: seq<Byte>, values: seq<Sym>) returns (ret: seq<Byte>)
    requires e != INVALID && forall i :: 0 <= i < |hrp| ==> !IsUpper(hrp[i])
    ensures ret == Encoded(BECH, e, hrp, values)
  {
    var checksum := CreateChecksum(e, hrp, values);
    var combined := values + checksum;
    ret := hrp + [49];
    for i := 0 to |combined|
      invariant ret == hrp + [49] + Chars(BECH, combined)[..i]
    {
      ret := ret + [CHARSET[combined[i]]];
    }
  }

  method CheckChars(s: seq<Byte>) returns (ok: bool)
    ensures ok <==> WellFormed(s, true)
  {
    var lower, upper := false, false;
    for i := 0 to |s|
      invariant forall j :: 0 <= j < i ==> 33 <= s[j] <= 126
      invariant lower <==> exists j :: 0 <= j < i && IsLower(s[j])
      invariant upper <==> exists j :: 0 <= j < i && IsUpper(s[j])
    {
      if IsLower(s[i]) {
        lower := true;
      } else if IsUpper(s[i]) {
        upper := true;
      } else if s[i] < 33 || s[i] > 126 {
        return false;
      }
    }
    return !(lower && upper);
  }

  method ReadSymbols(t: seq<Byte>) returns (ok: bool, v: seq<Sym>)
    requires forall i :: 0 <= i < |t| ==> t[i] < 128
    ensures ok ==> Reads(BECH, t, v)
    ensures !ok ==> exists i :: 0 <= i < |t| && BECH.dec(t[i]) == -1
  {
    v := [];
    for i := 0 to |t|
      invariant |v| == i && forall j :: 0 <= j < i ==> BECH.dec(t[j]) == v[j]
    {
      var rev := CharsetRev(t[i]);
      if rev == -1 {
        assert BECH.dec(t[i]) == -1;
        return false, v;
      }
      v := v + [rev];
    }
    return true, v;
  }

  method ToLower(s: seq<Byte>) returns (r: seq<Byte>)
    ensures r == Lower(s)
  {
    r := [];
    for i := 0 to |s|
      invariant r == Lower(s)[..i]
    {
      r := r + [LowerCase(s[i])];
    }
  }

  /** Decoding succeeds exactly on the well-formed strings that are encodings up to case, with what they encode. */
  method Decode(s: seq<Byte>, extLength: bool) returns (r: DecodeResult)
    ensures r.Decoded? ==> WellFormed(s, extLength) && Encodes(BECH, s, r)
    ensures WellFormed(s, extLength) ==> forall q :: Encodes(BECH, s, q) ==> r == q
  {
    BechOk();
    var ok := CheckChars(s);
    if !ok {
      return Failed;
    }
    if |s| > 90 && !extLength {
      return Failed;
    }
    r := DecodeParts(s);
  }

  /** Cut the string at the last separator, read the symbols and verify the checksum. */
  method DecodeParts(s: seq<Byte>) returns (r: DecodeResult)
    requires CodeOk(BECH) && forall i :: 0 <= i < |s| ==> s[i] < 128
    ensures r.Decoded? ==> Encodes(BECH, s, r)
    ensures forall q :: Encodes(BECH, s, q) ==> r == q
  {
    var pos := RFind(s);
    if pos == -1 || pos == 0 || pos + 7 > |s| {
      DecodeFails(BECH, s);
      return Failed;
    }
    var t := s[pos + 1..];
    var read, values := ReadSymbols(t);
    if !read {
      NoSymbol(s, pos, t);
      return Failed;
    }
    var hrp := ToLower(s[..pos]);
    var e := VerifyChecksum(hrp, values);
    DecodeIsRight(BECH, s, hrp, values, e);
    if e == INVALID {
      return Failed;
    }
    return Decoded(e, hrp, values[..|values| - 6]);
  }

  lemma {:induction false} NoSymbol(s: seq<Byte>, pos: nat, t: seq<Byte>)
    requires CodeOk(BECH) && pos == RFind(s) && pos < |s| && t == s[pos + 1..]
    requires exists i :: 0 <= i < |t| && BECH.dec(t[i]) == -1
    ensures forall r :: !Encodes(BECH, s, r)
  {
    var i :| 0 <= i < |t| && BECH.dec(t[i]) == -1;
    assert BECH.dec(s[pos + 1 + i]) == -1;
    DecodeFails(BECH, s);
  }

  /** What Encode makes of a lower-case printable prefix and data of fitting length is well-formed,
      so that Decode returns the same variant, prefix and data. */
  lemma {:induction false} EncodedDecodes(e: Encoding, hrp: seq<Byte>, data: seq<Sym>, extLength: bool)
    requires e != INVALID && hrp != [] && (|hrp| + |data| + 7 <= 90 || extLength)
    requires forall i :: 0 <= i < |hrp| ==> 33 <= hrp[i] <= 126 && !IsUpper(hrp[i])
    ensures var s := Encoded(BECH, e, hrp, data);
            WellFormed(s, extLength) && Encodes(BECH, s, Decoded(e, hrp, data))
  {
    BechOk();
    EncodedLower(BECH, e, hrp, data);
  }

  lemma {:induction false} EncodedLower(code: Code, e: Encoding, hrp: seq<Byte>, data: seq<Sym>)
    requires CodeOk(code) && e != INVALID && forall i :: 0 <= i < |hrp| ==> 33 <= hrp[i] <= 126 && !IsUpper(hrp[i])
    ensures var s := Encoded(code, e, hrp, data);
            && |s| == |hrp| + |data| + 7 && Lower(s) == s
            && forall i :: 0 <= i < |s| ==> 33 <= s[i] <= 126 && !IsUpper(s[i])
  {
    var s, v := Encoded(code, e, hrp, data), data + ChecksumOf(e, hrp, data);
    forall i | 0 <= i < |s| ensures 33 <= s[i] <= 126 && !IsUpper(s[i]) {
      if i > |hrp| {
        assert s[i] == Chars(code, v)[i - |hrp| - 1];
        assert EncOk(code, v[i - |hrp| - 1]);
      }
    }
  }
}
