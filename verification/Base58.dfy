/**
 Base58 (src/base58.cpp): conversion of a byte string to base 58 and back, digit by digit
 in a buffer that is multiplied and carried in place.

 A string is the list of its character codes.
 */
module Base58 {
  import opened Numbers
  import opened Wrappers

  // ---------------------------------------------------------------- powers

  ghost function Pow(b: nat, n: nat): (p: nat) {
    if n == 0 then 1 else Scaled(Pow(b, n - 1), b)
  }

  lemma {:induction false} PowPos(b: nat, n: nat)
    requires b > 0
    ensures Pow(b, n) > 0
  {
    if n > 0 {
      PowPos(b, n - 1);
      ScaledIs(Pow(b, n - 1), b);
      MulPos(Pow(b, n - 1), b);
    }
  }

  lemma {:induction false} PowStep(b: nat, n: nat)
    ensures Pow(b, n + 1) == b * Pow(b, n) == Scaled(b, Pow(b, n))
  {
    ScaledIs(Pow(b, n), b);
    ScaledIs(b, Pow(b, n));
  }

  lemma {:induction false} PowAdd(b: nat, m: nat, n: nat)
    ensures Pow(b, m + n) == Pow(b, m) * Pow(b, n)
    decreases m
  {
    if m > 0 {
      PowAdd(b, m - 1, n);
      PowStep(b, m - 1 + n);
      PowStep(b, m - 1);
      Assoc(b, Pow(b, m - 1), Pow(b, n));
    }
  }

  lemma {:induction false} PowPow(b: nat, m: nat, k: nat)
    requires m * k >= 0
    ensures Pow(Pow(b, m), k) == Pow(b, m * k)
    decreases k
  {
    if k > 0 {
      MulMono(0, m, k - 1);
      PowPow(b, m, k - 1);
      PowStep(Pow(b, m), k - 1);
      Distribute(k - 1, 1, m);
      PowAdd(b, m, m * (k - 1));
    }
  }

  lemma {:induction false} PowBaseMono(x: nat, y: nat, k: nat)
    requires x <= y
    ensures Pow(x, k) <= Pow(y, k)
    decreases k
  {
    if k > 0 {
      PowBaseMono(x, y, k - 1);
      PowStep(x, k - 1);
      PowStep(y, k - 1);
      MulBoth(x, y, Pow(x, k - 1), Pow(y, k - 1));
    }
  }

  lemma {:induction false} MulBoth(x: nat, y: nat, p: nat, q: nat)
    requires x <= y && p <= q
    ensures x * p <= y * q
  {
    MulMono(x, y, p);
    MulMono(p, q, y);
  }

  lemma {:induction false} PowMono(b: nat, m: nat, n: nat)
    requires b >= 2 && m <= n
    ensures Pow(b, m) <= Pow(b, n) && (m < n ==> Pow(b, m) < Pow(b, n))
    decreases n
  {
    if m < n {
      PowMono(b, m, n - 1);
      PowPos(b, n - 1);
      PowStep(b, n - 1);
      MulMono(2, b, Pow(b, n - 1));
    }
  }

  lemma {:induction false} PowProduct(b: nat, m: nat, n: nat, x: nat, y: nat)
    requires Pow(b, m) == x && Pow(b, n) == y
    ensures Pow(b, m + n) == x * y
  {
    PowAdd(b, m, n);
  }

  /** 58^71 <= 256^52, in units of an exponent `u` that stands for 1. */
  lemma {:induction false} Ratio58(b: nat, c: nat, u: nat)
    requires Pow(b, u) == 58 && Pow(c, u) == 256
    ensures Pow(b, 71 * u) <= Pow(c, 52 * u)
  {
    Big58(b, u);
    Big256(c, u);
  }

  lemma {:induction false} Big58(b: nat, u: nat)
    requires Pow(b, u) == 58
    ensures Pow(b, 8 * u) == 128063081718016
    ensures Pow(b, 3 * u) == 195112
    ensures Pow(b, 71 * u) ==
            0xf1a10f76073f997e1af0b37f5c795ecf145633452837a5de3fa17ac74b86f60a0ebe5446f358940a4ca12a800000000000000000
  {
    PowProduct(b, 1 * u, 1 * u, 58, 58);
    PowProduct(b, 1 * u, 2 * u, 58, 3364);
    PowProduct(b, 2 * u, 2 * u, 3364, 3364);
    PowProduct(b, 3 * u, 4 * u, 195112, 11316496);
    PowProduct(b, 4 * u, 4 * u, 11316496, 11316496);
    PowProduct(b, 8 * u, 8 * u, 128063081718016, 128063081718016);
    PowProduct(b, 16 * u, 16 * u, 16400152899115243850138976256, 16400152899115243850138976256);
    PowProduct(b, 32 * u, 32 * u, 0xaf820335d9b3d9cf58b911d87035677fb7f528100000000,
               0xaf820335d9b3d9cf58b911d87035677fb7f528100000000);
    PowProduct(b, 7 * u, 64 * u, 2207984167552,
               0x7853026ae25f4ce0c69893e6f1f86f67aef4db69563516064adeb967a9d66f4fe64b09ec94e5010000000000000000);
  }

  lemma {:induction false} Big256(b: nat, u: nat)
    requires Pow(b, u) == 256
    ensures Pow(b, 8 * u) == 0x1_0000_0000_0000_0000
    ensures Pow(b, 52 * u) ==
            0x100000000000000000000000000000000000000000000000000000000000000000000000000000000000000000000000000000000
  {
    PowProduct(b, 1 * u, 1 * u, 256, 256);
    PowProduct(b, 2 * u, 2 * u, 65536, 65536);
    PowProduct(b, 4 * u, 4 * u, 4294967296, 4294967296);
    PowProduct(b, 8 * u, 8 * u, 18446744073709551616, 18446744073709551616);
    PowProduct(b, 16 * u, 16 * u, 340282366920938463463374607431768211456, 340282366920938463463374607431768211456);
    PowProduct(b, 16 * u, 32 * u, 340282366920938463463374607431768211456,
               0x10000000000000000000000000000000000000000000000000000000000000000);
    PowProduct(b, 4 * u, 48 * u, 4294967296,
               0x1000000000000000000000000000000000000000000000000000000000000000000000000000000000000000000000000);
  }

  /** 256^8 <= 58^11. */
  lemma {:induction false} Ratio256(b: nat, c: nat, u: nat)
    requires Pow(b, u) == 58 && Pow(c, u) == 256
    ensures Pow(c, 8 * u) <= Pow(b, 11 * u)
  {
    Big256(c, u);
    Big58(b, u);
    PowProduct(b, 3 * u, 8 * u, 195112, 128063081718016);
  }

  /** If a^p <= b^q and q * n < p * f then a^n < b^f. */
  lemma {:induction false} Compare(a: nat, b: nat, p: nat, q: nat, n: nat, f: nat)
    requires b >= 2 && Pow(a, p) <= Pow(b, q) && q * n >= 0 && q * n < p * f
    ensures Pow(a, n) < Pow(b, f)
  {
    if Pow(a, n) >= Pow(b, f) {
      PowBaseMono(Pow(b, f), Pow(a, n), p);
      MulMono(0, n, p);
      MulMono(0, f, p);
      PowPow(b, f, p);
      PowPow(a, n, p);
      PowPow(a, p, n);
      PowPow(b, q, n);
      PowBaseMono(Pow(a, p), Pow(b, q), n);
      assert n * p == p * n && f * p == p * f;
      PowMono(b, q * n, p * f);
      assert false;
    }
  }

  /** The buffer sizes of the source are large enough. */
  lemma {:induction false} Size256(n: nat)
    ensures Pow(58, n) < Pow(256, n * 733 / 1000 + 1)
  {
    var one := One();
    Ratio58(58, 256, one);
    Compare(58, 256, 71 * one, 52 * one, n, n * 733 / 1000 + 1);
  }

  lemma {:induction false} Size58(n: nat)
    ensures Pow(256, n) < Pow(58, n * 138 / 100 + 1)
  {
    var one := One();
    Ratio256(58, 256, one);
    Compare(256, 58, 8 * one, 11 * one, n, n * 138 / 100 + 1);
  }

  lemma {:induction false} One() returns (one: nat)
    ensures one == 1 && Pow(58, one) == 58 && Pow(256, one) == 256
  {
    one := 1;
    PowStep(58, 0);
    PowStep(256, 0);
  }

  // ---------------------------------------------------------------- numbers in a base

  /** All digits are below the base. */
  ghost predicate Below(s: seq<nat>, b: nat) {
    forall i :: 0 <= i < |s| ==> s[i] < b
  }

  /** Digit `i`, counted from the last. */
  function Dig(s: seq<nat>, i: nat): (d: nat)
    requires i < |s|
  {
    s[|s| - 1 - i]
  }

  /** The number that the last `n` digits denote. */
  ghost function Tail(s: seq<nat>, b: nat, n: nat): (v: nat)
    requires n <= |s|
  {
    if n == 0 then 0 else Tail(s, b, n - 1) + Scaled(Dig(s, n - 1), Pow(b, n - 1))
  }

  ghost function Value(s: seq<nat>, b: nat): (v: nat) {
    Tail(s, b, |s|)
  }

  /** The number of leading zeros. */
  ghost function Lead(s: seq<nat>): (z: nat)
    ensures z <= |s| && (forall i :: 0 <= i < z ==> s[i] == 0) && (z < |s| ==> s[z] != 0)
  {
    if s == [] || s[0] != 0 then 0 else 1 + Lead(s[1..])
  }

  lemma {:induction false} TailBound(s: seq<nat>, b: nat, n: nat)
    requires n <= |s| && Below(s, b)
    ensures Tail(s, b, n) < Pow(b, n)
  {
    if n > 0 {
      TailBound(s, b, n - 1);
      ScaledMono(Dig(s, n - 1), b - 1, Pow(b, n - 1));
      ScaledAdd(b - 1, 1, Pow(b, n - 1));
      PowStep(b, n - 1);
    }
  }

  lemma {:induction false} TailSame(s: seq<nat>, t: seq<nat>, b: nat, n: nat)
    requires n <= |s| && n <= |t| && forall i :: 0 <= i < n ==> Dig(s, i) == Dig(t, i)
    ensures Tail(s, b, n) == Tail(t, b, n)
  {
    if n > 0 {
      TailSame(s, t, b, n - 1);
    }
  }

  lemma {:induction false} TailZeros(s: seq<nat>, b: nat, m: nat, n: nat)
    requires m <= n <= |s| && forall i :: m <= i < n ==> Dig(s, i) == 0
    ensures Tail(s, b, n) == Tail(s, b, m)
  {
    if m < n {
      TailZeros(s, b, m, n - 1);
    }
  }

  /** A larger digit outweighs everything below its weight. */
  lemma {:induction false} DigitOrder(x: nat, l: nat, y: nat, m: nat, w: nat)
    requires l < w && x < y
    ensures Scaled(x, w) + l < Scaled(y, w) + m
  {
    ScaledAdd(x, 1, w);
    ScaledMono(x + 1, y, w);
    ScaledIs(1, w);
  }

  lemma {:induction false} TailUnique(s: seq<nat>, t: seq<nat>, b: nat, n: nat)
    requires b > 0 && n <= |s| && n <= |t| && Below(s, b) && Below(t, b) && Tail(s, b, n) == Tail(t, b, n)
    ensures forall i :: 0 <= i < n ==> Dig(s, i) == Dig(t, i)
  {
    if n > 0 {
      var x, y, w := Dig(s, n - 1), Dig(t, n - 1), Pow(b, n - 1);
      TailBound(s, b, n - 1);
      TailBound(t, b, n - 1);
      if x < y {
        DigitOrder(x, Tail(s, b, n - 1), y, Tail(t, b, n - 1), w);
      } else if y < x {
        DigitOrder(y, Tail(t, b, n - 1), x, Tail(s, b, n - 1), w);
      }
      TailUnique(s, t, b, n - 1);
    }
  }

  /** The leading zeros and the value are the whole of a digit string. */
  lemma {:induction false} DigitsUnique(s: seq<nat>, t: seq<nat>, b: nat)
    requires b >= 2 && Below(s, b) && Below(t, b) && Lead(s) == Lead(t) && Value(s, b) == Value(t, b)
    ensures s == t
  {
    SameLength(s, t, b);
    TailUnique(s, t, b, |s|);
    forall i | 0 <= i < |s| ensures s[i] == t[i] {
      assert Dig(s, |s| - 1 - i) == Dig(t, |s| - 1 - i);
    }
  }

  lemma {:induction false} SameLength(s: seq<nat>, t: seq<nat>, b: nat)
    requires b >= 2 && Below(s, b) && Below(t, b) && Lead(s) == Lead(t) && Value(s, b) == Value(t, b)
    ensures |s| == |t|
  {
    LengthBound(s, b);
    LengthBound(t, b);
    NotShorter(Value(s, b), b, |s| - Lead(s), |t| - Lead(t));
    NotShorter(Value(s, b), b, |t| - Lead(t), |s| - Lead(s));
  }

  lemma {:induction false} NotShorter(v: nat, b: nat, m: nat, n: nat)
    requires b >= 2 && v < Pow(b, m) && (n > 0 ==> v >= Pow(b, n - 1))
    ensures n <= m
  {
    if m < n {
      PowMono(b, m, n - 1);
    }
  }

  /** The digits after the leading zeros bound the value. */
  lemma {:induction false} LengthBound(s: seq<nat>, b: nat)
    requires b >= 2 && Below(s, b)
    ensures Value(s, b) < Pow(b, |s| - Lead(s))
    ensures Lead(s) < |s| ==> Value(s, b) >= Pow(b, |s| - Lead(s) - 1)
  {
    var n := |s| - Lead(s);
    TailZeros(s, b, n, |s|);
    TailBound(s, b, n);
    if n > 0 {
      ScaledMono(1, Dig(s, n - 1), Pow(b, n - 1));
      ScaledIs(1, Pow(b, n - 1));
    }
  }

  // ---------------------------------------------------------------- multiplying and adding in place

  /** carry + a * x, split into a digit and a carry. */
  method SplitCarry(carry: nat, a: nat, x: nat, b: nat) returns (q: nat, r: nat)
    requires b > 0
    ensures carry + Scaled(x, a) == Scaled(q, b) + r && r < b
  {
    ScaledIs(x, a);
    var n := carry + a * x;
    q, r := n / b, n % b;
    NatQuotient(n, b);
    ScaledIs(q, b);
  }

  /** The digit and the carry that replace digit `x`, in numbers. */
  lemma {:induction false} CarryStep(low: nat, low': nat, x: nat, carry: nat, a: nat, b: nat, w: nat, ch: nat, q: nat,
                                     r: nat)
    requires low' + Scaled(carry, w) == Scaled(low, a) + ch && carry + Scaled(x, a) == Scaled(q, b) + r
    ensures low' + Scaled(r, w) + Scaled(q, Scaled(b, w)) == Scaled(low + Scaled(x, w), a) + ch
  {
    ScaledAdd(carry, Scaled(x, a), w);
    ScaledAdd(Scaled(q, b), r, w);
    ScaledAdd(low, Scaled(x, w), a);
    ScaledOrder(x, a, w);
    ScaledNest(q, b, w);
  }

  lemma {:induction false} ScaledOrder(x: nat, a: nat, w: nat)
    ensures Scaled(Scaled(x, a), w) == Scaled(Scaled(x, w), a)
  {
    ScaledIs(x, a);
    ScaledIs(x, w);
    ScaledIs(Scaled(x, a), w);
    ScaledIs(Scaled(x, w), a);
    Assoc(x, a, w);
  }

  lemma {:induction false} ScaledNest(q: nat, b: nat, w: nat)
    ensures Scaled(Scaled(q, b), w) == Scaled(q, Scaled(b, w))
  {
    ScaledIs(q, b);
    ScaledIs(b, w);
    ScaledIs(Scaled(q, b), w);
    ScaledIs(q, Scaled(b, w));
    Assoc(q, b, w);
  }

  /** The digits from position `n` on are 0 and, unless the number is 0, digit n - 1 is not. */
  ghost predicate Exact(s: seq<nat>, b: nat, n: nat) {
    && n <= |s|
    && (forall i :: n <= i < |s| ==> Dig(s, i) == 0)
    && (n > 0 ==> Dig(s, n - 1) != 0)
  }

  /** One round: buffer := buffer * a + ch, in base `b`. The carry is used up before the buffer ends. */
  method MulAdd(buf: array<nat>, a: nat, b: nat, ch: nat, length: nat) returns (i: nat)
    requires a >= 1 && b >= 2 && Below(buf[..], b) && Exact(buf[..], b, length)
    requires Scaled(Value(buf[..], b), a) + ch < Pow(b, buf.Length)
    modifies buf
    ensures Below(buf[..], b) && Exact(buf[..], b, i) && i >= length
    ensures Value(buf[..], b) == Scaled(old(Value(buf[..], b)), a) + ch
  {
    ghost var s := buf[..];
    var carry: nat := ch;
    i := 0;
    ScaledIs(0, a);
    ScaledIs(ch, 1);
    while (carry != 0 || i < length) && i < buf.Length
      invariant i <= buf.Length && Below(buf[..], b)
      invariant forall j :: i <= j < buf.Length ==> Dig(buf[..], j) == Dig(s, j)
      invariant Tail(buf[..], b, i) + Scaled(carry, Pow(b, i)) == Scaled(Tail(s, b, i), a) + ch
      invariant i > length && carry == 0 ==> Dig(buf[..], i - 1) != 0
      decreases buf.Length - i
    {
      ghost var t := buf[..];
      ghost var x := Dig(s, i);
      assert x == buf[buf.Length - 1 - i] == Dig(t, i);
      var q, r := SplitCarry(carry, a, buf[buf.Length - 1 - i], b);
      buf[buf.Length - 1 - i] := r;
      assert buf[..] == t[|t| - 1 - i := r];
      RoundStep(s, t, buf[..], a, b, i, ch, carry, q, r);
      carry, i := q, i + 1;
    }
    AtLeastOnce(carry, Pow(b, i));
    ScaledIs(0, Pow(b, i));
    TailZeros(s, b, i, |s|);
    TailZeros(buf[..], b, i, |s|);
    TopDigit(s, buf[..], a, b, i, length, ch);
  }

  lemma {:induction false} AtLeastOnce(x: nat, w: nat)
    ensures x > 0 ==> Scaled(x, w) >= w
  {
    if x > 0 {
      ScaledMono(1, x, w);
      ScaledIs(1, w);
    }
  }

  lemma {:induction false} RoundStep(s: seq<nat>, t: seq<nat>, t': seq<nat>, a: nat, b: nat, i: nat, ch: nat,
                                     carry: nat, q: nat, r: nat)
    requires i < |s| == |t| && t' == t[|t| - 1 - i := r] && Below(t, b) && r < b
    requires Tail(t, b, i) + Scaled(carry, Pow(b, i)) == Scaled(Tail(s, b, i), a) + ch
    requires carry + Scaled(Dig(s, i), a) == Scaled(q, b) + r
    ensures Below(t', b) && (forall j :: i < j < |t| ==> Dig(t', j) == Dig(t, j)) && Dig(t', i) == r
    ensures Tail(t', b, i + 1) + Scaled(q, Pow(b, i + 1)) == Scaled(Tail(s, b, i + 1), a) + ch
  {
    CarryStep(Tail(s, b, i), Tail(t, b, i), Dig(s, i), carry, a, b, Pow(b, i), ch, q, r);
    PowStep(b, i);
    PutDigit(t, t', b, i, r);
  }

  /** Writing digit `i` leaves the number below it. */
  lemma {:induction false} PutDigit(t: seq<nat>, t': seq<nat>, b: nat, i: nat, d: nat)
    requires i < |t| && t' == t[|t| - 1 - i := d] && Below(t, b) && d < b
    ensures Below(t', b) && Tail(t', b, i + 1) == Tail(t, b, i) + Scaled(d, Pow(b, i))
    ensures forall j :: i < j < |t| ==> Dig(t', j) == Dig(t, j)
  {
    TailSame(t, t', b, i);
  }

  /** A number that has not become smaller keeps its highest digit. */
  lemma {:induction false} TopDigit(s: seq<nat>, t: seq<nat>, a: nat, b: nat, i: nat, length: nat, ch: nat)
    requires a >= 1 && b >= 2 && |s| == |t| && length <= i <= |s| && Below(s, b) && Below(t, b) && Exact(s, b, length)
    requires Value(t, b) == Scaled(Value(s, b), a) + ch
    requires (forall j :: i <= j < |t| ==> Dig(t, j) == 0) && (i > length ==> Dig(t, i - 1) != 0)
    ensures Exact(t, b, i)
  {
    if i == length && i > 0 && Dig(t, i - 1) == 0 {
      TailZeros(t, b, i - 1, |t|);
      TailBound(t, b, i - 1);
      TailZeros(s, b, i, |s|);
      ScaledMono(1, Dig(s, i - 1), Pow(b, i - 1));
      ScaledIs(1, Pow(b, i - 1));
      ScaledIs(Value(s, b), a);
      MulMono(1, a, Value(s, b));
      assert false;
    }
  }

  // ---------------------------------------------------------------- the alphabet

  type Digit = d: nat | d < 58

  /** The characters of the digits, by their codes: all letters and digits but 0, I, O and l. */
  function Base58Char(v: Digit): (c: Byte) {
    if v < 9 then [49, 50, 51, 52, 53, 54, 55, 56, 57][v]
    else if v < 22 then [65, 66, 67, 68, 69, 70, 71, 72, 74, 75, 76, 77, 78][v - 9]
    else if v < 33 then [80, 81, 82, 83, 84, 85, 86, 87, 88, 89, 90][v - 22]
    else if v < 47 then [97, 98, 99, 100, 101, 102, 103, 104, 105, 106, 107, 109, 110, 111][v - 33]
    else [112, 113, 114, 115, 116, 117, 118, 119, 120, 121, 122][v - 47]
  }

  /** The 16 entries of the reverse table from character code 16 * `row` on. */
  function MapRow(row: nat): (r: seq<int>)
    ensures |r| == 16
  {
    if row == 3 then [-1, 0, 1, 2, 3, 4, 5, 6, 7, 8, -1, -1, -1, -1, -1, -1]
    else if row == 4 then [-1, 9, 10, 11, 12, 13, 14, 15, 16, -1, 17, 18, 19, 20, 21, -1]
    else if row == 5 then [22, 23, 24, 25, 26, 27, 28, 29, 30, 31, 32, -1, -1, -1, -1, -1]
    else if row == 6 then [-1, 33, 34, 35, 36, 37, 38, 39, 40, 41, 42, 43, -1, 44, 45, 46]
    else if row == 7 then [47, 48, 49, 50, 51, 52, 53, 54, 55, 56, 57, -1, -1, -1, -1, -1]
    else [-1, -1, -1, -1, -1, -1, -1, -1, -1, -1, -1, -1, -1, -1, -1, -1]
  }

  function MapBase58(c: Byte): (v: int)
  {
    MapRow(c / 16)[c % 16]
  }

  predicate IsSpace(c: Byte) {
    c == 32 || 9 <= c <= 13
  }

  /** A table of characters for digits, and its reverse, -1 for no digit. */
  datatype Alphabet = Alphabet(enc: Digit -> Byte, dec: Byte -> int)

  ghost predicate EncOk(a: Alphabet, v: Digit) {
    a.dec(a.enc(v)) == v && a.enc(v) != 0 && !IsSpace(a.enc(v)) && (v == 0 <==> a.enc(v) == 49)
  }

  ghost predicate DecOk(a: Alphabet, c: Byte) {
    a.dec(c) != -1 ==> 0 <= a.dec(c) < 58 && a.enc(a.dec(c)) == c
  }

  ghost predicate AlphabetOk(a: Alphabet) {
    && (forall v: Digit {:trigger EncOk(a, v)} :: EncOk(a, v))
    && (forall c: Byte {:trigger DecOk(a, c)} :: DecOk(a, c))
  }

  const ALPHABET: Alphabet := Alphabet((v: Digit) => Base58Char(v), (c: Byte) => MapBase58(c))

  lemma {:induction false} CharCode(v: Digit)
    ensures Base58Char(v) == v + if v < 9 then 49 else if v < 17 then 56 else if v < 22 then 57 else if v < 33 then 58
                                 else if v < 44 then 64 else 65
  {
  }

  lemma {:induction false} MapCode(c: Byte)
    ensures MapBase58(c) == if 49 <= c <= 57 then c - 49
                            else if 65 <= c <= 72 then c - 56 else if 74 <= c <= 78 then c - 57
                            else if 80 <= c <= 90 then c - 58
                            else if 97 <= c <= 107 then c - 64 else if 109 <= c <= 122 then c - 65
                            else -1
  {
    var row, j := c / 16, c % 16;
    assert c == 16 * row + j;
    RowCode3(j);
    RowCode4(j);
    RowCode5(j);
    RowCode6(j);
    RowCode7(j);
    RowCodeElse(row, j);
  }

  lemma {:induction false} RowCode3(j: nat)
    requires j < 16
    ensures MapRow(3)[j] == if 1 <= j <= 9 then j - 1 else -1
  {
  }

  lemma {:induction false} RowCode4(j: nat)
    requires j < 16
    ensures MapRow(4)[j] == if 1 <= j <= 8 then j + 8 else if 10 <= j <= 14 then j + 7 else -1
  {
  }

  lemma {:induction false} RowCode5(j: nat)
    requires j < 16
    ensures MapRow(5)[j] == if j <= 10 then j + 22 else -1
  {
  }

  lemma {:induction false} RowCode6(j: nat)
    requires j < 16
    ensures MapRow(6)[j] == if 1 <= j <= 11 then j + 32 else if 13 <= j then j + 31 else -1
  {
  }

  lemma {:induction false} RowCode7(j: nat)
    requires j < 16
    ensures MapRow(7)[j] == if j <= 10 then j + 47 else -1
  {
  }

  lemma {:induction false} RowCodeElse(row: nat, j: nat)
    requires j < 16
    ensures row < 3 || row > 7 ==> MapRow(row)[j] == -1
  {
  }

  lemma {:induction false} AlphabetIsOk()
    ensures AlphabetOk(ALPHABET)
  {
    forall v: Digit ensures EncOk(ALPHABET, v) {
      CharCode(v);
      MapCode(Base58Char(v));
    }
    forall c: Byte ensures DecOk(ALPHABET, c) {
      MapCode(c);
      if MapBase58(c) != -1 {
        CharCode(MapBase58(c));
      }
    }
  }

  // ---------------------------------------------------------------- strings

  /** The characters of `str` are those of the digits `d`. */
  ghost predicate Spells(a: Alphabet, str: seq<Byte>, d: seq<nat>) {
    |str| == |d| && Below(d, 58) && forall i :: 0 <= i < |d| ==> str[i] == a.enc(d[i])
  }

  /** A byte string and a base 58 digit string: as many leading zeros, and the same number. */
  ghost predicate Same(v: seq<Byte>, d: seq<nat>) {
    Lead(v) == Lead(d) && Value(v, 256) == Value(d, 58)
  }

  lemma {:induction false} ValueAppend(s: seq<nat>, x: nat, b: nat, n: nat)
    requires n <= |s|
    ensures Tail(s + [x], b, n + 1) == Scaled(Tail(s, b, n), b) + x
    decreases n
  {
    if n == 0 {
      assert Dig(s + [x], 0) == x;
      assert Tail(s + [x], b, 1) == Tail(s + [x], b, 0) + Scaled(x, Pow(b, 0));
      ScaledIs(x, 1);
    } else {
      ValueAppend(s, x, b, n - 1);
      assert Dig(s + [x], n) == Dig(s, n - 1);
      ScaledAdd(Tail(s, b, n - 1), Scaled(Dig(s, n - 1), Pow(b, n - 1)), b);
      ScaledNest(Dig(s, n - 1), Pow(b, n - 1), b);
    }
  }

  /** One more digit: the value is multiplied and added to, and stays below the power of the length. */
  lemma {:induction false} ValuePrefix(s: seq<nat>, b: nat, k: nat)
    requires k < |s| && Below(s, b) && b > 0
    ensures Value(s[..k + 1], b) == Scaled(Value(s[..k], b), b) + s[k] < Pow(b, k + 1)
  {
    assert s[..k + 1] == s[..k] + [s[k]];
    ValueAppend(s[..k], s[k], b, k);
    TailBound(s[..k + 1], b, k + 1);
  }

  /** The value of leading zeros and the significant digits of a buffer. */
  lemma {:induction false} BufferDigits(s: seq<nat>, b: nat, n: nat, z: nat, d: seq<nat>)
    requires b > 0 && Below(s, b) && Exact(s, b, n) && d == seq(z, _ => 0) + s[|s| - n..]
    ensures Below(d, b) && Value(d, b) == Value(s, b) && Lead(d) == z
  {
    forall i | 0 <= i < n ensures Dig(d, i) == Dig(s, i) {
    }
    TailSame(s, d, b, n);
    TailZeros(s, b, n, |s|);
    TailZeros(d, b, n, |d|);
    LeadIs(d, z);
  }

  lemma {:induction false} LeadIs(s: seq<nat>, z: nat)
    requires z <= |s| && (forall i :: 0 <= i < z ==> s[i] == 0) && (z < |s| ==> s[z] != 0)
    ensures Lead(s) == z
  {
  }

  /** What follows the leading zeros has the same value. */
  lemma {:induction false} DropLead(s: seq<nat>, b: nat, z: nat)
    requires z <= Lead(s)
    ensures Value(s, b) == Value(s[z..], b)
  {
    var t := s[z..];
    TailZeros(s, b, |t|, |s|);
    forall i | 0 <= i < |t| ensures Dig(s, i) == Dig(t, i) {
    }
    TailSame(s, t, b, |t|);
  }

  method CountZeros(input: seq<nat>) returns (zeroes: nat)
    ensures zeroes == Lead(input)
  {
    zeroes := 0;
    while zeroes < |input| && input[zeroes] == 0
      invariant zeroes <= |input| && forall i :: 0 <= i < zeroes ==> input[i] == 0
    {
      zeroes := zeroes + 1;
    }
    LeadIs(input, zeroes);
  }

  /** The digits of the bytes `rest`, which do not start with a zero, in a buffer large enough for them. */
  method ToBase58(rest: seq<Byte>) returns (buf: array<nat>, length: nat)
    ensures fresh(buf) && Below(buf[..], 58) && Exact(buf[..], 58, length)
    ensures Value(buf[..], 58) == Value(rest, 256)
  {
    var size := |rest| * 138 / 100 + 1;
    buf := new nat[size](_ => 0);
    length := 0;
    Size58(|rest|);
    ZeroBuffer(buf[..], 58);
    for k := 0 to |rest|
      invariant Below(buf[..], 58) && Exact(buf[..], 58, length)
      invariant Value(buf[..], 58) == Value(rest[..k], 256)
    {
      Fits(rest, k, buf.Length);
      length := MulAdd(buf, 256, 58, rest[k], length);
    }
    assert rest[..|rest|] == rest;
  }

  lemma {:induction false} Fits(rest: seq<Byte>, k: nat, size: nat)
    requires k < |rest| && Pow(256, |rest|) < Pow(58, size)
    ensures Value(rest[..k + 1], 256) == Scaled(Value(rest[..k], 256), 256) + rest[k] < Pow(58, size)
  {
    ValuePrefix(rest, 256, k);
    PowMono(256, k + 1, |rest|);
  }

  lemma {:induction false} ZeroBuffer(s: seq<nat>, b: nat)
    requires forall i :: 0 <= i < |s| ==> s[i] == 0
    ensures Value(s, b) == 0
  {
    TailZeros(s, b, 0, |s|);
  }

  /** Spell out digits after a number of leading zeros. */
  method SpellOut(zeroes: nat, digits: seq<nat>) returns (str: seq<Byte>)
    requires Below(digits, 58)
    ensures Spells(ALPHABET, str, seq(zeroes, _ => 0) + digits)
  {
    ghost var d := seq(zeroes, _ => 0) + digits;
    str := seq(zeroes, _ => 49);
    CharCode(0);
    for k := 0 to |digits|
      invariant |str| == zeroes + k && forall i :: 0 <= i < |str| ==> str[i] == ALPHABET.enc(d[i])
    {
      assert d[zeroes + k] == digits[k];
      str := str + [Base58Char(digits[k])];
    }
  }

  /** The string spells the digits, in base 58, of the same number with the same leading zeros. */
  method EncodeBase58(input: seq<Byte>) returns (str: seq<Byte>)
    ensures exists d :: Spells(ALPHABET, str, d) && Same(input, d)
  {
    var zeroes := CountZeros(input);
    DropLead(input, 256, zeroes);
    var b58, length := ToBase58(input[zeroes..]);
    var it := b58.Length - length;
    var skipped := CountZeros(b58[it..]);
    // The first significant digit is not zero, so that nothing is skipped.
    assert skipped == 0 by {
      assert length > 0 ==> Dig(b58[..], length - 1) == b58[it..][0];
    }
    it := it + skipped;
    ghost var d := seq(zeroes, _ => 0) + b58[it..];
    BufferDigits(b58[..], 58, length, zeroes, d);
    str := SpellOut(zeroes, b58[it..]);
  }

  // ---------------------------------------------------------------- decoding

  ghost predicate AllDigits(a: Alphabet, w: seq<Byte>) {
    forall i :: 0 <= i < |w| ==> a.dec(w[i]) != -1
  }

  /** Characters of digits spell these and no other. */
  lemma {:induction false} SpellsDigits(a: Alphabet, w: seq<Byte>, d: seq<nat>)
    requires AlphabetOk(a) && Spells(a, w, d)
    ensures forall i :: 0 <= i < |w| ==> a.dec(w[i]) == d[i]
  {
    forall i | 0 <= i < |w| ensures a.dec(w[i]) == d[i] {
      assert EncOk(a, d[i]);
    }
  }

  /** A string without its leading spaces. */
  function Trim(s: seq<Byte>): (t: seq<Byte>) {
    if s != [] && IsSpace(s[0]) then Trim(s[1..]) else s
  }

  /** The length of the part of a string before the first space. */
  function WordLength(s: seq<Byte>): (n: nat)
    ensures n <= |s| && (forall i :: 0 <= i < n ==> !IsSpace(s[i])) && (n < |s| ==> IsSpace(s[n]))
  {
    if s == [] || IsSpace(s[0]) then 0 else 1 + WordLength(s[1..])
  }

  /** The first word of a string. */
  function WordOf(s: seq<Byte>): (w: seq<Byte>) {
    Trim(s)[..WordLength(Trim(s))]
  }

  /** Nothing but spaces follows the first word. */
  ghost predicate OneWord(s: seq<Byte>) {
    var t := Trim(s);
    forall i :: WordLength(t) <= i < |t| ==> IsSpace(t[i])
  }

  /** The bytes that a word of digits decodes to. */
  ghost predicate DecodesTo(a: Alphabet, w: seq<Byte>, v: seq<Byte>) {
    exists d: seq<nat> :: Spells(a, w, d) && Same(v, d)
  }

  lemma {:induction false} PrefixValue(d: seq<nat>, k: nat, n: nat)
    requires Below(d, 58) && k <= n <= |d|
    ensures Value(d[..k], 58) <= Value(d[..n], 58)
  {
    if k < n {
      PrefixValue(d, k, n - 1);
      ValuePrefix(d, 58, n - 1);
      ScaledIs(Value(d[..n - 1], 58), 58);
    }
  }

  lemma {:induction false} ExactBound(s: seq<nat>, b: nat, n: nat)
    requires b >= 2 && Below(s, b) && Exact(s, b, n) && n > 0
    ensures Pow(b, n - 1) <= Value(s, b)
  {
    TailZeros(s, b, n, |s|);
    ScaledMono(1, Dig(s, n - 1), Pow(b, n - 1));
    ScaledIs(1, Pow(b, n - 1));
  }

  method SkipSpaces(s: seq<Byte>) returns (t: seq<Byte>)
    ensures t == Trim(s)
  {
    t := s;
    while t != [] && IsSpace(t[0])
      invariant Trim(t) == Trim(s)
      decreases |t|
    {
      t := t[1..];
    }
  }

  /** Feed digit by digit into the buffer, until the word ends, a character is no digit or the result is too long. */
  method FromBase58(a: Alphabet, w: seq<Byte>, rest: nat, zeroes: nat, max: int)
    returns (buf: array<nat>, length: nat, ok: bool, ghost d: seq<nat>)
    requires AlphabetOk(a)
    ensures fresh(buf)
    ensures ok ==> Spells(a, w, d) && Below(buf[..], 256) && Exact(buf[..], 256, length)
    ensures ok ==> Value(buf[..], 256) == Value(d, 58) && if w == [] then length == 0 else length + zeroes <= max
    ensures !ok ==> w != [] && (!AllDigits(a, w) || TooLong(a, w, zeroes, max))
  {
    buf := new nat[(|w| + rest) * 733 / 1000 + 1](_ => 0);
    length, ok, d := 0, true, [];
    Size256(|w| + rest);
    ZeroBuffer(buf[..], 256);
    for k := 0 to |w|
      invariant Spells(a, w[..k], d)
      invariant Below(buf[..], 256) && Exact(buf[..], 256, length) && Value(buf[..], 256) == Value(d, 58)
      invariant if k == 0 then length == 0 else length + zeroes <= max
    {
      var carry := a.dec(w[k]);
      assert DecOk(a, w[k]);
      if carry == -1 {
        ok := false;
        return;
      }
      d := NextDigit(a, w, d, k, |w| + rest);
      length := MulAdd(buf, 58, 256, carry, length);
      if length + zeroes > max {
        IsTooLong(a, w, zeroes, max, d, buf[..], length);
        ok := false;
        return;
      }
    }
    assert w[..|w|] == w;
  }

  lemma {:induction false} NextDigit(a: Alphabet, w: seq<Byte>, d: seq<nat>, k: nat, n: nat) returns (d': seq<nat>)
    requires AlphabetOk(a) && k < |w| <= n && Spells(a, w[..k], d) && a.dec(w[k]) != -1
    ensures 0 <= a.dec(w[k]) < 58 && Spells(a, w[..k + 1], d')
    ensures Value(d', 58) == Scaled(Value(d, 58), 58) + a.dec(w[k]) < Pow(58, n)
  {
    assert DecOk(a, w[k]);
    d' := d + [a.dec(w[k])];
    assert d'[..k] == d && d'[..k + 1] == d';
    ValuePrefix(d', 58, k);
    PowMono(58, k + 1, n);
  }

  /** Every byte string that the word, after leading zeros, decodes to is longer than allowed. */
  ghost predicate TooLong(a: Alphabet, w: seq<Byte>, zeroes: nat, max: int) {
    forall d: seq<nat>, v: seq<Byte> :: Spells(a, w, d) && Value(v, 256) == Value(d, 58) ==>
      zeroes + (|v| - Lead(v)) > max
  }

  lemma {:induction false} IsTooLong(a: Alphabet, w: seq<Byte>, zeroes: nat, max: int, d: seq<nat>, buf: seq<nat>,
                                     length: nat)
    requires AlphabetOk(a) && |d| <= |w| && Spells(a, w[..|d|], d)
    requires Below(buf, 256) && Exact(buf, 256, length) && Value(buf, 256) == Value(d, 58) && length + zeroes > max
    ensures TooLong(a, w, zeroes, max)
  {
    forall e: seq<nat>, v: seq<Byte> | Spells(a, w, e) && Value(v, 256) == Value(e, 58)
      ensures zeroes + (|v| - Lead(v)) > max
    {
      SpellsDigits(a, w, e);
      SpellsDigits(a, w[..|d|], d);
      assert e[..|d|] == d;
      if length > 0 {
        ExactBound(buf, 256, length);
      }
      PrefixValue(e, |d|, |e|);
      assert e[..|e|] == e;
      LengthBound(v, 256);
      NotShorter(Value(v, 256), 256, |v| - Lead(v), length);
    }
  }

  /** The digits of a word are the zeros that its leading '1's stand for and the digits of the rest. */
  lemma {:induction false} LeadingOnes(a: Alphabet, w: seq<Byte>, z: nat, d: seq<nat>)
    requires AlphabetOk(a) && z <= |w| && (forall i :: 0 <= i < z ==> w[i] == 49) && (z < |w| ==> w[z] != 49)
    ensures Spells(a, w, d) ==> Lead(d) == z && Spells(a, w[z..], d[z..]) && Value(d, 58) == Value(d[z..], 58)
    ensures Spells(a, w[z..], d) ==> Spells(a, w, seq(z, _ => 0) + d)
  {
    if Spells(a, w, d) {
      forall i | 0 <= i < |d| ensures d[i] == 0 <==> w[i] == 49 {
        assert EncOk(a, d[i]);
      }
      LeadIs(d, z);
      DropLead(d, 58, z);
    }
    if Spells(a, w[z..], d) {
      assert EncOk(a, 0);
      var e := seq(z, _ => 0) + d;
      forall i | 0 <= i < |e| ensures w[i] == a.enc(e[i]) {
        assert i >= z ==> w[i] == w[z..][i - z];
      }
    }
  }

  /** Too many leading '1's, or too many bytes after them. */
  lemma {:induction false} AllTooLong(a: Alphabet, w: seq<Byte>, z: nat, max: int)
    requires AlphabetOk(a) && z <= |w| && forall i :: 0 <= i < z ==> w[i] == 49
    requires z > max || ((z < |w| ==> w[z] != 49) && TooLong(a, w[z..], z, max))
    ensures forall v :: DecodesTo(a, w, v) ==> |v| > max
  {
    forall v | DecodesTo(a, w, v) ensures |v| > max {
      var d: seq<nat> :| Spells(a, w, d) && Same(v, d);
      if z > max {
        forall i | 0 <= i < z ensures d[i] == 0 {
          assert EncOk(a, d[i]);
        }
        assert Lead(d) >= z;
      } else {
        LeadingOnes(a, w, z, d);
      }
    }
  }

  /** Decoding succeeds exactly on strings of one word of base 58 digits whose bytes are not too many. */
  method DecodeBase58(a: Alphabet, s: seq<Byte>, max: int) returns (r: Option<seq<Byte>>)
    requires AlphabetOk(a)
    ensures r.Some? ==> OneWord(s) && DecodesTo(a, WordOf(s), r.value) && (WordOf(s) == [] || |r.value| <= max)
    ensures r.None? ==> !OneWord(s) || !AllDigits(a, WordOf(s)) ||
                        (WordOf(s) != [] && forall v :: DecodesTo(a, WordOf(s), v) ==> |v| > max)
  {
    var t := SkipSpaces(s);
    var n := WordLength(t);
    var w, zeroes := t[..n], 0;
    while zeroes < n && t[zeroes] == 49
      invariant zeroes <= n && (forall i :: 0 <= i < zeroes ==> w[i] == 49) && (zeroes > 0 ==> zeroes <= max)
    {
      zeroes := zeroes + 1;
      if zeroes > max {
        AllTooLong(a, w, zeroes, max);
        return None;
      }
    }
    var buf, length, ok, d := FromBase58(a, w[zeroes..], |t| - n, zeroes, max);
    if !ok {
      if AllDigits(a, w) {
        assert forall i :: 0 <= i < |w[zeroes..]| ==> a.dec(w[zeroes..][i]) == a.dec(w[zeroes + i]);
        AllTooLong(a, w, zeroes, max);
      }
      return None;
    }
    var k := n;
    while k < |t| && IsSpace(t[k])
      invariant n <= k <= |t| && forall i :: n <= i < k ==> IsSpace(t[i])
    {
      k := k + 1;
    }
    if k < |t| {
      return None;
    }
    var v: seq<Byte> := Output(zeroes, buf, length);
    DecodedIs(a, w, zeroes, d, buf[..], length, v);
    return Some(v);
  }

  method Output(zeroes: nat, buf: array<nat>, length: nat) returns (v: seq<Byte>)
    requires length <= buf.Length && Below(buf[..], 256)
    ensures v == seq(zeroes, _ => 0) + buf[buf.Length - length..]
  {
    v := seq(zeroes, _ => 0);
    var it := buf.Length - length;
    while it < buf.Length
      invariant buf.Length - length <= it <= buf.Length
      invariant v == seq(zeroes, _ => 0) + buf[buf.Length - length..it]
    {
      v := v + [buf[it]];
      it := it + 1;
    }
  }

  lemma {:induction false} DecodedIs(a: Alphabet, w: seq<Byte>, z: nat, d: seq<nat>, buf: seq<nat>, length: nat,
                                     v: seq<Byte>)
    requires AlphabetOk(a) && z <= |w| && (forall i :: 0 <= i < z ==> w[i] == 49) && (z < |w| ==> w[z] != 49)
    requires Spells(a, w[z..], d) && Below(buf, 256) && Exact(buf, 256, length) && Value(buf, 256) == Value(d, 58)
    requires v == seq(z, _ => 0) + buf[|buf| - length..]
    ensures DecodesTo(a, w, v)
  {
    var e := seq(z, _ => 0) + d;
    LeadingOnes(a, w, z, d);
    LeadingOnes(a, w, z, e);
    assert e[z..] == d;
    BufferDigits(buf, 256, length, z, v);
    assert Spells(a, w, e) && Same(v, e);
  }

  // ---------------------------------------------------------------- round trips

  /** A string of digits decodes to at most one byte string, and a byte string comes from at most one string. */
  lemma {:induction false} DecodesUnique(a: Alphabet, w: seq<Byte>, v: seq<Byte>, w': seq<Byte>, v': seq<Byte>)
    requires AlphabetOk(a) && DecodesTo(a, w, v) && DecodesTo(a, w', v')
    ensures w == w' <==> v == v'
  {
    var d: seq<nat> :| Spells(a, w, d) && Same(v, d);
    var d': seq<nat> :| Spells(a, w', d') && Same(v', d');
    if w == w' {
      SpellsDigits(a, w, d);
      SpellsDigits(a, w, d');
      assert d == d';
      DigitsUnique(v, v', 256);
    }
    if v == v' {
      DigitsUnique(d, d', 58);
    }
  }

  /** Decoding what EncodeBase58 made of a byte string gives that byte string, if it is not too long. */
  method EncodeThenDecode(input: seq<Byte>, max: int) returns (r: Option<seq<Byte>>)
    ensures r == if input == [] || |input| <= max then Some(input) else None
  {
    AlphabetIsOk();
    var str := EncodeBase58(input);
    ghost var d :| Spells(ALPHABET, str, d) && Same(input, d);
    r := DecodeBase58(ALPHABET, str, max);
    RoundTrip(ALPHABET, input, str, d, max, r);
  }

  lemma {:induction false} RoundTrip(a: Alphabet, input: seq<Byte>, str: seq<Byte>, d: seq<nat>, max: int,
                                     r: Option<seq<Byte>>)
    requires AlphabetOk(a) && Spells(a, str, d) && Same(input, d)
    requires r.Some? ==> DecodesTo(a, WordOf(str), r.value) && (WordOf(str) == [] || |r.value| <= max)
    requires r.None? ==> !OneWord(str) || !AllDigits(a, WordOf(str)) ||
                         (WordOf(str) != [] && forall v :: DecodesTo(a, WordOf(str), v) ==> |v| > max)
    ensures r.Some? ==> r.value == input && (input == [] || |input| <= max)
    ensures r.None? ==> |input| > max && input != []
  {
    PlainWord(a, str, d);
    assert DecodesTo(a, str, input);
    if r.Some? {
      DecodesUnique(a, str, input, str, r.value);
    }
    EmptySame(input, d);
  }

  lemma {:induction false} EmptySame(v: seq<Byte>, d: seq<nat>)
    requires Same(v, d) && Below(d, 58)
    ensures v == [] <==> d == []
  {
    LengthBound(v, 256);
    LengthBound(d, 58);
    PowPos(256, if |v| > 0 then |v| - 1 else 0);
    PowPos(58, if |d| > 0 then |d| - 1 else 0);
  }

  /** Encoding what a string decoded to gives its word, and the string itself if it has no spaces. */
  method DecodeThenEncode(str: seq<Byte>, max: int) returns (r: Option<seq<Byte>>, back: seq<Byte>)
    ensures r.Some? ==> back == WordOf(str)
    ensures r.Some? && (forall i :: 0 <= i < |str| ==> !IsSpace(str[i])) ==> back == str
  {
    AlphabetIsOk();
    back := [];
    r := DecodeBase58(ALPHABET, str, max);
    if r.Some? {
      back := EncodeBase58(r.value);
      assert DecodesTo(ALPHABET, back, r.value);
      DecodesUnique(ALPHABET, WordOf(str), r.value, back, r.value);
      if forall i :: 0 <= i < |str| ==> !IsSpace(str[i]) {
        NoSpaces(str);
      }
    }
  }

  lemma {:induction false} NoSpaces(s: seq<Byte>)
    requires forall i :: 0 <= i < |s| ==> !IsSpace(s[i])
    ensures WordOf(s) == s && OneWord(s)
  {
  }

  lemma {:induction false} PlainWord(a: Alphabet, s: seq<Byte>, d: seq<nat>)
    requires AlphabetOk(a) && Spells(a, s, d)
    ensures WordOf(s) == s && OneWord(s) && AllDigits(a, s) && (s == [] <==> d == [])
  {
    forall i | 0 <= i < |s| ensures !IsSpace(s[i]) && a.dec(s[i]) != -1 {
      assert EncOk(a, d[i]);
    }
    NoSpaces(s);
  }
}
