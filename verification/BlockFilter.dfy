/**
 Golomb-coded block filters (src/blockfilter.cpp, src/util/golombrice.h): the hashed
 elements are sorted and their differences written to a bit stream; a query is hashed,
 sorted and merged with the values read back.

 SipHash is a parameter. The number of elements is kept beside the encoded
 bytes instead of in front of them.
 */
module BlockFilter {
  import opened BitStream
  import opened Numbers
  import opened Wrappers

  // ---------------------------------------------------------------- mapping into a range

  lemma {:induction false} Pieces(xh: nat, xl: nat, nh: nat, nl: nat)
    ensures (xh * TWO_32 + xl) * (nh * TWO_32 + nl) == (xh * nh) * TWO_64 + (xh * nl + xl * nh) * TWO_32 + xl * nl
  {
    Distribute(xh * TWO_32, xl, nh * TWO_32 + nl);
    Distribute(nh * TWO_32, nl, xh * TWO_32);
    Distribute(nh * TWO_32, nl, xl);
    assert (xh * TWO_32) * (nh * TWO_32) == (xh * nh) * TWO_64;
    assert (xh * TWO_32) * nl == (xh * nl) * TWO_32;
    assert xl * (nh * TWO_32) == (xl * nh) * TWO_32;
  }

  lemma {:induction false} PieceBound(a: nat, b: nat)
    requires a < TWO_32 && b < TWO_32
    ensures 0 <= a * b <= (TWO_32 - 1) * (TWO_32 - 1)
  {
    MulMono(a, TWO_32 - 1, b);
    MulMono(0, a, b);
  }

  lemma {:induction false} UpperHalf(ac: nat, ad: nat, bc: nat, bd: nat)
    requires ac <= (TWO_32 - 1) * (TWO_32 - 1) && ad <= (TWO_32 - 1) * (TWO_32 - 1)
    requires bc <= (TWO_32 - 1) * (TWO_32 - 1) && bd <= (TWO_32 - 1) * (TWO_32 - 1)
    ensures var mid := bd / TWO_32 + bc % TWO_32 + ad % TWO_32;
            var upper := ac + bc / TWO_32 + ad / TWO_32 + mid / TWO_32;
            mid < TWO_64 && upper < TWO_64 && (ac * TWO_64 + (ad + bc) * TWO_32 + bd) / TWO_64 == upper
  {
    var mid := bd / TWO_32 + bc % TWO_32 + ad % TWO_32;
    var upper := ac + bc / TWO_32 + ad / TWO_32 + mid / TWO_32;
    Quotient(ac * TWO_64 + (ad + bc) * TWO_32 + bd, TWO_64, upper, mid % TWO_32 * TWO_32 + bd % TWO_32);
  }

  /** The multiplication in 32-bit pieces gives the upper half of the product; no piece overflows 64 bits. */
  method MapIntoRange(x: UInt64, n: UInt64) returns (r: UInt64)
    ensures r == x * n / TWO_64
    ensures n > 0 ==> r < n
  {
    var xHi, xLo, nHi, nLo := x / TWO_32, x % TWO_32, n / TWO_32, n % TWO_32;
    PieceBound(xHi, nHi);
    PieceBound(xHi, nLo);
    PieceBound(xLo, nHi);
    PieceBound(xLo, nLo);
    var ac: UInt64, ad: UInt64, bc: UInt64, bd: UInt64 := xHi * nHi, xHi * nLo, xLo * nHi, xLo * nLo;
    UpperHalf(ac, ad, bc, bd);
    Pieces(xHi, xLo, nHi, nLo);
    var mid34: UInt64 := bd / TWO_32 + bc % TWO_32 + ad % TWO_32;
    r := ac + bc / TWO_32 + ad / TWO_32 + mid34 / TWO_32;
    RangeBound(x, n);
  }

  lemma {:induction false} RangeBound(x: UInt64, n: UInt64)
    ensures 0 <= x * n / TWO_64 <= n && (n > 0 ==> x * n / TWO_64 < n)
  {
    MulMono(x, TWO_64 - 1, n);
    MulMono(0, x, n);
  }

  function InRange(x: UInt64, n: UInt64): (r: UInt64)
    ensures n > 0 ==> r < n
  {
    RangeBound(x, n);
    x * n / TWO_64
  }

  // ---------------------------------------------------------------- Golomb-Rice coding

  function Ones(n: nat): (b: seq<bool>)
    ensures |b| == n
  {
    if n == 0 then [] else [true] + Ones(n - 1)
  }

  /** The quotient by 2^p in ones, a zero, and the remainder in `p` bits. */
  function Coded(p: nat, x: nat): (b: seq<bool>) {
    Ones(High(x, p)) + [false] + ToBits(x, p)
  }

  lemma {:induction false} BitsSplit(x: nat, p: nat)
    ensures x == Scaled(High(x, p), Pow2(p)) + FromBits(ToBits(x, p))
    decreases p
  {
    if p == 0 {
      ScaledIs(x, 1);
    } else {
      BitsSplit(x / 2, p - 1);
      BitsLast(x, p);
      HalfSplit(x, High(x / 2, p - 1), Pow2(p - 1), FromBits(ToBits(x / 2, p - 1)));
    }
  }

  lemma {:induction false} HalfSplit(x: nat, h: nat, w: nat, l: nat)
    requires x / 2 == Scaled(h, w) + l
    ensures x == Scaled(h, 2 * w) + 2 * l + x % 2
  {
    ScaledSplit(h, w, w);
  }

  lemma {:induction false} BitsLast(x: nat, p: nat)
    requires p > 0
    ensures FromBits(ToBits(x, p)) == 2 * FromBits(ToBits(x / 2, p - 1)) + x % 2
  {
    assert ToBits(x, p)[..p - 1] == ToBits(x / 2, p - 1);
  }

  lemma {:induction false} OnesAdd(m: nat, n: nat)
    ensures Ones(m + n) == Ones(m) + Ones(n)
  {
    if m > 0 {
      OnesAdd(m - 1, n);
    }
  }

  lemma {:induction false} MoreOnes(b: seq<bool>, m: nat, n: nat)
    ensures b + Ones(m) + Ones(n) == b + Ones(m + n)
  {
    OnesAdd(m, n);
    Associate(b, Ones(m), Ones(n));
  }

  lemma {:induction false} OddBits(x: nat, n: nat)
    requires n > 0
    ensures ToBits(2 * x + 1, n) == ToBits(x, n - 1) + [true]
  {
    var y := 2 * x + 1;
    assert y / 2 == x && y % 2 == 1;
  }

  /** The low bits of a word that is all ones. */
  lemma {:induction false} FullBits(n: nat, w: nat)
    requires n <= w
    ensures ToBits(Pow2(w) - 1, n) == Ones(n)
    decreases n
  {
    if n > 0 {
      var x := Pow2(w - 1) - 1;
      FullBits(n - 1, w - 1);
      assert Pow2(w) - 1 == 2 * x + 1;
      OddBits(x, n);
      OnesAdd(n - 1, 1);
      assert Ones(1) == [true];
    }
  }

  /** GolombRiceEncode: the ones of the quotient are written up to 64 at a time. */
  method GolombRiceEncode(bitwriter: BitWriter, p: nat, x: nat)
    requires bitwriter.Valid() && p <= 64
    modifies bitwriter
    ensures bitwriter.Valid() && bitwriter.Bits() == old(bitwriter.Bits()) + Coded(p, x)
  {
    ghost var b := bitwriter.Bits();
    HighIs(x, p);
    WriteOnes(bitwriter, x / Pow2(p));
    var ok := bitwriter.Write(0, 1);
    assert ToBits(0, 1) == [false];
    ok := bitwriter.Write(x, p);
    CodeParts(b, Ones(High(x, p)), ToBits(x, p));
  }

  lemma {:induction false} CodeParts(b: seq<bool>, c: seq<bool>, d: seq<bool>)
    ensures b + c + [false] + d == b + (c + [false] + d)
  {
  }

  method WriteOnes(bitwriter: BitWriter, n: nat)
    requires bitwriter.Valid()
    modifies bitwriter
    ensures bitwriter.Valid() && bitwriter.Bits() == old(bitwriter.Bits()) + Ones(n)
  {
    var q := n;
    ghost var b, done := bitwriter.Bits(), 0;
    assert b + Ones(done) == b;
    while q > 0
      invariant 0 <= q && done + q == n && bitwriter.Valid() && bitwriter.Bits() == b + Ones(done)
      decreases q
    {
      var nbits := Min(q, 64);
      MoreOnes(b, done, nbits);
      WriteFull(bitwriter, nbits, 64);
      q, done := q - nbits, done + nbits;
    }
  }

  /** Write bits of a word that is all ones. */
  method WriteFull(bitwriter: BitWriter, nbits: nat, ghost w: nat)
    requires bitwriter.Valid() && w == 64 && nbits <= w
    modifies bitwriter
    ensures bitwriter.Valid() && bitwriter.Bits() == old(bitwriter.Bits()) + Ones(nbits)
  {
    Pow2Values();
    FullBits(nbits, w);
    var ok := bitwriter.Write(TWO_64 - 1, nbits);
  }

  /** How many ones a list starts with. */
  function LeadingOnes(b: seq<bool>): (n: nat)
    ensures n <= |b| && (n < |b| ==> !b[n])
  {
    if b == [] || !b[0] then 0 else 1 + LeadingOnes(b[1..])
  }

  /**
   What GolombRiceDecode makes of any bits: a number, without wrap-around, and the bits
   after it, or a failure when the bits end too early.
   */
  ghost function Decoded(p: nat, b: seq<bool>): (r: Option<(nat, seq<bool>)>) {
    if b == [] then None
    else if b[0] then
      var r := Decoded(p, b[1..]);
      if r.None? then None else Some((Pow2(p) + r.value.0, r.value.1))
    else if 1 + p > |b| then None
    else Some((FromBits(b[1..1 + p]), b[1 + p..]))
  }

  lemma {:induction false} DecodedAt(p: nat, b: seq<bool>)
    ensures var q := LeadingOnes(b);
            Decoded(p, b) == if q + 1 + p > |b| then None
                             else Some((Scaled(q, Pow2(p)) + FromBits(b[q + 1..q + 1 + p]), b[q + 1 + p..]))
  {
    if b != [] && b[0] {
      var q, c := LeadingOnes(b), b[1..];
      DecodedAt(p, c);
      if q + 1 + p <= |b| {
        assert c[q..q + p] == b[q + 1..q + 1 + p] && c[q + p..] == b[q + 1 + p..];
      }
    }
  }

  /** The same, from the bits after the first zero. */
  lemma {:induction false} DecodedFrom(p: nat, b: seq<bool>)
    ensures var q := LeadingOnes(b);
            Decoded(p, b) == if q == |b| || p > |b[q + 1..]| then None
                             else Some((Scaled(q, Pow2(p)) + FromBits(b[q + 1..][..p]), b[q + 1..][p..]))
  {
    var q := LeadingOnes(b);
    DecodedAt(p, b);
    if q + 1 + p <= |b| {
      assert b[q + 1..][..p] == b[q + 1..q + 1 + p];
      ReadMore(b, q + 1, p);
    }
  }

  /** Decoding undoes encoding, whatever follows. */
  lemma {:induction false} DecodedCoded(p: nat, x: nat, tail: seq<bool>)
    ensures Decoded(p, Coded(p, x) + tail) == Some((x, tail))
  {
    var h, d := High(x, p), ToBits(x, p);
    CodeParts([], Ones(h), d);
    assert Coded(p, x) + tail == Ones(h) + ([false] + d + tail);
    DecodedOnes(p, h, d, tail);
    BitsSplit(x, p);
  }

  lemma {:induction false} DecodedOnes(p: nat, h: nat, d: seq<bool>, tail: seq<bool>)
    requires |d| == p
    ensures Decoded(p, Ones(h) + ([false] + d + tail)) == Some((Scaled(h, Pow2(p)) + FromBits(d), tail))
  {
    var b := Ones(h) + ([false] + d + tail);
    if h == 0 {
      assert b[1..1 + p] == d && b[1 + p..] == tail;
    } else {
      DecodedOnes(p, h - 1, d, tail);
      assert b[1..] == Ones(h - 1) + ([false] + d + tail);
    }
  }

  /** GolombRiceDecode, on any stream: the number modulo 2^64, or a failure when the stream ends. */
  method GolombRiceDecode(bitreader: BitReader, p: nat) returns (v: Option<UInt64>)
    requires bitreader.Valid()
    modifies bitreader
    ensures bitreader.Valid()
    ensures var d := Decoded(p, old(bitreader.Rest()));
            if d.None? || p > 64 then v == None else v == Some(d.value.0 % TWO_64) && bitreader.Rest() == d.value.1
    ensures old(bitreader.Begun()) ==> bitreader.Begun()
  {
    ghost var b := bitreader.Rest();
    var q := ReadQuotient(bitreader);
    DecodedFrom(p, b);
    if q.None? {
      return None;
    }
    var r := bitreader.Read(p);
    if r.None? {
      return None;
    }
    var sum := ShiftAdd(q.value, p, r.value);
    return Some(sum);
  }

  /** (q << P) + r, in 64 bits. */
  method ShiftAdd(q: nat, p: nat, r: nat) returns (v: UInt64)
    ensures v == (Scaled(q, Pow2(p)) + r) % TWO_64
  {
    ScaledIs(q, Pow2(p));
    v := (q * Pow2(p) + r) % TWO_64;
  }

  /** Count the ones up to the first zero. */
  method ReadQuotient(bitreader: BitReader) returns (q: Option<nat>)
    requires bitreader.Valid()
    modifies bitreader
    ensures bitreader.Valid()
    ensures var b := old(bitreader.Rest());
            if LeadingOnes(b) == |b| then q == None
            else q == Some(LeadingOnes(b)) && bitreader.Rest() == b[LeadingOnes(b) + 1..]
    ensures old(bitreader.Begun()) ==> bitreader.Begun()
  {
    ghost var b := bitreader.Rest();
    var n := 0;
    assert b[0..] == b;
    while true
      invariant bitreader.Valid() && n <= |b| && bitreader.Rest() == b[n..] && LeadingOnes(b) == n + LeadingOnes(b[n..])
      invariant old(bitreader.Begun()) ==> bitreader.Begun()
      decreases |b| - n
    {
      var bit := bitreader.Read(1);
      if bit.None? {
        return None;
      }
      FirstBit(b, n);
      if bit.value == 0 {
        return Some(n);
      }
      n := n + 1;
    }
  }

  lemma {:induction false} FirstBit(b: seq<bool>, n: nat)
    requires n < |b|
    ensures FromBits(b[n..][..1]) == (if b[n] then 1 else 0) && b[n..][1..] == b[n + 1..]
    ensures LeadingOnes(b[n..]) == if b[n] then 1 + LeadingOnes(b[n + 1..]) else 0
  {
    assert b[n..][..1] == [b[n]] && [b[n]][..0] == [];
  }

  // ---------------------------------------------------------------- filters

  type Element = seq<bv8>

  predicate Sorted(s: seq<UInt64>) {
    forall i, j :: 0 <= i < j < |s| ==> s[i] <= s[j]
  }

  /** The difference of value `i` to the one before it. */
  function Delta(s: seq<UInt64>, i: nat): (d: nat)
    requires Sorted(s) && i < |s|
  {
    if i == 0 then s[0] else s[i] - s[i - 1]
  }

  /** The differences of the first `i` values, in code. */
  ghost function Written(p: nat, s: seq<UInt64>, i: nat): (b: seq<bool>)
    requires Sorted(s) && i <= |s|
  {
    if i == 0 then [] else Written(p, s, i - 1) + Coded(p, Delta(s, i - 1))
  }

  lemma {:induction false} WriteNext(p: nat, s: seq<UInt64>, i: nat)
    requires Sorted(s) && i < |s|
    ensures Before(s, i) <= s[i]
    ensures Written(p, s, i + 1) == Written(p, s, i) + Coded(p, s[i] - Before(s, i))
  {
    assert i > 0 ==> s[i - 1] <= s[i];
    assert Delta(s, i) == s[i] - Before(s, i);
  }

  /** The differences of the values from `i` on, in code. */
  ghost function ToRead(p: nat, s: seq<UInt64>, i: nat): (b: seq<bool>)
    requires Sorted(s) && i <= |s|
    decreases |s| - i
  {
    if i == |s| then [] else Coded(p, Delta(s, i)) + ToRead(p, s, i + 1)
  }

  lemma {:induction false} WrittenIsRead(p: nat, s: seq<UInt64>, i: nat)
    requires Sorted(s) && i <= |s|
    ensures Written(p, s, i) + ToRead(p, s, i) == Written(p, s, |s|)
    decreases |s| - i
  {
    if i < |s| {
      WrittenIsRead(p, s, i + 1);
      assert Written(p, s, i) + ToRead(p, s, i) == Written(p, s, i + 1) + ToRead(p, s, i + 1);
    }
  }

  method Insert(s: seq<UInt64>, v: UInt64) returns (r: seq<UInt64>)
    requires Sorted(s)
    ensures Sorted(r) && multiset(r) == multiset(s) + multiset{v}
  {
    var k := 0;
    while k < |s| && s[k] <= v
      invariant k <= |s| && forall i :: 0 <= i < k ==> s[i] <= v
    {
      k := k + 1;
    }
    r := s[..k] + [v] + s[k..];
    InsertedAt(s, v, k);
    InsertedBag(s, v, k);
  }

  lemma {:induction false} InsertedAt(s: seq<UInt64>, v: UInt64, k: nat)
    requires Sorted(s) && k <= |s| && (forall i :: 0 <= i < k ==> s[i] <= v) && (k < |s| ==> v < s[k])
    ensures Sorted(s[..k] + [v] + s[k..])
  {
    var r := s[..k] + [v] + s[k..];
    forall i, j | 0 <= i < j < |r| ensures r[i] <= r[j] {
      InOrder(s, v, k, i, j);
    }
  }

  lemma {:induction false} InOrder(s: seq<UInt64>, v: UInt64, k: nat, i: nat, j: nat)
    requires Sorted(s) && k <= |s| && (forall i :: 0 <= i < k ==> s[i] <= v) && (k < |s| ==> v < s[k])
    requires i < j <= |s|
    ensures (s[..k] + [v] + s[k..])[i] <= (s[..k] + [v] + s[k..])[j]
  {
    if j == k {
      assert s[i] <= v;
    } else if i == k {
      assert s[k] <= s[j - 1];
    } else {
      assert s[if i < k then i else i - 1] <= s[if j < k then j else j - 1];
    }
  }

  lemma {:induction false} InsertedBag(s: seq<UInt64>, v: UInt64, k: nat)
    requires k <= |s|
    ensures multiset(s[..k] + [v] + s[k..]) == multiset(s) + multiset{v}
  {
    assert s == s[..k] + s[k..];
  }

  /** std::sort. */
  method SortValues(s: seq<UInt64>) returns (r: seq<UInt64>)
    ensures Sorted(r) && multiset(r) == multiset(s)
  {
    r := [];
    for i := 0 to |s|
      invariant Sorted(r) && multiset(r) == multiset(s[..i])
    {
      assert s[..i + 1] == s[..i] + [s[i]];
      r := Insert(r, s[i]);
    }
    assert s[..|s|] == s;
  }

  /** The value of an element in a filter with range `f`. */
  function HashToRange(hash: Element -> UInt64, f: UInt64, e: Element): (v: UInt64) {
    InRange(hash(e), f)
  }

  /** The values of the elements, as a sorted list. */
  ghost predicate IsHashed(hash: Element -> UInt64, f: UInt64, elements: seq<Element>, values: seq<UInt64>) {
    Sorted(values) && |values| == |elements| && multiset(values) == multiset(Hashed(hash, f, elements))
  }

  ghost function Hashed(hash: Element -> UInt64, f: UInt64, elements: seq<Element>): (s: seq<UInt64>)
    ensures |s| == |elements| && forall i :: 0 <= i < |s| ==> s[i] == HashToRange(hash, f, elements[i])
  {
    seq(|elements|, i requires 0 <= i < |elements| => HashToRange(hash, f, elements[i]))
  }

  /** The sorted list has a value for every element, and no other. */
  lemma {:induction false} HashedMembers(hash: Element -> UInt64, f: UInt64, elements: seq<Element>,
                                         values: seq<UInt64>)
    requires IsHashed(hash, f, elements, values)
    ensures forall e :: e in elements ==> HashToRange(hash, f, e) in values
    ensures forall v :: v in values ==> exists e :: e in elements && HashToRange(hash, f, e) == v
  {
    var hashed := Hashed(hash, f, elements);
    SameMembers(hashed, values);
    forall e | e in elements ensures HashToRange(hash, f, e) in values {
      var j :| 0 <= j < |elements| && elements[j] == e;
      assert hashed[j] in hashed;
    }
    forall v | v in values ensures exists e :: e in elements && HashToRange(hash, f, e) == v {
      var j :| 0 <= j < |hashed| && hashed[j] == v;
      assert elements[j] in elements;
    }
  }

  method BuildHashedSet(hash: Element -> UInt64, f: UInt64, elements: seq<Element>) returns (values: seq<UInt64>)
    ensures IsHashed(hash, f, elements, values)
  {
    var hashed: seq<UInt64> := [];
    for i := 0 to |elements|
      invariant |hashed| == i && forall j :: 0 <= j < i ==> hashed[j] == HashToRange(hash, f, elements[j])
    {
      var v := MapIntoRange(hash(elements[i]), f);
      hashed := hashed + [v];
    }
    assert hashed == Hashed(hash, f, elements);
    values := SortValues(hashed);
    SameMembers(hashed, values);
  }

  lemma {:induction false} SameMembers(s: seq<UInt64>, t: seq<UInt64>)
    requires multiset(s) == multiset(t)
    ensures |s| == |t| && forall v :: v in s <==> v in t
  {
    assert |multiset(s)| == |s| && |multiset(t)| == |t|;
    forall v ensures v in s <==> v in t {
      assert v in s <==> v in multiset(s);
      assert v in t <==> v in multiset(t);
    }
  }

  class GCSFilter {
    const hash: Element -> UInt64
    const p: nat
    const n: nat
    const f: UInt64
    var encoded: seq<Byte>

    /** The elements of the filter and their values. */
    ghost var elements: seq<Element>
    ghost var values: seq<UInt64>

    ghost predicate Valid()
      reads this
    {
      && p <= 64 && |elements| == n && IsHashed(hash, f, elements, values)
      && Written(p, values, n) <= BitsOf(encoded) && 8 * |encoded| < |Written(p, values, n)| + 8
    }

    constructor (hash: Element -> UInt64, p: nat, n: nat, f: UInt64)
      requires p <= 64
      ensures this.hash == hash && this.p == p && this.n == n && this.f == f
    {
      this.hash, this.p, this.n, this.f := hash, p, n, f;
      encoded, values, elements := [], [], [];
    }

    /** Building a filter fails for 2^32 elements or more. */
    static method Build(hash: Element -> UInt64, p: nat, m: nat, elements: seq<Element>) returns (filter: GCSFilter?)
      requires p <= 64 && m < TWO_32
      ensures filter == null <==> |elements| >= TWO_32
      ensures filter != null ==>
        fresh(filter) && filter.Valid() && filter.hash == hash && filter.f == |elements| * m
        && filter.elements == elements
    {
      if |elements| >= TWO_32 {
        return null;
      }
      PieceBound(|elements|, m);
      filter := new GCSFilter(hash, p, |elements|, |elements| * m);
      filter.Fill(elements);
    }

    method Fill(elements: seq<Element>)
      requires p <= 64 && |elements| == n
      modifies this
      ensures Valid() && this.elements == elements
    {
      var hashed := BuildHashedSet(hash, f, elements);
      var bytes := WriteDeltas(hashed, p);
      encoded, values, this.elements := bytes, hashed, elements;
    }

    /** The codes of the differences, padded with zeros to whole bytes. */
    static method WriteDeltas(hashed: seq<UInt64>, p: nat) returns (bytes: seq<Byte>)
      requires p <= 64 && Sorted(hashed)
      ensures var b := Written(p, hashed, |hashed|);
              |bytes| == (|b| + 7) / 8 && BitsOf(bytes) == b + Zeros(8 * |bytes| - |b|)
    {
      var bitwriter := new BitWriter();
      WriteCodes(bitwriter, hashed, p);
      bitwriter.Flush();
      bytes := bitwriter.ostream;
    }

    static method WriteCodes(bitwriter: BitWriter, hashed: seq<UInt64>, p: nat)
      requires p <= 64 && Sorted(hashed) && bitwriter.Valid() && bitwriter.Bits() == []
      modifies bitwriter
      ensures bitwriter.Valid() && bitwriter.Bits() == Written(p, hashed, |hashed|)
    {
      var last: nat := 0;
      for i := 0 to |hashed|
        invariant last == Before(hashed, i)
        invariant bitwriter.Valid() && bitwriter.Bits() == Written(p, hashed, i)
      {
        last := WriteDelta(bitwriter, hashed, p, i, last);
      }
    }

    static method WriteDelta(bitwriter: BitWriter, hashed: seq<UInt64>, p: nat, i: nat, last: nat) returns (next: nat)
      requires p <= 64 && Sorted(hashed) && i < |hashed| && last == Before(hashed, i)
      requires bitwriter.Valid() && bitwriter.Bits() == Written(p, hashed, i)
      modifies bitwriter
      ensures bitwriter.Valid() && bitwriter.Bits() == Written(p, hashed, i + 1) && next == hashed[i]
    {
      WriteNext(p, hashed, i);
      GolombRiceEncode(bitwriter, p, hashed[i] - last);
      next := hashed[i];
    }

    /** Merging the values read back with sorted queries finds out whether they have one in common. */
    method MatchInternal(q: seq<UInt64>) returns (found: bool)
      requires Valid() && Sorted(q)
      ensures found <==> exists v :: v in values && v in q
    {
      found := Merge(encoded, p, n, q, values);
    }

    /** The test of a received filter: the bytes are exactly `n` codes, with less than a byte of padding. */
    static method Accepts(encoded: seq<Byte>, p: nat, n: nat) returns (ok: bool)
      ensures ok <==> (n == 0 || p <= 64) && IsFilter(p, BitsOf(encoded), n)
    {
      var bitreader := new BitReader(encoded);
      FilterIff(p, BitsOf(encoded), n);
      ok := ReadCodes(bitreader, p, n);
      if ok {
        ok := bitreader.Empty();
      }
    }

    /** Read `n` codes. */
    static method ReadCodes(bitreader: BitReader, p: nat, n: nat) returns (ok: bool)
      requires bitreader.Begun()
      modifies bitreader
      ensures bitreader.Begun()
      ensures ok ==> (n == 0 || p <= 64) && Unread(p, old(bitreader.Rest()), n) == Some(bitreader.Rest())
      ensures !ok ==> (n > 0 && p > 64) || Unread(p, old(bitreader.Rest()), n) == None
    {
      ghost var b := bitreader.Rest();
      for i := 0 to n
        invariant AfterCodes(bitreader, p, b, n, i)
      {
        var more := SkipCode(bitreader, p, b, n, i);
        if !more {
          return false;
        }
      }
      return true;
    }

    /** The reader has `n - i` codes of the bits `b` left to read. */
    static ghost predicate AfterCodes(bitreader: BitReader, p: nat, b: seq<bool>, n: nat, i: nat)
      requires i <= n
      reads bitreader
    {
      bitreader.Begun() && (i > 0 ==> p <= 64) && Unread(p, b, n) == Unread(p, bitreader.Rest(), n - i)
    }

    static method SkipCode(bitreader: BitReader, p: nat, ghost b: seq<bool>, ghost n: nat, ghost i: nat)
        returns (ok: bool)
      requires i < n && AfterCodes(bitreader, p, b, n, i)
      modifies bitreader
      ensures ok ==> AfterCodes(bitreader, p, b, n, i + 1)
      ensures !ok ==> bitreader.Begun() && (p > 64 || Unread(p, b, n) == None)
    {
      var v := GolombRiceDecode(bitreader, p);
      ok := v.Some?;
    }

    method Match(e: Element) returns (found: bool)
      requires Valid()
      ensures found <==> exists d :: d in elements && HashToRange(hash, f, d) == HashToRange(hash, f, e)
      ensures e in elements ==> found
    {
      var v := MapIntoRange(hash(e), f);
      found := MatchInternal([v]);
      HashedMembers(hash, f, elements, values);
    }

    method MatchAny(query: seq<Element>) returns (found: bool)
      requires Valid()
      ensures found <==>
                exists d, e :: d in elements && e in query && HashToRange(hash, f, d) == HashToRange(hash, f, e)
      ensures (exists e :: e in query && e in elements) ==> found
    {
      var q := BuildHashedSet(hash, f, query);
      found := MatchInternal(q);
      HashedMembers(hash, f, elements, values);
      HashedMembers(hash, f, query, q);
    }
  }

  /** Read `n` values from the encoded bytes while moving on in the sorted queries. */
  method Merge(encoded: seq<Byte>, p: nat, n: nat, q: seq<UInt64>, ghost values: seq<UInt64>) returns (found: bool)
    requires p <= 64 && |values| == n && Sorted(values) && Sorted(q)
    requires Written(p, values, n) <= BitsOf(encoded)
    ensures found <==> exists v :: v in values && v in q
  {
    var bitreader := new BitReader(encoded);
    var value: UInt64, k: nat := 0, 0;
    ghost var tail := BitsOf(encoded)[|Written(p, values, n)|..];
    StartReading(p, values, BitsOf(encoded));
    for i := 0 to n
      invariant value == Before(values, i)
      invariant bitreader.Valid() && bitreader.Rest() == ToRead(p, values, i) + tail
      invariant k <= |q| && Below(q, k, value) && Apart(values, i, q)
      modifies bitreader
    {
      var delta := NextDelta(bitreader, p, values, i, tail);
      value := AddDelta(value, delta, values, i);
      BelowMore(values, i, q, k);
      k := SkipBelow(q, k, value);
      Judge(values, i, q, k);
      if k == |q| {
        return false;
      } else if q[k] == value {
        return true;
      }
    }
    AllApart(values, q);
    return false;
  }

  ghost function Before(values: seq<UInt64>, i: nat): (v: nat)
    requires i <= |values|
  {
    if i == 0 then 0 else values[i - 1]
  }

  /** The next difference is read as it was written. */
  method NextDelta(bitreader: BitReader, p: nat, ghost values: seq<UInt64>, ghost i: nat, ghost tail: seq<bool>)
      returns (delta: UInt64)
    requires p <= 64 && Sorted(values) && i < |values|
    requires bitreader.Valid() && bitreader.Rest() == ToRead(p, values, i) + tail
    modifies bitreader
    ensures bitreader.Valid() && bitreader.Rest() == ToRead(p, values, i + 1) + tail
    ensures delta == Delta(values, i)
  {
    ghost var d, rest := Delta(values, i), ToRead(p, values, i + 1) + tail;
    Associate(Coded(p, d), ToRead(p, values, i + 1), tail);
    DecodedCoded(p, d, rest);
    var v := GolombRiceDecode(bitreader, p);
    delta := v.value;
  }

  /** The running sum, in 64 bits. */
  method AddDelta(value: UInt64, delta: UInt64, ghost values: seq<UInt64>, ghost i: nat) returns (r: UInt64)
    requires Sorted(values) && i < |values| && value == Before(values, i) && delta == Delta(values, i)
    ensures r == values[i]
  {
    r := (value + delta) % TWO_64;
  }

  /** Skip the queries below a value. */
  method SkipBelow(q: seq<UInt64>, from: nat, value: nat) returns (k: nat)
    requires from <= |q| && Below(q, from, value)
    ensures from <= k <= |q| && Below(q, k, value) && (k < |q| ==> q[k] >= value)
  {
    k := from;
    while k < |q| && q[k] < value
      invariant from <= k <= |q| && Below(q, k, value)
    {
      k := k + 1;
    }
  }

  /** The first `k` queries are below a value. */
  ghost predicate Below(q: seq<UInt64>, k: nat, value: nat)
    requires k <= |q|
  {
    forall j :: 0 <= j < k ==> q[j] < value
  }

  /** The first `i` values are not among the queries. */
  ghost predicate Apart(values: seq<UInt64>, i: nat, q: seq<UInt64>)
    requires i <= |values|
  {
    forall j :: 0 <= j < i ==> values[j] !in q
  }

  lemma {:induction false} StartReading(p: nat, values: seq<UInt64>, b: seq<bool>)
    requires Sorted(values) && Written(p, values, |values|) <= b
    ensures b == ToRead(p, values, 0) + b[|Written(p, values, |values|)|..]
  {
    WrittenIsRead(p, values, 0);
    assert [] + ToRead(p, values, 0) == ToRead(p, values, 0);
  }

  /** What is below a value is below the next one. */
  lemma {:induction false} BelowMore(values: seq<UInt64>, i: nat, q: seq<UInt64>, k: nat)
    requires Sorted(values) && i < |values| && k <= |q| && Below(q, k, Before(values, i))
    ensures Below(q, k, values[i])
  {
    assert i > 0 ==> values[i - 1] <= values[i];
  }

  /** After skipping, the next query decides about a value, and the end of the queries about all that follow. */
  lemma {:induction false} Judge(values: seq<UInt64>, i: nat, q: seq<UInt64>, k: nat)
    requires Sorted(values) && Sorted(q) && i < |values| && k <= |q| && Below(q, k, values[i])
    requires Apart(values, i, q) && (k < |q| ==> q[k] >= values[i])
    ensures k == |q| ==> forall v :: v in values ==> v !in q
    ensures k < |q| && q[k] == values[i] ==> exists v :: v in values && v in q
    ensures k < |q| && q[k] != values[i] ==> Apart(values, i + 1, q)
  {
    if k == |q| {
      forall j | 0 <= j < |values| ensures values[j] !in q {
        assert j >= i ==> values[j] >= values[i];
      }
      AllApart(values, q);
    } else if q[k] == values[i] {
      assert values[i] in values && q[k] in q;
    } else {
      forall j | 0 <= j < |q| ensures q[j] != values[i] {
        assert j >= k ==> q[j] >= q[k];
      }
    }
  }

  lemma {:induction false} AllApart(values: seq<UInt64>, q: seq<UInt64>)
    requires Apart(values, |values|, q)
    ensures forall v :: v in values ==> v !in q
  {
    forall v | v in values ensures v !in q {
      var j :| 0 <= j < |values| && values[j] == v;
    }
  }

  // ---------------------------------------------------------------- a received filter

  /** A list of numbers in code. */
  ghost function Codes(p: nat, ds: seq<nat>): (b: seq<bool>) {
    if ds == [] then [] else Coded(p, ds[0]) + Codes(p, ds[1..])
  }

  ghost function DecodedAll(p: nat, b: seq<bool>, n: nat): (r: Option<(seq<nat>, seq<bool>)>)
    decreases n
  {
    if n == 0 then Some(([], b)) else
    var d := Decoded(p, b);
    if d.None? then None else
    var r := DecodedAll(p, d.value.1, n - 1);
    if r.None? then None else Some(([d.value.0] + r.value.0, r.value.1))
  }

  /** What follows `n` codes. */
  ghost function Unread(p: nat, b: seq<bool>, n: nat): (r: Option<seq<bool>>)
    decreases n
  {
    if n == 0 then Some(b) else if Decoded(p, b).None? then None else Unread(p, Decoded(p, b).value.1, n - 1)
  }

  lemma {:induction false} UnreadIs(p: nat, b: seq<bool>, n: nat)
    ensures var d := DecodedAll(p, b, n); Unread(p, b, n) == if d.None? then None else Some(d.value.1)
    decreases n
  {
    if n > 0 && Decoded(p, b).Some? {
      UnreadIs(p, Decoded(p, b).value.1, n - 1);
    }
  }

  /** The bits are `n` codes and less than a byte of padding. */
  ghost predicate IsFilter(p: nat, b: seq<bool>, n: nat) {
    exists ds: seq<nat>, rest: seq<bool> :: |ds| == n && |rest| < 8 && IsCodes(p, b, ds, rest)
  }

  ghost predicate IsCodes(p: nat, b: seq<bool>, ds: seq<nat>, rest: seq<bool>) {
    b == Codes(p, ds) + rest
  }

  lemma {:induction false} FromInjective(a: seq<bool>, b: seq<bool>)
    requires |a| == |b| && FromBits(a) == FromBits(b)
    ensures a == b
  {
    if a != [] {
      var k := |a| - 1;
      assert a == a[..k] + [a[k]] && b == b[..k] + [b[k]];
      FromInjective(a[..k], b[..k]);
    }
  }

  /** What decodes to a number is the code of this number, and the rest. */
  lemma {:induction false} DecodedIsCoded(p: nat, b: seq<bool>)
    requires Decoded(p, b).Some?
    ensures b == Coded(p, Decoded(p, b).value.0) + Decoded(p, b).value.1
  {
    var q := LeadingOnes(b);
    DecodedAt(p, b);
    var x, d, rest := Decoded(p, b).value.0, b[q + 1..q + 1 + p], b[q + 1 + p..];
    CodeOf(p, q, d, x);
    LeadingAreOnes(b);
    CodeParts([], b[..q], d);
    Cut(b, q, p);
  }

  lemma {:induction false} Cut(b: seq<bool>, q: nat, p: nat)
    requires q + 1 + p <= |b| && !b[q]
    ensures b == b[..q] + [false] + b[q + 1..q + 1 + p] + b[q + 1 + p..]
  {
  }

  lemma {:induction false} CodeOf(p: nat, q: nat, d: seq<bool>, x: nat)
    requires |d| == p && x == Scaled(q, Pow2(p)) + FromBits(d)
    ensures Coded(p, x) == Ones(q) + [false] + d
  {
    BitsSplit(x, p);
    FromBound(d);
    FromBound(ToBits(x, p));
    SplitOnce(High(x, p), FromBits(ToBits(x, p)), q, FromBits(d), Pow2(p));
    FromInjective(ToBits(x, p), d);
  }

  lemma {:induction false} LeadingAreOnes(b: seq<bool>)
    ensures b[..LeadingOnes(b)] == Ones(LeadingOnes(b))
  {
    if b != [] && b[0] {
      LeadingAreOnes(b[1..]);
      assert b[..LeadingOnes(b)] == [true] + b[1..][..LeadingOnes(b) - 1];
    }
  }

  lemma {:induction false} SplitOnce(h: nat, l: nat, q: nat, r: nat, w: nat)
    requires l < w && r < w && Scaled(h, w) + l == Scaled(q, w) + r
    ensures h == q && l == r
  {
    ScaledIs(h, w);
    ScaledIs(q, w);
    Quotient(h * w + l, w, h, l);
    Quotient(q * w + r, w, q, r);
  }

  lemma {:induction false} CodesDecode(p: nat, ds: seq<nat>, rest: seq<bool>)
    ensures DecodedAll(p, Codes(p, ds) + rest, |ds|) == Some((ds, rest))
  {
    if ds != [] {
      var more := Codes(p, ds[1..]) + rest;
      Associate(Coded(p, ds[0]), Codes(p, ds[1..]), rest);
      DecodedCoded(p, ds[0], more);
      CodesDecode(p, ds[1..], rest);
      assert [ds[0]] + ds[1..] == ds;
    } else {
      assert [] + rest == rest;
    }
  }

  lemma {:induction false} DecodeCodes(p: nat, b: seq<bool>, n: nat)
    requires DecodedAll(p, b, n).Some?
    ensures var (ds, rest) := DecodedAll(p, b, n).value; |ds| == n && b == Codes(p, ds) + rest
    decreases n
  {
    if n > 0 {
      var (x, more) := Decoded(p, b).value;
      DecodedIsCoded(p, b);
      DecodeCodes(p, more, n - 1);
      var (ds, rest) := DecodedAll(p, more, n - 1).value;
      assert ([x] + ds)[1..] == ds;
      Associate(Coded(p, x), Codes(p, ds), rest);
    } else {
      assert [] + b == b;
    }
  }

  lemma {:induction false} FilterIff(p: nat, b: seq<bool>, n: nat)
    ensures IsFilter(p, b, n) <==> Unread(p, b, n).Some? && |Unread(p, b, n).value| < 8
  {
    UnreadIs(p, b, n);
    if IsFilter(p, b, n) {
      var ds: seq<nat>, rest: seq<bool> :| |ds| == n && |rest| < 8 && IsCodes(p, b, ds, rest);
      CodesDecode(p, ds, rest);
    }
    if Unread(p, b, n).Some? && |Unread(p, b, n).value| < 8 {
      DecodeCodes(p, b, n);
      var (ds, rest) := DecodedAll(p, b, n).value;
      assert IsCodes(p, b, ds, rest);
    }
  }

  /** The values from `i` on are written as the codes of their differences. */
  lemma {:induction false} ToReadIsCodes(p: nat, values: seq<UInt64>, i: nat) returns (ds: seq<nat>)
    requires Sorted(values) && i <= |values|
    ensures |ds| == |values| - i && Codes(p, ds) == ToRead(p, values, i)
    decreases |values| - i
  {
    ds := [];
    if i < |values| {
      var more := ToReadIsCodes(p, values, i + 1);
      ds := [Delta(values, i)] + more;
      assert ds[1..] == more;
    }
  }

  /** Every filter that is built passes the test. */
  lemma {:induction false} BuiltIsAccepted(filter: GCSFilter)
    requires filter.Valid()
    ensures IsFilter(filter.p, BitsOf(filter.encoded), filter.n)
  {
    var b := BitsOf(filter.encoded);
    StartReading(filter.p, filter.values, b);
    var ds := ToReadIsCodes(filter.p, filter.values, 0);
    assert IsCodes(filter.p, b, ds, b[|Written(filter.p, filter.values, filter.n)|..]);
  }
}
