/**
 Streams of bits in bytes, the highest bit of a byte first (src/streams.h): the
 writer collects bits in a byte until it is full, the reader hands them out
 again.

 A byte stream is the list of its bytes.
 */
module BitStream {
  import opened Numbers
  import opened Wrappers

  // ---------------------------------------------------------------- lists of bits

  /** The `n` lowest bits of a number, the highest first. */
  function ToBits(x: nat, n: nat): (b: seq<bool>)
    ensures |b| == n
  {
    if n == 0 then [] else ToBits(x / 2, n - 1) + [x % 2 == 1]
  }

  function FromBits(b: seq<bool>): (x: nat) {
    if b == [] then 0 else 2 * FromBits(b[..|b| - 1]) + if b[|b| - 1] then 1 else 0
  }

  function Zeros(n: nat): (b: seq<bool>)
    ensures |b| == n
  {
    if n == 0 then [] else Zeros(n - 1) + [false]
  }

  ghost function BitsOf(bytes: seq<Byte>): (b: seq<bool>)
    ensures |b| == 8 * |bytes|
  {
    if bytes == [] then [] else BitsOf(bytes[..|bytes| - 1]) + ToBits(bytes[|bytes| - 1], 8)
  }

  lemma {:induction false} ZerosAt(n: nat, i: nat)
    requires i < n
    ensures !Zeros(n)[i]
  {
    if i < n - 1 {
      ZerosAt(n - 1, i);
    }
  }

  /** A part of a list of zeros is one. */
  lemma {:induction false} ZerosPart(n: nat, i: nat)
    requires i <= n
    ensures Zeros(n)[..i] == Zeros(i) && Zeros(n)[i..] == Zeros(n - i)
  {
    forall k | 0 <= k < i ensures Zeros(n)[k] == Zeros(i)[k] {
      ZerosAt(n, k);
      ZerosAt(i, k);
    }
    forall k | 0 <= k < n - i ensures Zeros(n)[i..][k] == Zeros(n - i)[k] {
      ZerosAt(n, i + k);
      ZerosAt(n - i, k);
    }
  }

  lemma {:induction false} TakeConcat(a: seq<bool>, b: seq<bool>, k: nat, m: nat)
    requires k <= |a| && m <= |b| && (m == 0 || k == |a|)
    ensures (a + b)[..k + m] == a[..k] + b[..m]
  {
  }

  lemma {:induction false} Associate(a: seq<bool>, b: seq<bool>, c: seq<bool>)
    ensures a + (b + c) == (a + b) + c
  {
  }

  /** The lower bits of a number are the end of its list. */
  lemma {:induction false} LowBits(x: nat, n: nat, m: nat)
    requires m <= n
    ensures ToBits(x, n)[n - m..] == ToBits(x, m)
    decreases n
  {
    if m > 0 {
      LowBits(x / 2, n - 1, m - 1);
      assert ToBits(x, n)[n - m..] == ToBits(x / 2, n - 1)[n - m..] + [x % 2 == 1];
    }
  }

  /** A right shift keeps the beginning of the list. */
  lemma {:induction false} ShrBits(x: nat, n: nat, k: nat)
    requires k <= n
    ensures ToBits(High(x, k), n - k) == ToBits(x, n)[..n - k]
    decreases k
  {
    if k > 0 {
      ShrBits(x / 2, n - 1, k - 1);
    }
  }

  /** A left shift appends zeros. */
  lemma {:induction false} ShlBits(x: nat, n: nat, k: nat)
    ensures ToBits(Scaled(x, Pow2(k)), n + k) == ToBits(x, n) + Zeros(k)
    decreases k
  {
    if k == 0 {
      ScaledIs(x, 1);
    } else {
      ShlBits(x, n, k - 1);
      ScaledSplit(x, Pow2(k - 1), Pow2(k - 1));
      assert Pow2(k) == Pow2(k - 1) + Pow2(k - 1);
    }
  }

  /** Cutting a number off at a word does not change the bits in the word. */
  lemma {:induction false} WordBits(x: nat, w: nat, n: nat)
    requires n <= w
    ensures ToBits(Mod(x, Pow2(w)), n) == ToBits(x, n)
    decreases x
  {
    if x >= Pow2(w) {
      WordBits(x - Pow2(w), w, n);
      LessBits(x - Pow2(w), w, n);
    }
  }

  lemma {:induction false} LessBits(x: nat, w: nat, n: nat)
    requires n <= w
    ensures ToBits(x + Pow2(w), n) == ToBits(x, n)
    decreases n
  {
    if n > 0 {
      LessBits(x / 2, w - 1, n - 1);
      assert (x + Pow2(w)) / 2 == x / 2 + Pow2(w - 1);
    }
  }

  /** The low bits are zeros exactly if the number is aligned. */
  lemma {:induction false} AlignedBits(x: nat, n: nat, s: nat)
    requires s <= n
    ensures ToBits(x, n)[n - s..] == Zeros(s) <==> Aligned(x, s)
    decreases n
  {
    if s > 0 {
      AlignedBits(x / 2, n - 1, s - 1);
      var b, c := ToBits(x, n)[n - s..], ToBits(x / 2, n - 1)[n - s..];
      assert b == c + [x % 2 == 1];
      assert b == Zeros(s) ==> c == b[..s - 1] == Zeros(s)[..s - 1] == Zeros(s - 1) && b[s - 1] == Zeros(s)[s - 1];
    }
  }

  /** Adding below the low zeros. */
  lemma {:induction false} AddBits(y: nat, c: nat, n: nat, s: nat)
    requires s <= n && Aligned(y, s) && c < Pow2(s)
    ensures ToBits(y + c, n) == ToBits(y, n)[..n - s] + ToBits(c, s)
    decreases n
  {
    if s > 0 {
      AddBits(y / 2, c / 2, n - 1, s - 1);
      assert (y + c) / 2 == y / 2 + c / 2 && (y + c) % 2 == c % 2;
      assert ToBits(y, n)[..n - s] == ToBits(y / 2, n - 1)[..n - s];
    }
  }

  lemma {:induction false} HighBound(x: nat, n: nat, k: nat)
    requires k <= n && x < Pow2(n)
    ensures High(x, k) < Pow2(n - k)
    decreases k
  {
    if k > 0 {
      HighBound(x / 2, n - 1, k - 1);
    }
  }

  lemma {:induction false} FromBound(b: seq<bool>)
    ensures FromBits(b) < Pow2(|b|)
  {
    if b != [] {
      FromBound(b[..|b| - 1]);
    }
  }

  lemma {:induction false} FromConcat(a: seq<bool>, b: seq<bool>)
    ensures FromBits(a + b) == Scaled(FromBits(a), Pow2(|b|)) + FromBits(b)
    decreases |b|
  {
    if b == [] {
      assert a + b == a;
      ScaledIs(FromBits(a), 1);
    } else {
      var c := b[..|b| - 1];
      FromConcat(a, c);
      assert (a + b)[..|a + b| - 1] == a + c;
      ScaledSplit(FromBits(a), Pow2(|c|), Pow2(|c|));
    }
  }

  lemma {:induction false} FromTo(x: nat, n: nat)
    requires x < Pow2(n)
    ensures FromBits(ToBits(x, n)) == x
  {
    if n > 0 {
      FromTo(x / 2, n - 1);
      assert ToBits(x, n)[..n - 1] == ToBits(x / 2, n - 1);
    }
  }

  /** x << k. */
  function TimesPow2(x: nat, k: nat): (r: nat)
    ensures r == Scaled(x, Pow2(k))
  {
    ScaledIs(x, Pow2(k));
    x * Pow2(k)
  }

  lemma {:induction false} BitsOfFirst(b: Byte, rest: seq<Byte>)
    ensures BitsOf([b] + rest) == ToBits(b, 8) + BitsOf(rest)
    decreases |rest|
  {
    var s := [b] + rest;
    if rest != [] {
      var r := rest[..|rest| - 1];
      BitsOfFirst(b, r);
      assert s[..|s| - 1] == [b] + r;
    } else {
      assert s == [b] && BitsOf([]) == [];
    }
  }

  // ---------------------------------------------------------------- the writer

  /** The part of a word that goes into a byte at an offset, by two shifts of a 64-bit word. */
  method ChunkOut(data: nat, nbits: nat, offset: nat, ghost w: nat) returns (c: nat)
    requires w == 64 && nbits <= w && offset < 8
    ensures c == High(Mod(Scaled(data, Pow2(w - nbits)), Pow2(w)), w - (8 - offset))
  {
    Pow2Values();
    ModIs(Scaled(data, Pow2(w - nbits)), Pow2(w));
    c := High(TimesPow2(data, 64 - nbits) % TWO_64, 56 + offset);
  }

  /** It is the next bits of the word, followed by zeros. */
  lemma {:induction false} ChunkIs(data: nat, nbits: nat, m: nat, bits: nat, w: nat, chunk: nat)
    requires nbits <= w && m <= w && bits == Min(m, nbits)
    requires chunk == High(Mod(Scaled(data, Pow2(w - nbits)), Pow2(w)), w - m)
    ensures chunk < Pow2(m) && ToBits(chunk, m) == ToBits(data, nbits)[..bits] + Zeros(m - bits)
  {
    ShiftedOut(data, nbits, m, w);
    ZerosPart(w - nbits, m - bits);
    TakeConcat(ToBits(data, nbits), Zeros(w - nbits), bits, m - bits);
  }

  /** The highest `m` bits of a word that holds `n` bits at its top. */
  lemma {:induction false} ShiftedOut(data: nat, n: nat, m: nat, w: nat)
    requires n <= w && m <= w
    ensures var c := High(Mod(Scaled(data, Pow2(w - n)), Pow2(w)), w - m);
            c < Pow2(m) && ToBits(c, m) == (ToBits(data, n) + Zeros(w - n))[..m]
  {
    var x := Scaled(data, Pow2(w - n));
    var y := Mod(x, Pow2(w));
    ShlBits(data, n, w - n);
    WordBits(x, w, w);
    ShrBits(y, w, w - m);
    HighBound(y, w, w - m);
  }

  /** Or-ing a chunk into a byte of `w` bits appends its bits. */
  lemma {:induction false} ChunkAdds(buffer: nat, offset: nat, chunk: nat, d: seq<bool>, w: nat)
    requires offset + |d| <= w && buffer < Pow2(w) && Aligned(buffer, w - offset)
    requires chunk < Pow2(w - offset) && ToBits(chunk, w - offset) == d + Zeros(w - offset - |d|)
    ensures Or(buffer, chunk) < Pow2(w) && Aligned(Or(buffer, chunk), w - (offset + |d|))
    ensures ToBits(Or(buffer, chunk), w)[..offset + |d|] == ToBits(buffer, w)[..offset] + d
  {
    var s, rest := w - offset, w - offset - |d|;
    OrDisjoint(chunk, buffer, s);
    AlignedRoom(buffer, s, w);
    AddBits(buffer, chunk, w, s);
    Associate(ToBits(buffer, w)[..offset], d, Zeros(rest));
    var b := ToBits(buffer, w)[..offset] + d;
    assert ToBits(buffer + chunk, w) == b + Zeros(rest);
    assert (b + Zeros(rest))[w - rest..] == Zeros(rest) && (b + Zeros(rest))[..w - rest] == b;
    AlignedBits(buffer + chunk, w, rest);
  }

  /** Or the next bits of a word into the free part of a byte. */
  method FillByte(buffer: Byte, offset: nat, data: nat, n: nat, bits: nat) returns (r: Byte)
    requires offset < 8 && Aligned(buffer, 8 - offset) && n <= 64 && bits == Min(8 - offset, n)
    ensures Aligned(r, 8 - (offset + bits))
    ensures ToBits(r, 8)[..offset + bits] == ToBits(buffer, 8)[..offset] + ToBits(data, n)[..bits]
  {
    ghost var w, word := 8, 64;
    var chunk := ChunkOut(data, n, offset, word);
    ChunkIs(data, n, w - offset, bits, word, chunk);
    Pow2Values();
    ChunkAdds(buffer, offset, chunk, ToBits(data, n)[..bits], w);
    r := Or(buffer, chunk);
  }

  lemma {:induction false} PadLength(n: nat, offset: nat)
    requires offset < 8
    ensures (8 * n + offset + 7) / 8 == if offset == 0 then n else n + 1
  {
  }

  class BitWriter {
    /** The byte stream written to. */
    var ostream: seq<Byte>
    var buffer: Byte
    var offset: nat

    /** The part of the byte not yet written to is zero. */
    ghost predicate Valid()
      reads this
    {
      offset < 8 && Aligned(buffer, 8 - offset)
    }

    /** All bits written so far. */
    ghost function Bits(): (b: seq<bool>)
      requires Valid()
      reads this
    {
      BitsOf(ostream) + ToBits(buffer, 8)[..offset]
    }

    constructor ()
      ensures Valid() && Bits() == [] && ostream == []
    {
      ostream, buffer, offset := [], 0, 0;
      new;
      AlignedZero(8);
    }

    /** Write the lowest bits of a number; more than 64, or less than none, are refused. */
    method Write(data: nat, nbits: int) returns (ok: bool)
      requires Valid()
      modifies this
      ensures Valid() && (ok <==> 0 <= nbits <= 64)
      ensures Bits() == old(Bits()) + if ok then ToBits(data, nbits) else []
    {
      if nbits < 0 || nbits > 64 {
        return false;
      }
      var n := nbits;
      assert ToBits(data, nbits)[..0] == [];
      while n > 0
        invariant 0 <= n <= nbits && Valid()
        invariant Bits() == old(Bits()) + ToBits(data, nbits)[..nbits - n]
        decreases n
      {
        ghost var n0 := n;
        n := WriteChunk(data, n);
        LowBits(data, nbits, n0);
        assert ToBits(data, nbits)[..nbits - n] == ToBits(data, nbits)[..nbits - n0] + ToBits(data, n0)[..n0 - n];
      }
      return true;
    }

    /** Fill the byte as far as the bits go; a full byte goes to the stream. */
    method WriteChunk(data: nat, n0: nat) returns (n: nat)
      requires Valid() && 0 < n0 <= 64
      modifies this
      ensures Valid() && n < n0 && Bits() == old(Bits()) + ToBits(data, n0)[..n0 - n]
    {
      var bits := Min(8 - offset, n0);
      ghost var d, o, a := ToBits(data, n0)[..bits], BitsOf(ostream), ToBits(buffer, 8)[..offset];
      buffer := FillByte(buffer, offset, data, n0, bits);
      offset := offset + bits;
      n := n0 - bits;
      Associate(o, a, d);
      if offset == 8 {
        assert ToBits(buffer, 8)[..8] == ToBits(buffer, 8);
        Emit();
      }
    }

    /** A full byte goes to the stream. */
    method Emit()
      modifies this
      ensures ostream == old(ostream) + [old(buffer)] && buffer == 0 && offset == 0 && Valid()
      ensures Bits() == BitsOf(old(ostream)) + ToBits(old(buffer), 8)
    {
      assert (ostream + [buffer])[..|ostream|] == ostream;
      ostream, buffer, offset := ostream + [buffer], 0, 0;
      AlignedZero(8);
    }

    /** Unwritten bits go to the stream, with zeros up to a whole byte. */
    method Flush()
      requires Valid()
      modifies this
      ensures Valid() && offset == 0
      ensures |ostream| == (|old(Bits())| + 7) / 8
      ensures BitsOf(ostream) == Bits() == old(Bits()) + Zeros(8 * |ostream| - |old(Bits())|)
    {
      PadLength(|ostream|, offset);
      if offset == 0 {
        assert Bits() == BitsOf(ostream) && Zeros(0) == [];
        return;
      }
      ghost var o, b, w := BitsOf(ostream), ToBits(buffer, 8), 8;
      AlignedBits(buffer, w, w - offset);
      Associate(o, b[..offset], b[offset..]);
      assert b == b[..offset] + b[offset..];
      Emit();
    }
  }

  // ---------------------------------------------------------------- the reader

  /** The next bits of a byte, by two shifts of an 8-bit word. */
  method ChunkIn(buffer: Byte, offset: nat, bits: nat, ghost w: nat) returns (c: nat)
    requires w == 8 && offset + bits <= w
    ensures c == FromBits(ToBits(buffer, w)[offset..offset + bits])
  {
    Pow2Values();
    ModIs(Scaled(buffer, Pow2(offset)), Pow2(w));
    ShiftedIn(buffer, offset, bits, w);
    c := High(TimesPow2(buffer, offset) % 256, 8 - bits);
  }

  /** Bits in the middle of a word, by shifting out those before and after them. */
  lemma {:induction false} ShiftedIn(buffer: nat, offset: nat, bits: nat, w: nat)
    requires offset + bits <= w
    ensures High(Mod(Scaled(buffer, Pow2(offset)), Pow2(w)), w - bits) ==
              FromBits(ToBits(buffer, w)[offset..offset + bits])
  {
    var x := Scaled(buffer, Pow2(offset));
    var y := Mod(x, Pow2(w));
    var c := High(y, w - bits);
    ShlBits(buffer, w, offset);
    LowBits(x, w + offset, w);
    WordBits(x, w, w);
    ShrBits(y, w, w - bits);
    HighBound(y, w, w - bits);
    FromTo(c, bits);
    Middle(ToBits(buffer, w), Zeros(offset), offset, bits);
    assert ToBits(c, bits) == ToBits(x, w)[..bits];
  }

  lemma {:induction false} Middle(a: seq<bool>, b: seq<bool>, k: nat, m: nat)
    requires k + m <= |a|
    ensures (a + b)[k..][..m] == a[k..k + m]
  {
  }

  lemma {:induction false} DropConcat(a: seq<bool>, b: seq<bool>, k: nat, m: nat)
    requires k + m <= |a|
    ensures (a[k..] + b)[..m] == a[k..k + m] && (a[k..] + b)[m..] == a[k + m..] + b
  {
  }

  lemma {:induction false} ReadMore(rest: seq<bool>, k: nat, m: nat)
    requires k + m <= |rest|
    ensures rest[..k] + rest[k..][..m] == rest[..k + m] && rest[k..][m..] == rest[k + m..]
  {
  }

  class BitReader {
    const istream: seq<Byte>
    var pos: nat
    var buffer: Byte
    var offset: nat

    ghost predicate Valid()
      reads this
    {
      offset <= 8 && pos <= |istream|
    }

    /** The bits still to be read. */
    ghost function Rest(): (b: seq<bool>)
      requires Valid()
      reads this
    {
      ToBits(buffer, 8)[offset..] + BitsOf(istream[pos..])
    }

    /** At least one bit of the byte has been read. */
    ghost predicate Begun()
      reads this
    {
      Valid() && offset > 0
    }

    constructor (bytes: seq<Byte>)
      ensures Begun() && Rest() == BitsOf(bytes)
    {
      istream, pos, buffer, offset := bytes, 0, 0, 8;
      new;
      assert bytes[0..] == bytes;
    }

    /** The next bits as a number; a failure if there are not as many, or for more than 64. */
    method Read(nbits: int) returns (r: Option<nat>)
      requires Valid()
      modifies this`pos, this`buffer, this`offset
      ensures Valid() && (r.Some? <==> 0 <= nbits <= 64 && nbits <= |old(Rest())|)
      ensures r.Some? ==> r.value == FromBits(old(Rest())[..nbits]) && Rest() == old(Rest())[nbits..]
      ensures !(0 <= nbits <= 64) ==> Rest() == old(Rest())
      ensures old(Begun()) ==> Begun()
    {
      if nbits < 0 || nbits > 64 {
        return None;
      }
      ghost var rest := Rest();
      var n, data := nbits, 0;
      while n > 0
        invariant 0 <= n <= nbits && Valid() && nbits - n <= |rest|
        invariant data == FromBits(rest[..nbits - n]) && Rest() == rest[nbits - n..]
        invariant old(Begun()) ==> Begun()
        decreases n
      {
        ghost var k := nbits - n;
        var more;
        more, data, n := ReadNext(data, n, rest[..k]);
        if !more {
          return None;
        }
        ReadMore(rest, k, nbits - n - k);
      }
      return Some(data);
    }

    /** Bits of the byte, or of the next byte when there are none left. */
    method ReadNext(data0: nat, n0: nat, ghost before: seq<bool>) returns (more: bool, data: nat, n: nat)
      requires Valid() && n0 > 0 && data0 == FromBits(before)
      modifies this`pos, this`buffer, this`offset
      ensures Valid() && (more <==> old(Rest()) != [])
      ensures more ==> n < n0 && n0 - n <= |old(Rest())| && Rest() == old(Rest())[n0 - n..]
      ensures more ==> data == FromBits(before + old(Rest())[..n0 - n])
      ensures old(Begun()) ==> Begun()
    {
      if offset == 8 {
        if pos == |istream| {
          return false, data0, n0;
        }
        Fetch();
      }
      more := true;
      data, n := ReadChunk(data0, n0, before);
    }

    /** The next byte of the stream. */
    method Fetch()
      requires Valid() && offset == 8 && pos < |istream|
      modifies this`pos, this`buffer, this`offset
      ensures Valid() && offset == 0 && Rest() == old(Rest())
    {
      BitsOfFirst(istream[pos], istream[pos + 1..]);
      assert istream[pos..] == [istream[pos]] + istream[pos + 1..];
      assert ToBits(buffer, 8)[8..] == [];
      buffer := istream[pos];
      pos, offset := pos + 1, 0;
      assert ToBits(buffer, 8)[0..] == ToBits(buffer, 8);
    }

    /** Move bits from the byte to the number. */
    method ReadChunk(data0: nat, n0: nat, ghost before: seq<bool>) returns (data: nat, n: nat)
      requires Valid() && offset < 8 && n0 > 0 && data0 == FromBits(before)
      modifies this`offset
      ensures Begun() && n < n0 && n0 - n <= |old(Rest())| && Rest() == old(Rest())[n0 - n..]
      ensures data == FromBits(before + old(Rest())[..n0 - n])
    {
      var bits := Min(8 - offset, n0);
      ghost var b := ToBits(buffer, 8)[offset..offset + bits];
      var chunk := ChunkIn(buffer, offset, bits, 8);
      FromBound(b);
      FromConcat(before, b);
      ScaledIs(data0, Pow2(bits));
      AlignedMultiple(data0, bits);
      OrDisjoint(FromBits(b), data0 * Pow2(bits), bits);
      data := Or(data0 * Pow2(bits), chunk);
      DropConcat(ToBits(buffer, 8), BitsOf(istream[pos..]), offset, bits);
      offset := offset + bits;
      n := n0 - bits;
    }

    /** Whether the stream has no byte left: what is left to be read is part of one. */
    method Empty() returns (r: bool)
      requires Begun()
      ensures r <==> |Rest()| < 8
    {
      r := pos == |istream|;
      if !r {
        BitsOfFirst(istream[pos], istream[pos + 1..]);
        assert istream[pos..] == [istream[pos]] + istream[pos + 1..];
      }
    }
  }
}
