/**
 The rolling bloom filter (src/bloom.cpp, src/bloom.h): keys are kept in three
 generations of two-bit cells, stored as two bit planes of 64-bit words; a whole
 generation is wiped at once with bit masks.

 MurmurHash3 with its tweak is a parameter; the filter's dimensions, computed in
 floating point by the source, are parameters of the constructor.
 */
module Bloom {
  import opened Hashing
  import opened Numbers

  type Key = seq<bv8>

  // ---------------------------------------------------------------- words

  /** A 64-bit word, as the set of the positions of its one bits. */
  type Word = w: set<nat> | forall k :: k in w ==> k < 64 witness {}

  const ONES: Word := set k: nat | k < 64

  function Not(a: Word): (r: Word) {
    ONES - a
  }

  function Xor(a: Word, b: Word): (r: Word) {
    (a - b) + (b - a)
  }

  /** 0 - g for a bit g. */
  function Spread(g: bool): (r: Word) {
    if g then ONES else {}
  }

  /** g << k for a bit g. */
  function Shifted(g: bool, k: nat): (r: Word)
    requires k < 64
  {
    if g then {k} else {}
  }

  /** Write bit `k` of a word. */
  function WithBit(w: Word, k: nat, g: bool): (r: Word)
    requires k < 64
  {
    (w * Not(Shifted(true, k))) + Shifted(g, k)
  }

  /** The mask by which a word pair is wiped of the generation with bits (x, y). */
  function WipeMask(a: Word, b: Word, x: bool, y: bool): (m: Word) {
    Xor(a, Spread(x)) + Xor(b, Spread(y))
  }

  // ---------------------------------------------------------------- cells

  /** The generation number, 0 to 3, that bit `k` of a word pair holds. */
  ghost function WordGen(a: Word, b: Word, k: nat): (g: nat)
    ensures g <= 3
  {
    (if k in a then 1 else 0) + (if k in b then 2 else 0)
  }

  /** nGeneration & 1. */
  predicate LowBit(g: nat) {
    g % 2 == 1
  }

  /** nGeneration >> 1, for a generation number up to 3. */
  predicate HighBit(g: nat) {
    g / 2 == 1
  }

  /** Masking a word pair clears the cells of generation `g` and no other cell. */
  lemma {:induction false} WipeCell(a: Word, b: Word, g: nat, k: nat)
    requires k < 64 && 1 <= g <= 3
    ensures var mask := WipeMask(a, b, LowBit(g), HighBit(g));
            WordGen(a * mask, b * mask, k) == if WordGen(a, b, k) == g then 0 else WordGen(a, b, k)
  {
  }

  /** Writing bit `k` of a word pair puts generation `g` there and changes no other cell. */
  lemma {:induction false} WriteCell(a: Word, b: Word, g: nat, k: nat, j: nat)
    requires k < 64 && j < 64 && g <= 3
    ensures WordGen(WithBit(a, k, LowBit(g)), WithBit(b, k, HighBit(g)), j) == if j == k then g else WordGen(a, b, j)
  {
  }

  /** A cell: bit `k` of the `pair`-th pair of words. */
  datatype Cell = Cell(pair: nat, k: nat)

  /** The cell of one hash value: FastMod selects the word pair, the low six bits of the hash the bit. */
  function CellOf(h: nat, size: nat): (c: Cell)
    requires h < TWO_32 && size > 0 && size % 2 == 0
    ensures 2 * c.pair + 1 < size && c.k < 64
  {
    Cell(FastMod(h, size) / 2, h % 64)
  }

  // ---------------------------------------------------------------- what a filter holds

  /** The parts of a filter that stay the same from one reset to the next. */
  datatype Shape = Shape(hash: (nat, Key) -> Hash, nHash: nat, size: nat, perGen: nat) {
    predicate Ok() {
      size > 0 && size % 2 == 0 && perGen > 0
    }

    ghost predicate InRange(c: Cell) {
      2 * c.pair + 1 < size && c.k < 64
    }

    /** The `n`-th cell of a key. */
    function At(key: Key, n: nat): (c: Cell)
      requires Ok()
      ensures InRange(c)
    {
      CellOf(hash(n, key), size)
    }

    /** One of the first `m` cells of the key is `c`. */
    ghost predicate Touches(key: Key, m: nat, c: Cell)
      requires Ok()
    {
      exists n :: 0 <= n < m && At(key, n) == c
    }

    /** The generation of the last of the keys log[lo..hi] that touches `c`, 0 if none does. */
    ghost function LastGen(log: seq<Key>, lo: nat, hi: nat, c: Cell): (g: nat)
      requires Ok() && hi <= |log|
      ensures g <= 3
      decreases hi
    {
      if hi <= lo then 0
      else if Touches(log[hi - 1], nHash, c) then GenOf((hi - 1) / perGen)
      else LastGen(log, lo, hi - 1, c)
    }
  }

  /** The generation number of the `e`-th run of nEntriesPerGeneration inserts. */
  function GenOf(e: nat): (g: nat)
    ensures 1 <= g <= 3
  {
    e % 3 + 1
  }

  /** The first key that a filter in its `e`-th run still holds. */
  function Oldest(perGen: nat, e: nat): nat {
    if e < 2 then 0 else (e - 2) * perGen
  }

  lemma {:induction false} LastGenAppend(s: Shape, log: seq<Key>, key: Key, lo: nat, hi: nat, c: Cell)
    requires s.Ok() && hi <= |log|
    ensures s.LastGen(log + [key], lo, hi, c) == s.LastGen(log, lo, hi, c)
    decreases hi
  {
    if hi > lo {
      assert (log + [key])[hi - 1] == log[hi - 1];
      LastGenAppend(s, log, key, lo, hi - 1, c);
    }
  }

  /** A cell is in use exactly if one of the keys touches it. */
  lemma {:induction false} LastGenUsed(s: Shape, log: seq<Key>, lo: nat, hi: nat, c: Cell)
    requires s.Ok() && hi <= |log|
    ensures s.LastGen(log, lo, hi, c) != 0 <==> exists i :: lo <= i < hi && s.Touches(log[i], s.nHash, c)
    decreases hi
  {
    if hi > lo {
      LastGenUsed(s, log, lo, hi - 1, c);
    }
  }

  /** Of three runs in a row, the generation number of the next one is that of the first. */
  lemma {:induction false} GenRuns(e: nat, r: nat)
    requires r == e || r + 1 == e || r + 2 == e
    ensures GenOf(r) == GenOf(e + 1) <==> r + 2 == e
  {
  }

  lemma {:induction false} OldestMoves(n: nat, e: nat)
    ensures Oldest(n, e) <= Oldest(n, e + 1) <= Oldest(n, e) + n
  {
    if e >= 2 {
      Distribute(e - 2, 1, n);
    }
  }

  /** Going to run `e + 1` forgets exactly the keys of run `e - 2`, whose generation number is taken over. */
  lemma {:induction false} LastGenRoll(s: Shape, log: seq<Key>, e: nat, hi: nat, c: Cell)
    requires s.Ok() && hi <= |log| && hi <= (e + 1) * s.perGen
    ensures var was := s.LastGen(log, Oldest(s.perGen, e), hi, c);
            s.LastGen(log, Oldest(s.perGen, e + 1), hi, c) == if was == GenOf(e + 1) then 0 else was
    decreases hi
  {
    var lo, lo', n := Oldest(s.perGen, e), Oldest(s.perGen, e + 1), s.perGen;
    OldestMoves(n, e);
    if hi > lo {
      LastGenRoll(s, log, e, hi - 1, c);
      RunOf(n, e, hi - 1);
      GenRuns(e, (hi - 1) / n);
    }
  }

  /** The keys that a filter in run `e` holds come from runs `e - 2` to `e`. */
  lemma {:induction false} RunOf(n: nat, e: nat, i: nat)
    requires n > 0 && Oldest(n, e) <= i < (e + 1) * n
    ensures i < Oldest(n, e + 1) <==> (e >= 2 && i / n == e - 2)
    ensures i / n == e || (e >= 1 && i / n == e - 1) || (e >= 2 && i / n == e - 2)
  {
    assert (e + 1) * n == e * n + n;
    if i >= e * n {
      QuotientIn(i, n, e);
    } else {
      assert e * n == (e - 1) * n + n;
      if i >= (e - 1) * n {
        QuotientIn(i, n, e - 1);
      } else {
        assert (e - 1) * n == (e - 2) * n + n;
        QuotientIn(i, n, e - 2);
      }
    }
  }

  lemma {:induction false} NextRun(n: nat, e: nat)
    ensures (e + 1) * n == e * n + n
    ensures GenOf(e + 1) == if GenOf(e) == 3 then 1 else GenOf(e) + 1
  {
  }

  lemma {:induction false} WindowStart(n: nat, e: nat, t: nat, len: nat)
    requires n > 0 && len == e * n + t
    ensures Oldest(n, e) == if len <= 2 * n + t then 0 else len - (2 * n + t)
  {
    if e >= 2 {
      assert (e - 2) * n == e * n - 2 * n;
    }
  }

  lemma {:induction false} OldestBelow(n: nat, e: nat, len: nat)
    requires e * n <= len
    ensures Oldest(n, e) <= len
  {
    assert e >= 2 ==> (e - 2) * n == e * n - 2 * n;
  }

  // ---------------------------------------------------------------- filter states

  ghost function GenAt(d: seq<Word>, c: Cell): (g: nat)
    requires 2 * c.pair + 1 < |d|
  {
    WordGen(d[2 * c.pair], d[2 * c.pair + 1], c.k)
  }

  /** The cell holds the generation of the last of log[lo..] that touches it, where a key
      whose first `m` cells are written already counts as one of generation `g`. */
  ghost predicate CellRight(s: Shape, d: seq<Word>, log: seq<Key>, lo: nat, key: Key, m: nat, g: nat, c: Cell)
    requires s.Ok() && |d| == s.size
  {
    s.InRange(c) ==> GenAt(d, c) == if s.Touches(key, m, c) then g else s.LastGen(log, lo, |log|, c)
  }

  ghost predicate Right(s: Shape, d: seq<Word>, log: seq<Key>, lo: nat, key: Key, m: nat, g: nat)
    requires s.Ok() && |d| == s.size
  {
    forall c {:trigger CellRight(s, d, log, lo, key, m, g, c)} :: CellRight(s, d, log, lo, key, m, g, c)
  }

  /** The words are exactly what the keys log[lo..] leave. */
  ghost predicate Represents(s: Shape, d: seq<Word>, log: seq<Key>, lo: nat)
    requires s.Ok() && |d| == s.size
  {
    Right(s, d, log, lo, [], 0, 0)
  }

  lemma {:induction false} CellsAt(s: Shape, d: seq<Word>, log: seq<Key>, lo: nat, c: Cell)
    requires s.Ok() && |d| == s.size && Represents(s, d, log, lo) && s.InRange(c)
    ensures GenAt(d, c) == s.LastGen(log, lo, |log|, c)
  {
    assert CellRight(s, d, log, lo, [], 0, 0, c);
  }

  /** Starting with a key, none of whose cells are written yet. */
  lemma {:induction false} StartKey(s: Shape, d: seq<Word>, log: seq<Key>, lo: nat, key: Key, g: nat)
    requires s.Ok() && |d| == s.size && Represents(s, d, log, lo)
    ensures Right(s, d, log, lo, key, 0, g)
  {
    forall c ensures CellRight(s, d, log, lo, key, 0, g, c) {
      assert CellRight(s, d, log, lo, [], 0, 0, c);
    }
  }

  ghost predicate Written(d: seq<Word>, d': seq<Word>, c: Cell, g: nat)
    requires |d'| == |d| && 2 * c.pair + 1 < |d| && c.k < 64
  {
    var p := 2 * c.pair;
    d' == d[p := WithBit(d[p], c.k, LowBit(g))][p + 1 := WithBit(d[p + 1], c.k, HighBit(g))]
  }

  lemma {:induction false} WriteOne(s: Shape, d: seq<Word>, d': seq<Word>, log: seq<Key>, lo: nat, key: Key, m: nat,
                                    g: nat)
    requires s.Ok() && |d| == |d'| == s.size && 1 <= g <= 3
    requires Right(s, d, log, lo, key, m, g) && Written(d, d', s.At(key, m), g)
    ensures Right(s, d', log, lo, key, m + 1, g)
  {
    var w, m' := s.At(key, m), m + 1;
    forall c ensures CellRight(s, d', log, lo, key, m', g, c) {
      assert CellRight(s, d, log, lo, key, m, g, c);
      if s.InRange(c) {
        WriteCell(d[2 * w.pair], d[2 * w.pair + 1], g, w.k, c.k);
        assert s.Touches(key, m + 1, c) <==> s.Touches(key, m, c) || w == c;
      }
    }
  }

  /** Once all its cells are written the key is the newest of the log. */
  lemma {:induction false} FinishKey(s: Shape, d: seq<Word>, log: seq<Key>, lo: nat, key: Key, g: nat)
    requires s.Ok() && |d| == s.size && Right(s, d, log, lo, key, s.nHash, g)
    requires lo <= |log| && g == GenOf(|log| / s.perGen)
    ensures Represents(s, d, log + [key], lo)
  {
    forall c ensures CellRight(s, d, log + [key], lo, [], 0, 0, c) {
      assert CellRight(s, d, log, lo, key, s.nHash, g, c);
      LastGenAppend(s, log, key, lo, |log|, c);
    }
  }

  ghost predicate PairWiped(d: seq<Word>, d': seq<Word>, g: nat, j: nat)
    requires |d'| == |d| && 2 * j + 1 < |d|
  {
    var mask := WipeMask(d[2 * j], d[2 * j + 1], LowBit(g), HighBit(g));
    d'[2 * j] == d[2 * j] * mask && d'[2 * j + 1] == d[2 * j + 1] * mask
  }

  /** Wiping the generation number of the new run leaves exactly the keys of the last two runs. */
  lemma {:induction false} WipeIsRoll(s: Shape, d: seq<Word>, d': seq<Word>, log: seq<Key>, e: nat)
    requires s.Ok() && |d| == |d'| == s.size && |log| == (e + 1) * s.perGen
    requires Represents(s, d, log, Oldest(s.perGen, e))
    requires forall j {:trigger PairWiped(d, d', GenOf(e + 1), j)} ::
               0 <= j && 2 * j + 1 < |d| ==> PairWiped(d, d', GenOf(e + 1), j)
    ensures Represents(s, d', log, Oldest(s.perGen, e + 1))
  {
    var lo' := Oldest(s.perGen, e + 1);
    forall c ensures CellRight(s, d', log, lo', [], 0, 0, c) {
      assert CellRight(s, d, log, Oldest(s.perGen, e), [], 0, 0, c);
      if s.InRange(c) {
        assert PairWiped(d, d', GenOf(e + 1), c.pair);
        WipeCell(d[2 * c.pair], d[2 * c.pair + 1], GenOf(e + 1), c.k);
        LastGenRoll(s, log, e, |log|, c);
      }
    }
  }

  lemma {:induction false} EmptyRepresents(s: Shape, d: seq<Word>)
    requires s.Ok() && |d| == s.size && forall i :: 0 <= i < |d| ==> d[i] == {}
    ensures Represents(s, d, [], 0)
  {
    forall c ensures CellRight(s, d, [], 0, [], 0, 0, c) {
    }
  }

  // ---------------------------------------------------------------- the filter

  class RollingBloomFilter {
    const nHashFuncs: nat
    const nEntriesPerGeneration: nat
    const data: array<Word>
    const murmur: (nat, Key) -> Hash
    var nTweak: nat
    var nEntriesThisGeneration: nat
    var nGeneration: nat

    /** The keys inserted since the last reset, and the number of completed runs. */
    ghost var log: seq<Key>
    ghost var epoch: nat

    /** RollingBloomHash for every hash number, and the fixed sizes. */
    function TheShape(): (s: Shape)
      reads this
    {
      var tweak, hash := nTweak, murmur;
      Shape((n: nat, key: Key) => hash((n * 0xFBA4C795 + tweak) % TWO_32, key), nHashFuncs, data.Length,
            nEntriesPerGeneration)
    }

    /** How many of the last inserted keys the filter holds. */
    ghost function Window(): nat
      reads this
    {
      2 * nEntriesPerGeneration + nEntriesThisGeneration
    }

    ghost predicate Valid()
      reads this, data
    {
      && TheShape().Ok()
      && nEntriesThisGeneration <= nEntriesPerGeneration
      && |log| == epoch * nEntriesPerGeneration + nEntriesThisGeneration
      && nGeneration == GenOf(epoch)
      && Represents(TheShape(), data[..], log, Oldest(nEntriesPerGeneration, epoch))
    }

    /** Every cell of `key` is also a cell of one of the last `Window()` keys inserted. */
    ghost predicate Covered(key: Key)
      requires TheShape().Ok()
      reads this
    {
      forall n {:trigger Hit(key, n)} :: 0 <= n < nHashFuncs ==> Hit(key, n)
    }

    ghost predicate Hit(key: Key, n: nat)
      requires TheShape().Ok()
      reads this
    {
      var s := TheShape();
      exists i :: 0 <= i < |log| && |log| - Window() <= i && s.Touches(log[i], nHashFuncs, s.At(key, n))
    }

    /** The dimensions come from the expected number of elements and the false positive rate. */
    constructor (nHashFuncs: nat, nElements: nat, words: nat, murmur: (nat, Key) -> Hash, tweak: nat)
      requires nElements > 0 && words > 0
      ensures Valid() && fresh(data) && log == []
      ensures nEntriesPerGeneration == (nElements + 1) / 2
    {
      this.nHashFuncs := nHashFuncs;
      nEntriesPerGeneration := (nElements + 1) / 2;
      data := new Word[2 * words](_ => {});
      this.murmur := murmur;
      nTweak, nEntriesThisGeneration, nGeneration := tweak, 0, 1;
      log, epoch := [], 0;
      new;
      EmptyRepresents(TheShape(), data[..]);
    }

    method Reset(tweak: nat)
      requires Valid()
      modifies this, data
      ensures Valid() && log == [] && nTweak == tweak
    {
      nTweak, nEntriesThisGeneration, nGeneration := tweak, 0, 1;
      log, epoch := [], 0;
      forall i | 0 <= i < data.Length {
        data[i] := {};
      }
      EmptyRepresents(TheShape(), data[..]);
    }

    method Wipe(g: nat)
      requires TheShape().Ok()
      modifies data
      ensures forall j {:trigger PairWiped(old(data[..]), data[..], g, j)} ::
                0 <= j && 2 * j + 1 < data.Length ==> PairWiped(old(data[..]), data[..], g, j)
    {
      ghost var d := data[..];
      var p := 0;
      while p < data.Length
        invariant 0 <= p <= data.Length && p % 2 == 0
        invariant data[p..] == d[p..]
        invariant forall j {:trigger PairWiped(d, data[..], g, j)} :: 0 <= j && 2 * j + 1 < p ==>
                    PairWiped(d, data[..], g, j)
      {
        ghost var d1 := data[..];
        var p1, p2 := data[p], data[p + 1];
        var mask := WipeMask(p1, p2, LowBit(g), HighBit(g));
        data[p] := p1 * mask;
        data[p + 1] := p2 * mask;
        forall j | 0 <= j && 2 * j + 1 < p + 2 ensures PairWiped(d, data[..], g, j) {
          assert 2 * j + 1 < p ==> PairWiped(d, d1, g, j);
          assert j == p / 2 ==> d[p] == p1 && d[p + 1] == p2;
        }
        p := p + 2;
      }
    }

    method WriteKey(key: Key)
      requires Valid() && |log| / nEntriesPerGeneration == epoch
      modifies data
      ensures Represents(TheShape(), data[..], log + [key], Oldest(nEntriesPerGeneration, epoch))
    {
      ghost var s, lo := TheShape(), Oldest(nEntriesPerGeneration, epoch);
      StartKey(s, data[..], log, lo, key, nGeneration);
      for n := 0 to nHashFuncs
        invariant Right(s, data[..], log, lo, key, n, nGeneration)
      {
        ghost var d := data[..];
        var c := TheShape().At(key, n);
        var p := 2 * c.pair;
        data[p] := WithBit(data[p], c.k, LowBit(nGeneration));
        data[p + 1] := WithBit(data[p + 1], c.k, HighBit(nGeneration));
        assert Written(d, data[..], c, nGeneration);
        WriteOne(s, d, data[..], log, lo, key, n, nGeneration);
      }
      OldestBelow(nEntriesPerGeneration, epoch, |log|);
      FinishKey(s, data[..], log, lo, key, nGeneration);
    }

    /** Take up the next generation number, and forget the keys that had it. */
    method Roll()
      requires Valid() && nEntriesThisGeneration == nEntriesPerGeneration
      modifies this`nEntriesThisGeneration, this`nGeneration, this`epoch, data
      ensures Valid() && nEntriesThisGeneration == 0
    {
      ghost var s, d := TheShape(), data[..];
      var g := if nGeneration + 1 == 4 then 1 else nGeneration + 1;
      NextRun(nEntriesPerGeneration, epoch);
      Wipe(g);
      WipeIsRoll(s, d, data[..], log, epoch);
      nGeneration, nEntriesThisGeneration, epoch := g, 0, epoch + 1;
    }

    method Insert(key: Key)
      requires Valid()
      modifies this, data
      ensures Valid() && log == old(log) + [key] && nTweak == old(nTweak)
    {
      if nEntriesThisGeneration == nEntriesPerGeneration {
        Roll();
      }
      NextRun(nEntriesPerGeneration, epoch);
      QuotientIn(|log|, nEntriesPerGeneration, epoch);
      WriteKey(key);
      nEntriesThisGeneration, log := nEntriesThisGeneration + 1, log + [key];
    }

    method Contains(key: Key) returns (r: bool)
      requires Valid()
      ensures r <==> Covered(key)
      ensures forall i :: 0 <= i < |log| && |log| - Window() <= i && log[i] == key ==> r
    {
      for n := 0 to nHashFuncs
        invariant forall m {:trigger Hit(key, m)} :: 0 <= m < n ==> Hit(key, m)
      {
        var c := TheShape().At(key, n);
        HitIsUsed(key, n);
        if c.k !in data[2 * c.pair] + data[2 * c.pair + 1] {
          SelfCovered(key);
          return false;
        }
      }
      return true;
    }

    lemma {:induction false} HitIsUsed(key: Key, n: nat)
      requires Valid()
      ensures Hit(key, n) <==> GenAt(data[..], TheShape().At(key, n)) != 0
    {
      var s, lo := TheShape(), Oldest(nEntriesPerGeneration, epoch);
      var c := s.At(key, n);
      CellsAt(s, data[..], log, lo, c);
      LastGenUsed(s, log, lo, |log|, c);
      WindowStart(nEntriesPerGeneration, epoch, nEntriesThisGeneration, |log|);
    }

    /** A key inserted within the window is covered, by itself. */
    lemma {:induction false} SelfCovered(key: Key)
      requires TheShape().Ok()
      ensures (exists i :: 0 <= i < |log| && |log| - Window() <= i && log[i] == key) ==> Covered(key)
    {
    }
  }
}
