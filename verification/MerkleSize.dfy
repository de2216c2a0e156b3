/**
 The size of a serialized partial Merkle tree (src/merkleblock.h), known from the number of
 transactions and which of them are matched.
 */
module MerkleSize {
  import opened MerkleBlock
  import opened Numbers

  /** The bytes of the number in front of a list. */
  function CompactSize(n: nat): (c: nat) {
    if n < 253 then 1 else if n <= 0xffff then 3 else if n <= 0xffff_ffff then 5 else 9
  }

  function SerializedSize(e: Encoding): (c: nat) {
    var bytes := (|e.bits| + 7) / 8;
    4 + CompactSize(|e.hashes|) + 32 * |e.hashes| + CompactSize(bytes) + bytes
  }

  /** 10 + ceil(32.25 * n). */
  function Guarantee(n: nat): (c: nat) {
    10 + 32 * n + (n + 3) / 4
  }

  // ---------------------------------------------------------------- what is stored, by the matched transactions

  ghost predicate MatchIn(mask: seq<bool>, lo: nat, hi: nat) {
    exists p :: lo <= p < hi && p < |mask| && mask[p]
  }

  lemma {:induction false} AnyMatchIs(mask: seq<bool>, n: nat, height: nat, pos: nat)
    requires |mask| == n && pos < Width(n, height)
    ensures AnyMatch(mask, Shape(n, height, pos)) <==> MatchIn(mask, First(height, pos), End(n, height, pos))
  {
    var lo, hi := First(height, pos), End(n, height, pos);
    ShapeLeaves(n, height, pos);
    FilterIsExact(mask, lo, hi);
    var found := Filter(mask, Range(lo, hi));
    if found != [] {
      assert found[0] in found;
    }
  }

  /** The nodes that are stored: those without a match below, and the matched transactions. */
  ghost function HashCount(mask: seq<bool>, n: nat, height: nat, pos: nat): (c: nat)
    requires pos < Width(n, height)
  {
    if height == 0 || !MatchIn(mask, First(height, pos), End(n, height, pos)) then 1 else
    LeftChild(n, height, pos);
    HashCount(mask, n, height - 1, pos * 2)
    + if pos * 2 + 1 < Width(n, height - 1) then HashCount(mask, n, height - 1, pos * 2 + 1) else 0
  }

  lemma {:induction false} HashCountIs(h: PairHash, txids: seq<Hash>, mask: seq<bool>, n: nat, height: nat, pos: nat)
    requires |mask| == n && pos < Width(n, height)
    ensures |Encode(h, txids, mask, Shape(n, height, pos)).hashes| == HashCount(mask, n, height, pos)
    decreases height
  {
    AnyMatchIs(mask, n, height, pos);
    if height > 0 {
      LeftChild(n, height, pos);
      HashCountIs(h, txids, mask, n, height - 1, pos * 2);
      if pos * 2 + 1 < Width(n, height - 1) {
        HashCountIs(h, txids, mask, n, height - 1, pos * 2 + 1);
      }
    }
  }

  /** The last node at a height is alone below its parent, and has a match below it. */
  ghost predicate AloneAt(mask: seq<bool>, n: nat, height: nat)
    requires Width(n, height) > 0
  {
    Width(n, height) % 2 == 1 && MatchIn(mask, First(height, Width(n, height) - 1), n)
  }

  lemma {:induction false} SomeWidth(n: nat, height: nat)
    requires n > 0
    ensures Width(n, height) > 0
  {
    FirstZero(height);
    WidthIff(n, height, 0);
  }

  /** The heights below `height` with such a node. */
  ghost function AloneBelow(mask: seq<bool>, n: nat, height: nat): (c: nat)
    requires n > 0
  {
    if height == 0 then 0 else
    SomeWidth(n, height - 1);
    AloneBelow(mask, n, height - 1) + if AloneAt(mask, n, height - 1) then 1 else 0
  }

  /** One-child nodes are at the right edge only. */
  lemma {:induction false} InnerHasNone(mask: seq<bool>, n: nat, height: nat, pos: nat)
    requires pos + 1 < Width(n, height)
    ensures OnesAboveMatch(mask, Shape(n, height, pos)) == 0
    decreases height
  {
    if height > 0 {
      LeftChild(n, height, pos + 1);
      InnerHasNone(mask, n, height - 1, pos * 2);
      InnerHasNone(mask, n, height - 1, pos * 2 + 1);
    }
  }

  lemma {:induction false} LastEnds(n: nat, height: nat, pos: nat)
    requires n > 0 && pos + 1 == Width(n, height)
    ensures End(n, height, pos) == n
  {
    WidthIff(n, height, pos + 1);
  }

  /** The one-child nodes above a match, counted by the heights and the last match. */
  lemma {:induction false} EdgeHas(mask: seq<bool>, n: nat, height: nat, pos: nat)
    requires |mask| == n > 0 && pos + 1 == Width(n, height)
    ensures OnesAboveMatch(mask, Shape(n, height, pos)) == AloneBelow(mask, n, height)
    decreases height
  {
    if height > 0 {
      var w := Width(n, height - 1);
      LeftChild(n, height, pos);
      if pos * 2 + 1 < w {
        InnerHasNone(mask, n, height - 1, pos * 2);
        EdgeHas(mask, n, height - 1, pos * 2 + 1);
      } else {
        EdgeHas(mask, n, height - 1, pos * 2);
        AnyMatchIs(mask, n, height - 1, pos * 2);
        LastEnds(n, height - 1, pos * 2);
        if !AnyMatch(mask, Shape(n, height - 1, pos * 2)) {
          NoMatchNoOnes(mask, Shape(n, height - 1, pos * 2));
        }
      }
    }
  }

  // ---------------------------------------------------------------- the documented guarantee

  /** How many one-child nodes above a match the guarantee allows with `n` hashes. */
  function Spare(n: nat): (c: int) {
    var pad := 8 * ((n + 3) / 4) - 2 * n;
    if n < 253 then 33 + pad else
    if n <= 1000 then 17 + pad else
    if n <= 1008 then 2017 - 2 * n else 1 + pad
  }

  lemma {:induction false} SpareIs(n: nat, extra: nat, bytes: nat)
    requires n > 0 && bytes == (2 * n + 6 + extra) / 8
    ensures CompactSize(n) + CompactSize(bytes) + bytes <= 6 + (n + 3) / 4 <==> n <= 0xffff && extra <= Spare(n)
  {
    var c := (n + 3) / 4;
    assert 8 * bytes <= 2 * n + 6 + extra < 8 * bytes + 8;
    if n < 253 {
      assert bytes <= 4 + c <==> extra <= Spare(n);
    } else if n <= 1000 {
      assert bytes <= 2 + c <==> extra <= Spare(n);
    } else if n <= 1008 {
      assert bytes <= 252 <==> extra <= Spare(n);
    } else if n <= 0xffff {
      assert bytes <= c <==> extra <= Spare(n);
    } else {
      assert bytes >= c;
    }
  }

  /**
   The documented guarantee for the size of what is built of `n` transactions, exactly: it holds if and
   only if at most 65535 hashes are stored and no more one-child nodes are above a match than they
   leave room for.
   */
  lemma {:induction false} SizeIff(h: PairHash, txids: seq<Hash>, mask: seq<bool>, n: nat)
    requires |mask| == n > 0
    ensures var e, height := Encode(h, txids, mask, WholeTree(n)), TreeHeight(n);
            var count := HashCount(mask, n, height, 0);
            && |e.hashes| == count
            && (SerializedSize(e) <= Guarantee(|e.hashes|) <==>
                  count <= 0xffff && AloneBelow(mask, n, height) <= Spare(count))
  {
    var t, height := WholeTree(n), TreeHeight(n);
    var e := Encode(h, txids, mask, t);
    HashCountIs(h, txids, mask, n, height, 0);
    EdgeHas(mask, n, height, 0);
    BitCount(h, txids, mask, t);
    SpareIs(|e.hashes|, OnesAboveMatch(mask, t), (|e.bits| + 7) / 8);
  }

  /** With all transactions matched only their number counts. */
  lemma {:induction false} SizeOfAllIff(h: PairHash, txids: seq<Hash>, n: nat)
    requires n > 0
    ensures var e := Encode(h, txids, seq(n, _ => true), WholeTree(n));
            && |e.hashes| == n
            && (SerializedSize(e) <= Guarantee(n) <==> n <= 0xffff && OddBelow(n, TreeHeight(n)) <= Spare(n))
  {
    var mask := seq(n, _ => true);
    SizeIff(h, txids, mask, n);
    WholeTreeLeaves(n);
    AllMatchedSize(h, txids, mask, WholeTree(n));
    AllAlone(mask, n, TreeHeight(n));
  }

  /** The heights below `height` with an odd number of nodes. */
  function OddBelow(n: nat, height: nat): (c: nat) {
    if height == 0 then 0 else OddBelow(n, height - 1) + Width(n, height - 1) % 2
  }

  lemma {:induction false} AllAlone(mask: seq<bool>, n: nat, height: nat)
    requires n > 0 && mask == seq(n, _ => true)
    ensures AloneBelow(mask, n, height) == OddBelow(n, height)
  {
    if height > 0 {
      AllAlone(mask, n, height - 1);
      SomeWidth(n, height - 1);
      var lo := First(height - 1, Width(n, height - 1) - 1);
      WidthIff(n, height - 1, Width(n, height - 1) - 1);
      assert mask[lo] && MatchIn(mask, lo, n);
    }
  }

  ghost predicate AllMatched(mask: seq<bool>, t: Tree) {
    forall p :: p in Leaves(t) ==> p < |mask| && mask[p]
  }

  function OnesIn(t: Tree): (c: nat) {
    match t
    case Leaf(_) => 0
    case One(c) => 1 + OnesIn(c)
    case Two(l, r) => OnesIn(l) + OnesIn(r)
  }

  /** With every transaction matched all leaves are stored, and every one-child node counts. */
  lemma {:induction false} AllMatchedSize(h: PairHash, txids: seq<Hash>, mask: seq<bool>, t: Tree)
    requires AllMatched(mask, t)
    ensures AnyMatch(mask, t) && OnesAboveMatch(mask, t) == OnesIn(t)
    ensures |Encode(h, txids, mask, t).hashes| == |Leaves(t)|
  {
    assert Leaves(t)[0] in Leaves(t);
    match t
    case Leaf(_) =>
    case One(c) =>
      AllMatchedSize(h, txids, mask, c);
    case Two(l, r) =>
      AllMatchedSize(h, txids, mask, l);
      AllMatchedSize(h, txids, mask, r);
  }

  lemma {:induction false} WidthNearPower(k: nat, j: nat)
    requires j <= k
    ensures Width(Pow2(k) + 1, j) == Pow2(k - j) + 1
  {
    if j > 0 {
      WidthNearPower(k, j - 1);
    }
  }

  lemma {:induction false} FullNode(k: nat, j: nat, p: nat)
    requires j <= k && p < Pow2(k - j)
    ensures p < Width(Pow2(k) + 1, j) && OnesIn(Shape(Pow2(k) + 1, j, p)) == 0
  {
    WidthNearPower(k, j);
    if j > 0 {
      WidthNearPower(k, j - 1);
      FullNode(k, j - 1, 2 * p);
      FullNode(k, j - 1, 2 * p + 1);
    }
  }

  lemma {:induction false} LastNode(k: nat, j: nat)
    requires j <= k
    ensures Pow2(k - j) < Width(Pow2(k) + 1, j) && OnesIn(Shape(Pow2(k) + 1, j, Pow2(k - j))) == j
  {
    WidthNearPower(k, j);
    if j > 0 {
      WidthNearPower(k, j - 1);
      LastNode(k, j - 1);
    }
  }

  lemma {:induction false} HeightNearPower(k: nat, j: nat)
    requires j <= k + 1
    ensures TreeHeightFrom(Pow2(k) + 1, j) == k + 1
    decreases k + 1 - j
  {
    WidthNearPower(k, k);
    if j <= k {
      WidthNearPower(k, j);
      HeightNearPower(k, j + 1);
    }
  }

  /** One transaction more than a power of two: the last one is below a one-child node at every height but the top. */
  lemma {:induction false} OnesNearPower(k: nat)
    ensures OnesIn(WholeTree(Pow2(k) + 1)) == k
  {
    var n := Pow2(k) + 1;
    HeightNearPower(k, 0);
    WidthNearPower(k, k);
    FullNode(k, k, 0);
    LastNode(k, k);
    assert WholeTree(n) == Two(Shape(n, k, 0), Shape(n, k, 1));
  }

  lemma {:induction false} AllNearPower(h: PairHash, txids: seq<Hash>, k: nat, n: nat)
    requires n == Pow2(k) + 1
    ensures var e := Encode(h, txids, seq(n, _ => true), WholeTree(n)); |e.hashes| == n && |e.bits| == 2 * n - 1 + k
  {
    var mask, t := seq(n, _ => true), WholeTree(n);
    OnesNearPower(k);
    WholeTreeLeaves(n);
    AllMatchedSize(h, txids, mask, t);
    BitCount(h, txids, mask, t);
  }

  /** 1025 transactions, all matched: 2059 flag bits in 258 bytes, and one byte more than the guarantee. */
  lemma {:induction false} SizeGuaranteeFails(h: PairHash, txids: seq<Hash>, n: nat)
    requires n == 1025
    ensures var e := Encode(h, txids, seq(n, _ => true), WholeTree(n));
            && |e.hashes| == n && |e.bits| == 2059 && SerializedSize(e) == 33068 && Guarantee(n) == 33067
  {
    assert Pow2(4) == 16 && Pow2(6) == 64;
    Pow2Add(4, 6);
    AllNearPower(h, txids, 10, n);
  }
}
