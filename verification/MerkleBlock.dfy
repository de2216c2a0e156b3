/**
 Partial Merkle trees (src/merkleblock.cpp, src/merkleblock.h; BIP 37, sections
 "Partial Merkle branch format" and "Parsing a partial merkle tree object").

 The double-SHA256 pair hash is a parameter.  Where its collision resistance
 matters, the premise names exactly the pairs it is needed for.
 */
module MerkleBlock {
  import opened Collections
  import opened Numbers

  type Hash = nat
  const NULL_HASH: Hash := 0
  type PairHash = (Hash, Hash) -> Hash

  const MAX_BLOCK_WEIGHT := 4000000
  const MIN_TRANSACTION_WEIGHT := 240

  // ---------------------------------------------------------------- shape of the tree

  /** The number of nodes at a height, by halving from the leaves up. */
  function Width(n: nat, height: nat): (w: nat) {
    if height == 0 then n else (Width(n, height - 1) + 1) / 2
  }

  lemma {:induction false} LeftChild(n: nat, height: nat, pos: nat)
    requires height > 0 && pos < Width(n, height)
    ensures pos * 2 < Width(n, height - 1)
  {
  }

  /** The position of the first leaf below a node. */
  function First(height: nat, pos: nat): (p: nat)
    decreases height
  {
    if height == 0 then pos else First(height - 1, pos * 2)
  }

  /** The end of the leaves below a node. */
  function End(n: nat, height: nat, pos: nat): (p: nat) {
    if First(height, pos + 1) < n then First(height, pos + 1) else n
  }

  lemma {:induction false} FirstIs(height: nat, pos: nat)
    ensures First(height, pos) == pos * Pow2(height)
    decreases height
  {
    if height > 0 {
      FirstIs(height - 1, pos * 2);
      Assoc(pos, 2, Pow2(height - 1));
    }
  }

  lemma {:induction false} FirstAscends(height: nat, a: nat, b: nat)
    requires a < b
    ensures First(height, a) < First(height, b)
    decreases height
  {
    if height > 0 {
      FirstAscends(height - 1, a * 2, b * 2);
    }
  }

  /** A position exists at a height exactly when its first leaf does. */
  lemma {:induction false} WidthIff(n: nat, height: nat, pos: nat)
    ensures pos < Width(n, height) <==> First(height, pos) < n
    decreases height
  {
    if height > 0 {
      WidthIff(n, height - 1, pos * 2);
    }
  }

  lemma {:induction false} DivLess(a: int, b: int, p: int)
    requires b > 0
    ensures p < a / b <==> (p + 1) * b <= a
  {
    var q := a / b;
    Distribute(q, 1, b);
    if p < q {
      MulMono(p + 1, q, b);
    } else {
      MulMono(q + 1, p + 1, b);
    }
  }

  /** The width formula: dividing by 2^height, rounding up, is halving and rounding up height times. */
  lemma {:induction false} WidthFormula(n: nat, height: nat)
    ensures (n + Pow2(height) - 1) / Pow2(height) == Width(n, height)
  {
    var w := Width(n, height);
    FormulaIff(n, height, w);
    WidthIff(n, height, w);
    if w > 0 {
      FormulaIff(n, height, w - 1);
      WidthIff(n, height, w - 1);
    } else {
      FormulaIff(n, height, -1);
    }
  }

  lemma {:induction false} FormulaIff(n: nat, height: nat, p: int)
    requires p >= -1
    ensures p >= 0 ==> (p < (n + Pow2(height) - 1) / Pow2(height) <==> First(height, p) < n)
    ensures p == -1 ==> p < (n + Pow2(height) - 1) / Pow2(height)
  {
    DivLess(n + Pow2(height) - 1, Pow2(height), p);
    Distribute(p, 1, Pow2(height));
    if p >= 0 {
      FirstIs(height, p);
    }
  }

  lemma {:induction false} ChildLeaves(n: nat, height: nat, pos: nat)
    requires height > 0 && pos < Width(n, height)
    ensures pos * 2 < Width(n, height - 1)
    ensures First(height - 1, pos * 2) == First(height, pos) < n
    ensures pos * 2 + 1 < Width(n, height - 1) ==>
              && End(n, height - 1, pos * 2) == First(height - 1, pos * 2 + 1)
              && End(n, height - 1, pos * 2 + 1) == End(n, height, pos)
    ensures pos * 2 + 1 >= Width(n, height - 1) ==> End(n, height - 1, pos * 2) == End(n, height, pos)
    ensures First(height, pos) < End(n, height - 1, pos * 2) <= End(n, height, pos) <= n
  {
    WidthIff(n, height, pos);
    WidthIff(n, height - 1, pos * 2 + 1);
    FirstAscends(height - 1, pos * 2, pos * 2 + 1);
    FirstAscends(height - 1, pos * 2 + 1, pos * 2 + 2);
  }

  /** The part of the tree below a node; a node at the right edge may have one child. */
  datatype Tree = Leaf(pos: nat) | One(child: Tree) | Two(left: Tree, right: Tree)

  function Shape(n: nat, height: nat, pos: nat): Tree
    requires pos < Width(n, height)
  {
    if height == 0 then Leaf(pos) else
    if pos * 2 + 1 < Width(n, height - 1)
    then Two(Shape(n, height - 1, pos * 2), Shape(n, height - 1, pos * 2 + 1))
    else One(Shape(n, height - 1, pos * 2))
  }

  function Leaves(t: Tree): (r: seq<nat>)
    ensures r != []
  {
    match t
    case Leaf(p) => [p]
    case One(c) => Leaves(c)
    case Two(l, r) => Leaves(l) + Leaves(r)
  }

  function Range(lo: nat, hi: nat): seq<nat>
    requires lo <= hi
  {
    seq(hi - lo, i => lo + i)
  }

  /** The leaves below a node are the positions (pos << height) up to ((pos + 1) << height), cut off at n. */
  lemma {:induction false} ShapeLeaves(n: nat, height: nat, pos: nat)
    requires pos < Width(n, height)
    ensures First(height, pos) < End(n, height, pos) <= n
    ensures Leaves(Shape(n, height, pos)) == Range(First(height, pos), End(n, height, pos))
  {
    WidthIff(n, height, pos);
    FirstAscends(height, pos, pos + 1);
    if height > 0 {
      ChildLeaves(n, height, pos);
      ShapeLeaves(n, height - 1, pos * 2);
      if pos * 2 + 1 < Width(n, height - 1) {
        ShapeLeaves(n, height - 1, pos * 2 + 1);
      }
    }
  }

  // ---------------------------------------------------------------- hashes

  function CalcHash(h: PairHash, txids: seq<Hash>, height: nat, pos: nat): Hash
    requires pos < Width(|txids|, height)
  {
    if height == 0 then
      WidthIff(|txids|, 0, pos);
      txids[pos]
    else
      var left := CalcHash(h, txids, height - 1, pos * 2);
      var right := if pos * 2 + 1 < Width(|txids|, height - 1)
                   then CalcHash(h, txids, height - 1, pos * 2 + 1) else left;
      h(left, right)
  }

  function TxAt(txids: seq<Hash>, p: nat): Hash {
    if p < |txids| then txids[p] else NULL_HASH
  }

  function Root(h: PairHash, txids: seq<Hash>, t: Tree): Hash {
    match t
    case Leaf(p) => TxAt(txids, p)
    case One(c) => var x := Root(h, txids, c); h(x, x)
    case Two(l, r) => h(Root(h, txids, l), Root(h, txids, r))
  }

  lemma {:induction false} CalcHashIsRoot(h: PairHash, txids: seq<Hash>, height: nat, pos: nat)
    requires pos < Width(|txids|, height)
    ensures CalcHash(h, txids, height, pos) == Root(h, txids, Shape(|txids|, height, pos))
  {
    if height == 0 {
      WidthIff(|txids|, 0, pos);
    } else {
      CalcHashIsRoot(h, txids, height - 1, pos * 2);
      if pos * 2 + 1 < Width(|txids|, height - 1) {
        CalcHashIsRoot(h, txids, height - 1, pos * 2 + 1);
      }
    }
  }

  /** The pairs hashed to compute a node. */
  ghost function TreePairs(h: PairHash, txids: seq<Hash>, t: Tree): set<(Hash, Hash)> {
    match t
    case Leaf(_) => {}
    case One(c) => {(Root(h, txids, c), Root(h, txids, c))} + TreePairs(h, txids, c)
    case Two(l, r) => {(Root(h, txids, l), Root(h, txids, r))} + TreePairs(h, txids, l) + TreePairs(h, txids, r)
  }

  ghost predicate NoCollision(h: PairHash, a: set<(Hash, Hash)>, b: set<(Hash, Hash)>) {
    forall p, q :: p in a && q in b && h(p.0, p.1) == h(q.0, q.1) ==> p == q
  }

  // ---------------------------------------------------------------- what is stored for a subtree, and how it is read

  function Filter(mask: seq<bool>, s: seq<nat>): seq<nat> {
    if s == [] then [] else
    (if s[0] < |mask| && mask[s[0]] then [s[0]] else []) + Filter(mask, s[1..])
  }

  lemma {:induction false} FilterAppend(mask: seq<bool>, a: seq<nat>, b: seq<nat>)
    ensures Filter(mask, a + b) == Filter(mask, a) + Filter(mask, b)
  {
    if a == [] {
      assert a + b == b;
    } else {
      assert (a + b)[1..] == a[1..] + b;
      FilterAppend(mask, a[1..], b);
    }
  }

  predicate AnyMatch(mask: seq<bool>, t: Tree) {
    Filter(mask, Leaves(t)) != []
  }

  datatype Encoding = Encoding(bits: seq<bool>, hashes: seq<Hash>)

  function Encode(h: PairHash, txids: seq<Hash>, mask: seq<bool>, t: Tree): (e: Encoding)
    ensures |e.bits| >= |e.hashes| >= 1
  {
    if t.Leaf? || !AnyMatch(mask, t) then Encoding([AnyMatch(mask, t)], [Root(h, txids, t)]) else
    match t
    case One(c) =>
      var e := Encode(h, txids, mask, c);
      Encoding([true] + e.bits, e.hashes)
    case Two(l, r) =>
      var el, er := Encode(h, txids, mask, l), Encode(h, txids, mask, r);
      Encoding([true] + el.bits + er.bits, el.hashes + er.hashes)
  }

  /** What is stored for the node at a height and position of the tree over n transactions. */
  ghost function Stored(h: PairHash, n: nat, txids: seq<Hash>, mask: seq<bool>, height: nat, pos: nat): Encoding
    requires pos < Width(n, height)
  {
    Encode(h, txids, mask, Shape(n, height, pos))
  }

  /** A right child need not be there. */
  ghost function StoredIfAny(h: PairHash, n: nat, txids: seq<Hash>, mask: seq<bool>, height: nat, pos: nat): Encoding {
    if pos < Width(n, height) then Stored(h, n, txids, mask, height, pos) else Encoding([], [])
  }

  /** What is appended for a node with a match below it. */
  lemma {:induction false} AppendNode(h: PairHash, txids: seq<Hash>, mask: seq<bool>, t: Tree, bits: seq<bool>,
                                      hashes: seq<Hash>)
    requires !t.Leaf? && AnyMatch(mask, t)
    ensures var e := Encode(h, txids, mask, t);
            t.One? ==>
              && bits + [true] + Encode(h, txids, mask, t.child).bits == bits + e.bits
              && hashes + Encode(h, txids, mask, t.child).hashes == hashes + e.hashes
    ensures var e := Encode(h, txids, mask, t);
            t.Two? ==>
              && bits + [true] + Encode(h, txids, mask, t.left).bits + Encode(h, txids, mask, t.right).bits == bits
                 + e.bits
              && hashes + Encode(h, txids, mask, t.left).hashes + Encode(h, txids, mask, t.right).hashes == hashes
                 + e.hashes
  {
    var e := Encode(h, txids, mask, t);
    match t
    case One(c) =>
      var ec := Encode(h, txids, mask, c);
      assert e.bits == [true] + ec.bits && e.hashes == ec.hashes;
      assert bits + [true] + ec.bits == bits + ([true] + ec.bits);
    case Two(l, r) =>
      var el, er := Encode(h, txids, mask, l), Encode(h, txids, mask, r);
      assert e.bits == [true] + el.bits + er.bits && e.hashes == el.hashes + er.hashes;
      assert bits + [true] + el.bits + er.bits == bits + ([true] + el.bits + er.bits);
      assert hashes + el.hashes + er.hashes == hashes + (el.hashes + er.hashes);
  }

  datatype Cursor = Cursor(nBitsUsed: nat, nHashUsed: nat, vMatch: seq<Hash>, vnIndex: seq<nat>, fBad: bool)

  /** Extraction from arbitrary bits and hashes: the node hash it computes, and what it has consumed and found. */
  function Extract(h: PairHash, bits: seq<bool>, hashes: seq<Hash>, t: Tree, c: Cursor): (Hash, Cursor) {
    if c.nBitsUsed >= |bits| then (NULL_HASH, c.(fBad := true)) else
    var parentOfMatch := bits[c.nBitsUsed];
    var c1 := c.(nBitsUsed := c.nBitsUsed + 1);
    if t.Leaf? || !parentOfMatch then
      if c1.nHashUsed >= |hashes| then (NULL_HASH, c1.(fBad := true)) else
      var hash := hashes[c1.nHashUsed];
      var c2 := c1.(nHashUsed := c1.nHashUsed + 1);
      (hash, if t.Leaf?
       && parentOfMatch then c2.(vMatch := c2.vMatch + [hash], vnIndex := c2.vnIndex + [t.pos]) else c2)
    else
      match t
      case One(child) =>
        var (left, cl) := Extract(h, bits, hashes, child, c1);
        (h(left, left), cl)
      case Two(l, r) =>
        var (left, cl) := Extract(h, bits, hashes, l, c1);
        var (right, cr) := Extract(h, bits, hashes, r, cl);
        (h(left, right), if right == left then cr.(fBad := true) else cr)
  }

  // ---------------------------------------------------------------- extraction undoes building

  function Pick(txids: seq<Hash>, index: seq<nat>): (r: seq<Hash>) {
    seq(|index|, i requires 0 <= i < |index| => TxAt(txids, index[i]))
  }

  lemma {:induction false} PickAppend(txids: seq<Hash>, a: seq<nat>, b: seq<nat>)
    ensures Pick(txids, a + b) == Pick(txids, a) + Pick(txids, b)
  {
  }

  /** The cursor after reading `e` and finding the positions `index`. */
  ghost function After(c: Cursor, e: Encoding, txids: seq<Hash>, index: seq<nat>): Cursor {
    Cursor(c.nBitsUsed + |e.bits|, c.nHashUsed + |e.hashes|, c.vMatch + Pick(txids, index), c.vnIndex + index, c.fBad)
  }

  lemma {:induction false} PrefixParts<T>(s: seq<T>, at: nat, a: seq<T>, b: seq<T>)
    requires at <= |s| && a + b <= s[at..]
    ensures at + |a| <= |s| && a <= s[at..] && b <= s[at + |a|..]
  {
    assert s[at..][..|a + b|] == a + b;
    assert s[at..][..|a|] == a;
    assert s[at + |a|..] == s[at..][|a|..];
    assert s[at..][|a|..][..|b|] == b;
  }

  ghost predicate At(bits: seq<bool>, hashes: seq<Hash>, c: Cursor, e: Encoding) {
    && c.nBitsUsed <= |bits| && e.bits <= bits[c.nBitsUsed..]
    && c.nHashUsed <= |hashes| && e.hashes <= hashes[c.nHashUsed..]
  }

  /** In every pair of siblings the two hashes differ. */
  ghost predicate SiblingsDiffer(h: PairHash, txids: seq<Hash>, t: Tree) {
    match t
    case Leaf(_) => true
    case One(c) => SiblingsDiffer(h, txids, c)
    case Two(l, r) =>
      Root(h, txids, l) != Root(h, txids, r) && SiblingsDiffer(h, txids, l) && SiblingsDiffer(h, txids, r)
  }

  lemma {:induction false} LeafEncoded(h: PairHash, txids: seq<Hash>, mask: seq<bool>, t: Tree, bits: seq<bool>,
                                       hashes: seq<Hash>, c: Cursor)
    requires t.Leaf? || !AnyMatch(mask, t)
    requires At(bits, hashes, c, Encode(h, txids, mask, t))
    ensures Extract(h, bits, hashes, t, c)
         == (Root(h, txids, t), After(c, Encode(h, txids, mask, t), txids, Filter(mask, Leaves(t))))
  {
    var e := Encode(h, txids, mask, t);
    assert bits[c.nBitsUsed] == e.bits[0] && hashes[c.nHashUsed] == e.hashes[0];
    assert c.vMatch + Pick(txids, []) == c.vMatch && c.vnIndex + [] == c.vnIndex;
    if t.Leaf? {
      assert Filter(mask, [t.pos][1..]) == [];
      assert Filter(mask, Leaves(t)) == if t.pos < |mask| && mask[t.pos] then [t.pos] else [];
      assert Pick(txids, [t.pos]) == [TxAt(txids, t.pos)];
    }
  }

  /** Reading the subtree at the cursor yields its hash and exactly the matched transactions in it. */
  ghost predicate Reads(h: PairHash, txids: seq<Hash>, mask: seq<bool>, t: Tree, bits: seq<bool>, hashes: seq<Hash>,
                        c: Cursor) {
    Extract(h, bits, hashes, t, c)
    == (Root(h, txids, t), After(c, Encode(h, txids, mask, t), txids, Filter(mask, Leaves(t))))
  }

  /** What was stored for a subtree reads back. */
  lemma {:induction false} ExtractEncoded(h: PairHash, txids: seq<Hash>, mask: seq<bool>, t: Tree, bits: seq<bool>,
                                          hashes: seq<Hash>, c: Cursor)
    requires SiblingsDiffer(h, txids, t)
    requires At(bits, hashes, c, Encode(h, txids, mask, t))
    ensures Reads(h, txids, mask, t, bits, hashes, c)
  {
    if t.Leaf? || !AnyMatch(mask, t) {
      LeafEncoded(h, txids, mask, t, bits, hashes, c);
    } else {
      var e := Encode(h, txids, mask, t);
      var c1 := c.(nBitsUsed := c.nBitsUsed + 1);
      assert bits[c.nBitsUsed] == e.bits[0];
      match t
      case One(child) =>
        PrefixParts(bits, c.nBitsUsed, [true], Encode(h, txids, mask, child).bits);
        ExtractEncoded(h, txids, mask, child, bits, hashes, c1);
      case Two(l, r) =>
        TwoAt(h, txids, mask, l, r, bits, hashes, c);
        ExtractEncoded(h, txids, mask, l, bits, hashes, c1);
        ExtractEncoded(h, txids, mask, r, bits, hashes,
                       After(c1, Encode(h, txids, mask, l), txids, Filter(mask, Leaves(l))));
        TwoReads(h, txids, mask, l, r, bits, hashes, c);
    }
  }

  lemma {:induction false} TwoAt(h: PairHash, txids: seq<Hash>, mask: seq<bool>, l: Tree, r: Tree, bits: seq<bool>,
                                 hashes: seq<Hash>, c: Cursor)
    requires AnyMatch(mask, Two(l, r)) && At(bits, hashes, c, Encode(h, txids, mask, Two(l, r)))
    ensures c.nBitsUsed < |bits| && bits[c.nBitsUsed]
    ensures var c1 := c.(nBitsUsed := c.nBitsUsed + 1);
            var el := Encode(h, txids, mask, l);
            && At(bits, hashes, c1, el)
            && At(bits, hashes, After(c1, el, txids, Filter(mask, Leaves(l))), Encode(h, txids, mask, r))
  {
    var el, er := Encode(h, txids, mask, l), Encode(h, txids, mask, r);
    assert Encode(h, txids, mask, Two(l, r)) == Encoding([true] + el.bits + er.bits, el.hashes + er.hashes);
    PartsAt(bits, hashes, c, el, er, txids, Filter(mask, Leaves(l)));
  }

  lemma {:induction false} PartsAt(bits: seq<bool>, hashes: seq<Hash>, c: Cursor, el: Encoding, er: Encoding,
                                   txids: seq<Hash>, found: seq<nat>)
    requires At(bits, hashes, c, Encoding([true] + el.bits + er.bits, el.hashes + er.hashes))
    ensures c.nBitsUsed < |bits| && bits[c.nBitsUsed]
    ensures var c1 := c.(nBitsUsed := c.nBitsUsed + 1);
            At(bits, hashes, c1, el) && At(bits, hashes, After(c1, el, txids, found), er)
  {
    var all := [true] + el.bits + er.bits;
    assert all == [true] + (el.bits + er.bits) && bits[c.nBitsUsed] == all[0];
    PrefixParts(bits, c.nBitsUsed, [true], el.bits + er.bits);
    PrefixParts(bits, c.nBitsUsed + 1, el.bits, er.bits);
    PrefixParts(hashes, c.nHashUsed, el.hashes, er.hashes);
  }

  lemma {:induction false} TwoReads(h: PairHash, txids: seq<Hash>, mask: seq<bool>, l: Tree, r: Tree, bits: seq<bool>,
                                    hashes: seq<Hash>, c: Cursor)
    requires AnyMatch(mask, Two(l, r)) && c.nBitsUsed < |bits| && bits[c.nBitsUsed]
    requires Root(h, txids, l) != Root(h, txids, r)
    requires var c1 := c.(nBitsUsed := c.nBitsUsed + 1);
             && Reads(h, txids, mask, l, bits, hashes, c1)
             && Reads(h, txids, mask, r, bits, hashes,
                      After(c1, Encode(h, txids, mask, l), txids, Filter(mask, Leaves(l))))
    ensures Reads(h, txids, mask, Two(l, r), bits, hashes, c)
  {
    var el, er := Encode(h, txids, mask, l), Encode(h, txids, mask, r);
    var cl := After(c.(nBitsUsed := c.nBitsUsed + 1), el, txids, Filter(mask, Leaves(l)));
    ExtractTwo(h, bits, hashes, l, r, c, Root(h, txids, l), cl, Root(h, txids, r),
               After(cl, er, txids, Filter(mask, Leaves(r))));
    FilterAppend(mask, Leaves(l), Leaves(r));
    AfterTwo(c, el, er, txids, Filter(mask, Leaves(l)), Filter(mask, Leaves(r)));
  }

  lemma {:induction false} ExtractTwo(h: PairHash, bits: seq<bool>, hashes: seq<Hash>, l: Tree, r: Tree, c: Cursor,
                                      x: Hash, cl: Cursor, y: Hash, cr: Cursor)
    requires c.nBitsUsed < |bits| && bits[c.nBitsUsed]
    requires Extract(h, bits, hashes, l, c.(nBitsUsed := c.nBitsUsed + 1)) == (x, cl)
    requires Extract(h, bits, hashes, r, cl) == (y, cr)
    ensures Extract(h, bits, hashes, Two(l, r), c) == (h(x, y), if x == y then cr.(fBad := true) else cr)
  {
  }

  lemma {:induction false} AfterTwo(c: Cursor, el: Encoding, er: Encoding, txids: seq<Hash>, il: seq<nat>, ir: seq<nat>)
    ensures After(After(c.(nBitsUsed := c.nBitsUsed + 1), el, txids, il), er, txids, ir)
         == After(c, Encoding([true] + el.bits + er.bits, el.hashes + er.hashes), txids, il + ir)
  {
    PickAppend(txids, il, ir);
    assert c.vMatch + Pick(txids, il) + Pick(txids, ir) == c.vMatch + (Pick(txids, il) + Pick(txids, ir));
  }

  // ---------------------------------------------------------------- distinct transactions have distinct siblings

  lemma {:induction false} EqualRoots(h: PairHash, txids: seq<Hash>, a: Tree, b: Tree)
    requires SameHeight(a, b)
    requires NoCollision(h, TreePairs(h, txids, a), TreePairs(h, txids, b))
    requires Root(h, txids, a) == Root(h, txids, b)
    ensures TxAt(txids, Leaves(a)[0]) == TxAt(txids, Leaves(b)[0])
    decreases a
  {
    if !a.Leaf? {
      var (la, ra) := if a.Two? then (a.left, a.right) else (a.child, a.child);
      var (lb, rb) := if b.Two? then (b.left, b.right) else (b.child, b.child);
      assert (Root(h, txids, la), Root(h, txids, ra)) in TreePairs(h, txids, a);
      assert (Root(h, txids, lb), Root(h, txids, rb)) in TreePairs(h, txids, b);
      EqualRoots(h, txids, la, lb);
    }
  }

  /** The leftmost paths of the two trees have one length. */
  ghost predicate SameHeight(a: Tree, b: Tree) {
    if a.Leaf? || b.Leaf? then a.Leaf? && b.Leaf?
    else SameHeight(if a.Two? then a.left else a.child, if b.Two? then b.left else b.child)
  }

  lemma {:induction false} ShapesSameHeight(n: nat, height: nat, a: nat, b: nat)
    requires a < Width(n, height) && b < Width(n, height)
    ensures SameHeight(Shape(n, height, a), Shape(n, height, b))
  {
    if height > 0 {
      ShapesSameHeight(n, height - 1, a * 2, b * 2);
    }
  }

  /** Siblings have one height and start with different transactions. */
  ghost predicate LeadersDiffer(txids: seq<Hash>, t: Tree) {
    match t
    case Leaf(_) => true
    case One(c) => LeadersDiffer(txids, c)
    case Two(l, r) =>
      && SameHeight(l, r) && TxAt(txids, Leaves(l)[0]) != TxAt(txids, Leaves(r)[0])
      && LeadersDiffer(txids, l) && LeadersDiffer(txids, r)
  }

  lemma {:induction false} DistinctLeaders(txids: seq<Hash>, height: nat, pos: nat)
    requires pos < Width(|txids|, height) && Distinct(txids)
    ensures LeadersDiffer(txids, Shape(|txids|, height, pos))
  {
    var n := |txids|;
    if height > 0 {
      DistinctLeaders(txids, height - 1, pos * 2);
      if pos * 2 + 1 < Width(n, height - 1) {
        DistinctLeaders(txids, height - 1, pos * 2 + 1);
        SiblingLeaders(txids, height - 1, pos * 2);
      }
    }
  }

  lemma {:induction false} SiblingLeaders(txids: seq<Hash>, height: nat, pos: nat)
    requires pos + 1 < Width(|txids|, height) && Distinct(txids)
    requires LeadersDiffer(txids, Shape(|txids|, height, pos)) && LeadersDiffer(txids, Shape(|txids|, height, pos + 1))
    ensures LeadersDiffer(txids, Two(Shape(|txids|, height, pos), Shape(|txids|, height, pos + 1)))
  {
    var n := |txids|;
    ShapesSameHeight(n, height, pos, pos + 1);
    Leader(n, height, pos);
    Leader(n, height, pos + 1);
    FirstAscends(height, pos, pos + 1);
    LeadersTwo(txids, Shape(n, height, pos), Shape(n, height, pos + 1));
  }

  lemma {:induction false} LeadersTwo(txids: seq<Hash>, l: Tree, r: Tree)
    requires LeadersDiffer(txids, l) && LeadersDiffer(txids, r) && SameHeight(l, r)
    requires Distinct(txids) && Leaves(l)[0] < Leaves(r)[0] < |txids|
    ensures LeadersDiffer(txids, Two(l, r))
  {
  }

  lemma {:induction false} Leader(n: nat, height: nat, pos: nat)
    requires pos < Width(n, height)
    ensures Leaves(Shape(n, height, pos))[0] == First(height, pos) < n
    decreases height
  {
    WidthIff(n, height, pos);
    if height > 0 {
      Leader(n, height - 1, pos * 2);
    }
  }

  lemma {:induction false} DistinctSiblings(h: PairHash, txids: seq<Hash>, t: Tree)
    requires LeadersDiffer(txids, t)
    requires NoCollision(h, TreePairs(h, txids, t), TreePairs(h, txids, t))
    ensures SiblingsDiffer(h, txids, t)
  {
    match t
    case Leaf(_) =>
    case One(c) => DistinctSiblings(h, txids, c);
    case Two(l, r) =>
      DistinctSiblings(h, txids, l);
      DistinctSiblings(h, txids, r);
      if Root(h, txids, l) == Root(h, txids, r) {
        EqualRoots(h, txids, l, r);
      }
  }

  // ---------------------------------------------------------------- extraction from arbitrary data is sound

  /** The pairs hashed while extracting. */
  ghost function ExtractPairs(h: PairHash, bits: seq<bool>, hashes: seq<Hash>, t: Tree, c: Cursor): set<(Hash, Hash)> {
    if c.nBitsUsed >= |bits| || t.Leaf? || !bits[c.nBitsUsed] then {} else
    var c1 := c.(nBitsUsed := c.nBitsUsed + 1);
    match t
    case One(child) =>
      var x := Extract(h, bits, hashes, child, c1).0;
      {(x, x)} + ExtractPairs(h, bits, hashes, child, c1)
    case Two(l, r) =>
      var (x, cl) := Extract(h, bits, hashes, l, c1);
      var y := Extract(h, bits, hashes, r, cl).0;
      {(x, y)} + ExtractPairs(h, bits, hashes, l, c1) + ExtractPairs(h, bits, hashes, r, cl)
  }

  lemma {:induction false} BadStays(h: PairHash, bits: seq<bool>, hashes: seq<Hash>, t: Tree, c: Cursor)
    requires c.fBad
    ensures Extract(h, bits, hashes, t, c).1.fBad
  {
    if c.nBitsUsed < |bits| && bits[c.nBitsUsed] {
      var c1 := c.(nBitsUsed := c.nBitsUsed + 1);
      match t
      case Leaf(_) =>
      case One(child) =>
        BadStays(h, bits, hashes, child, c1);
      case Two(l, r) =>
        BadStays(h, bits, hashes, l, c1);
        BadStays(h, bits, hashes, r, Extract(h, bits, hashes, l, c1).1);
    }
  }

  ghost predicate Increasing(s: seq<nat>) {
    forall i, j :: 0 <= i < j < |s| ==> s[i] < s[j]
  }

  /** `c'` comes from `c` by finding the positions `index`, all among `leaves`, with their true transactions. */
  ghost predicate Finds(txids: seq<Hash>, leaves: seq<nat>, c: Cursor, c': Cursor, index: seq<nat>) {
    && c'.vnIndex == c.vnIndex + index
    && c'.vMatch == c.vMatch + Pick(txids, index)
    && Increasing(index)
    && forall i :: 0 <= i < |index| ==> index[i] in leaves
  }

  /** If extraction computes the true hash of a subtree, what it reports about it is true. */
  lemma {:induction false} ExtractSound(h: PairHash, txids: seq<Hash>, t: Tree, bits: seq<bool>, hashes: seq<Hash>,
                                        c: Cursor)
      returns (index: seq<nat>)
    requires Increasing(Leaves(t))
    requires NoCollision(h, ExtractPairs(h, bits, hashes, t, c), TreePairs(h, txids, t))
    requires var (x, c') := Extract(h, bits, hashes, t, c); x == Root(h, txids, t) && !c'.fBad
    ensures Finds(txids, Leaves(t), c, Extract(h, bits, hashes, t, c).1, index)
  {
    var c1 := c.(nBitsUsed := c.nBitsUsed + 1);
    if t.Leaf? || !bits[c.nBitsUsed] {
      index := if t.Leaf? && bits[c.nBitsUsed] then [t.pos] else [];
      assert Pick(txids, []) == [] && c.vMatch + [] == c.vMatch && c.vnIndex + [] == c.vnIndex;
      assert t.Leaf? ==> Pick(txids, [t.pos]) == [TxAt(txids, t.pos)];
    } else {
      match t
      case One(child) =>
        assert (Root(h, txids, child), Root(h, txids, child)) in TreePairs(h, txids, t);
        index := ExtractSound(h, txids, child, bits, hashes, c1);
      case Two(l, r) =>
        var (x, cl) := Extract(h, bits, hashes, l, c1);
        var (y, cr) := Extract(h, bits, hashes, r, cl);
        assert (x, y) in ExtractPairs(h, bits, hashes, t, c);
        assert (Root(h, txids, l), Root(h, txids, r)) in TreePairs(h, txids, t);
        if cl.fBad {
          BadStays(h, bits, hashes, r, cl);
        }
        IncreasingParts(Leaves(l), Leaves(r));
        var il := ExtractSound(h, txids, l, bits, hashes, c1);
        var ir := ExtractSound(h, txids, r, bits, hashes, cl);
        FindsTwo(txids, Leaves(l), Leaves(r), c1, cl, cr, il, ir);
        index := il + ir;
    }
  }

  lemma {:induction false} IncreasingParts(a: seq<nat>, b: seq<nat>)
    requires Increasing(a + b)
    ensures Increasing(a) && Increasing(b)
    ensures forall x, y :: x in a && y in b ==> x < y
  {
    assert forall i :: 0 <= i < |a| ==> (a + b)[i] == a[i];
    assert forall i :: 0 <= i < |b| ==> (a + b)[|a| + i] == b[i];
    forall x, y | x in a && y in b
      ensures x < y
    {
      var i :| 0 <= i < |a| && a[i] == x;
      var j :| 0 <= j < |b| && b[j] == y;
      assert (a + b)[i] < (a + b)[|a| + j];
    }
  }

  lemma {:induction false} FindsTwo(txids: seq<Hash>, a: seq<nat>, b: seq<nat>, c: Cursor, cl: Cursor, cr: Cursor,
                                    il: seq<nat>, ir: seq<nat>)
    requires forall x, y :: x in a && y in b ==> x < y
    requires Finds(txids, a, c, cl, il) && Finds(txids, b, cl, cr, ir)
    ensures Finds(txids, a + b, c, cr, il + ir)
  {
    PickAppend(txids, il, ir);
    assert c.vnIndex + il + ir == c.vnIndex + (il + ir);
    assert c.vMatch + Pick(txids, il) + Pick(txids, ir) == c.vMatch + (Pick(txids, il) + Pick(txids, ir));
  }

  // ---------------------------------------------------------------- size of the encoding

  /** All leaves are `k` levels down. */
  predicate Level(t: Tree, k: nat) {
    match t
    case Leaf(_) => k == 0
    case One(c) => k > 0 && Level(c, k - 1)
    case Two(l, r) => k > 0 && Level(l, k - 1) && Level(r, k - 1)
  }

  lemma {:induction false} ShapeLevel(n: nat, height: nat, pos: nat)
    requires pos < Width(n, height)
    ensures Level(Shape(n, height, pos), height)
  {
    if height > 0 {
      ShapeLevel(n, height - 1, pos * 2);
      if pos * 2 + 1 < Width(n, height - 1) {
        ShapeLevel(n, height - 1, pos * 2 + 1);
      }
    }
  }

  /** At most one hash per transaction, and at most one more than the matched transactions times the height. */
  lemma {:induction false} HashBound(h: PairHash, txids: seq<Hash>, mask: seq<bool>, t: Tree, k: nat)
    requires Level(t, k)
    ensures |Encode(h, txids, mask, t).hashes| <= |Leaves(t)|
    ensures |Encode(h, txids, mask, t).hashes| <= 1 + |Filter(mask, Leaves(t))| * k
  {
    HashCount(h, txids, mask, t, k);
    BoundIs(|Encode(h, txids, mask, t).hashes|, |Filter(mask, Leaves(t))|, k);
  }

  lemma {:induction false} BoundIs(a: nat, m: nat, k: nat)
    requires a <= 1 + Scaled(k, m)
    ensures a <= 1 + m * k
  {
    ScaledIs(k, m);
  }

  lemma {:induction false} HashCount(h: PairHash, txids: seq<Hash>, mask: seq<bool>, t: Tree, k: nat)
    requires Level(t, k)
    ensures |Encode(h, txids, mask, t).hashes| <= |Leaves(t)|
    ensures |Encode(h, txids, mask, t).hashes| <= 1 + Scaled(k, |Filter(mask, Leaves(t))|)
    decreases t
  {
    if t.One? && AnyMatch(mask, t) {
      HashCount(h, txids, mask, t.child, k - 1);
    } else if t.Two? && AnyMatch(mask, t) {
      var l, r := t.left, t.right;
      HashCount(h, txids, mask, l, k - 1);
      HashCount(h, txids, mask, r, k - 1);
      FilterAppend(mask, Leaves(l), Leaves(r));
      HashesAdd(k, |Encode(h, txids, mask, l).hashes|, |Encode(h, txids, mask, r).hashes|,
                |Filter(mask, Leaves(l))|, |Filter(mask, Leaves(r))|);
    }
  }

  lemma {:induction false} HashesAdd(k: nat, a: nat, b: nat, x: nat, y: nat)
    requires k > 0 && x + y > 0 && a <= 1 + Scaled(k - 1, x) && b <= 1 + Scaled(k - 1, y)
    ensures a + b <= 1 + Scaled(k, x + y)
  {
    ScaledSplit(k - 1, x, y);
  }

  /** No matched transaction lies below a node with one child. */
  predicate NoMatchBelowOne(mask: seq<bool>, t: Tree) {
    match t
    case Leaf(_) => true
    case One(c) => !AnyMatch(mask, c)
    case Two(l, r) => NoMatchBelowOne(mask, l) && NoMatchBelowOne(mask, r)
  }

  /**
   The documented bound of 2 * N - 1 flag bits for N hashes holds exactly when no match lies below
   a one-child node.
   */
  lemma {:induction false} BitBound(h: PairHash, txids: seq<Hash>, mask: seq<bool>, t: Tree)
    ensures var e := Encode(h, txids, mask, t);
            && |e.bits| >= 2 * |e.hashes| - 1
            && (|e.bits| <= 2 * |e.hashes| - 1 <==> NoMatchBelowOne(mask, t))
  {
    if t.Leaf? {
    } else if !AnyMatch(mask, t) {
      NoMatchAtAll(mask, t);
    } else {
      match t
      case One(c) =>
        BitBound(h, txids, mask, c);
      case Two(l, r) =>
        BitBound(h, txids, mask, l);
        BitBound(h, txids, mask, r);
    }
  }

  lemma {:induction false} NoMatchAtAll(mask: seq<bool>, t: Tree)
    requires !AnyMatch(mask, t)
    ensures NoMatchBelowOne(mask, t)
  {
    match t
    case Leaf(_) =>
    case One(c) =>
    case Two(l, r) =>
      FilterAppend(mask, Leaves(l), Leaves(r));
      NoMatchAtAll(mask, l);
      NoMatchAtAll(mask, r);
  }

  lemma {:induction false} ShapeOfThree()
    ensures Width(3, 2) == 1 && Shape(3, 2, 0) == Two(Two(Leaf(0), Leaf(1)), One(Leaf(2)))
  {
    assert Width(3, 0) == 3 && Width(3, 1) == 2;
    assert Shape(3, 1, 0) == Two(Leaf(0), Leaf(1)) && Shape(3, 1, 1) == One(Leaf(2));
  }

  /** Three transactions, the last one matched: four bits for two hashes. */
  lemma {:induction false} BitBoundFails(h: PairHash, txids: seq<Hash>)
    ensures 0 < Width(3, 2)
    ensures var e := Encode(h, txids, [false, false, true], Shape(3, 2, 0));
            |e.bits| == 4 && |e.hashes| == 2
  {
    ShapeOfThree();
    var mask := [false, false, true];
    FilterAppend(mask, [0], [1]);
    FilterAppend(mask, [0, 1], [2]);
    assert Filter(mask, [2][1..]) == [] && Filter(mask, [2]) == [2];
    assert Filter(mask, [0][1..]) == [] && Filter(mask, [0]) == [];
    assert Filter(mask, [1][1..]) == [] && Filter(mask, [1]) == [];
    assert [0] + [1] == [0, 1] && [0, 1] + [2] == [0, 1, 2];
    assert Encode(h, txids, mask, Leaf(2)).bits == [true];
    assert |Encode(h, txids, mask, One(Leaf(2))).bits| == 2;
    assert !AnyMatch(mask, Two(Leaf(0), Leaf(1)));
  }

  // ---------------------------------------------------------------- the size of the serialization

  /** The one-child nodes with a match below. */
  function OnesAboveMatch(mask: seq<bool>, t: Tree): (c: nat) {
    match t
    case Leaf(_) => 0
    case One(c) => if AnyMatch(mask, c) then 1 + OnesAboveMatch(mask, c) else 0
    case Two(l, r) => OnesAboveMatch(mask, l) + OnesAboveMatch(mask, r)
  }

  lemma {:induction false} NoMatchNoOnes(mask: seq<bool>, t: Tree)
    requires !AnyMatch(mask, t)
    ensures OnesAboveMatch(mask, t) == 0
  {
    match t
    case Leaf(_) =>
    case One(c) =>
    case Two(l, r) =>
      FilterAppend(mask, Leaves(l), Leaves(r));
      NoMatchNoOnes(mask, l);
      NoMatchNoOnes(mask, r);
  }

  /** The number of flag bits: 2 * N - 1, and one more for every one-child node above a match. */
  lemma {:induction false} BitCount(h: PairHash, txids: seq<Hash>, mask: seq<bool>, t: Tree)
    ensures var e := Encode(h, txids, mask, t); |e.bits| == 2 * |e.hashes| - 1 + OnesAboveMatch(mask, t)
  {
    if t.Leaf? {
    } else if !AnyMatch(mask, t) {
      NoMatchNoOnes(mask, t);
    } else {
      match t
      case One(c) =>
        BitCount(h, txids, mask, c);
      case Two(l, r) =>
        BitCount(h, txids, mask, l);
        BitCount(h, txids, mask, r);
    }
  }

  // ---------------------------------------------------------------- flag bits as bytes

  function BitMask(k: nat): bv8
    requires k < 8
  {
    if k == 0 then 1 else if k == 1 then 2 else if k == 2 then 4 else if k == 3 then 8
    else if k == 4 then 16 else if k == 5 then 32 else if k == 6 then 64 else 128
  }

  lemma {:induction false} OrSetsOneBit(b: bv8, k: nat, j: nat)
    requires k < 8 && j < 8
    ensures ((b | BitMask(k)) & BitMask(j) != 0) <==> (j == k || b & BitMask(j) != 0)
  {
  }

  /** Bit `p` of a byte vector, least significant bit first. */
  function BitAt(bytes: seq<bv8>, p: nat): bool
    requires p < 8 * |bytes|
  {
    bytes[p / 8] & BitMask(p % 8) != 0
  }

  method BitsToBytes(bits: seq<bool>) returns (ret: seq<bv8>)
    ensures |ret| == (|bits| + 7) / 8
    ensures forall p :: 0 <= p < 8 * |ret| ==> (BitAt(ret, p) <==> p < |bits| && bits[p])
  {
    ret := seq((|bits| + 7) / 8, _ => 0);
    for p := 0 to |bits|
      invariant |ret| == (|bits| + 7) / 8
      invariant forall q :: 0 <= q < 8 * |ret| ==> (BitAt(ret, q) <==> q < p && bits[q])
    {
      ghost var ret0 := ret;
      if bits[p] {
        ret := ret[p / 8 := ret[p / 8] | BitMask(p % 8)];
      }
      forall q | 0 <= q < 8 * |ret|
        ensures BitAt(ret, q) <==> q < p + 1 && bits[q]
      {
        SetsOneBit(ret0, p, q);
      }
    }
  }

  /** Setting bit `p` of a byte vector changes no other bit. */
  lemma {:induction false} SetsOneBit(bytes: seq<bv8>, p: nat, q: nat)
    requires p < 8 * |bytes| && q < 8 * |bytes|
    ensures BitAt(bytes[p / 8 := bytes[p / 8] | BitMask(p % 8)], q) <==> p == q || BitAt(bytes, q)
  {
    if q / 8 == p / 8 {
      OrSetsOneBit(bytes[p / 8], p % 8, q % 8);
    }
  }

  method BytesToBits(bytes: seq<bv8>) returns (ret: seq<bool>)
    ensures |ret| == 8 * |bytes|
    ensures forall p :: 0 <= p < |ret| ==> (ret[p] <==> BitAt(bytes, p))
  {
    ret := seq(8 * |bytes|, _ => false);
    for p := 0 to |ret|
      invariant |ret| == 8 * |bytes|
      invariant forall q :: 0 <= q < p ==> (ret[q] <==> BitAt(bytes, q))
    {
      ret := ret[p := bytes[p / 8] & BitMask(p % 8) != 0];
    }
  }

  /** Flag bits padded with zeroes to whole bytes. */
  function Padded(bits: seq<bool>): (r: seq<bool>)
    ensures |r| == (|bits| + 7) / 8 * 8 && bits <= r
  {
    bits + seq((|bits| + 7) / 8 * 8 - |bits|, _ => false)
  }

  lemma {:induction false} PaddedIs(bits: seq<bool>, r: seq<bool>)
    requires |r| == (|bits| + 7) / 8 * 8 && forall p :: 0 <= p < |r| ==> (r[p] <==> p < |bits| && bits[p])
    ensures r == Padded(bits)
  {
  }

  lemma {:induction false} ReceivedBits(bits: seq<bool>, bytes: seq<bv8>, r: seq<bool>)
    requires |bytes| == (|bits| + 7) / 8 && |r| == 8 * |bytes|
    requires forall p :: 0 <= p < 8 * |bytes| ==> (BitAt(bytes, p) <==> p < |bits| && bits[p])
    requires forall p :: 0 <= p < |r| ==> (r[p] <==> BitAt(bytes, p))
    ensures bits <= r && (|r| + 7) / 8 == (|bits| + 7) / 8
  {
    forall p | 0 <= p < |bits|
      ensures r[p] == bits[p]
    {
      assert BitAt(bytes, p) <==> bits[p];
    }
  }

  /** Packing and unpacking gives the flag bits back, padded. */
  method Repack(bits: seq<bool>) returns (r: seq<bool>)
    ensures r == Padded(bits)
  {
    var bytes := BitsToBytes(bits);
    r := BytesToBits(bytes);
    PaddedIs(bits, r);
  }

  // ---------------------------------------------------------------- the whole tree

  function TreeHeightFrom(n: nat, height: nat): (r: nat)
    ensures r >= height && Width(n, r) <= 1
    decreases Width(n, height)
  {
    if Width(n, height) > 1 then TreeHeightFrom(n, height + 1) else height
  }

  function TreeHeight(n: nat): (r: nat)
    ensures n > 0 ==> Width(n, r) == 1
  {
    var r := TreeHeightFrom(n, 0);
    WidthIff(n, r, 0);
    FirstZero(r);
    r
  }

  lemma {:induction false} FirstZero(height: nat)
    ensures First(height, 0) == 0
    decreases height
  {
    if height > 0 {
      FirstZero(height - 1);
    }
  }

  function WholeTree(n: nat): Tree
    requires n > 0
  {
    Shape(n, TreeHeight(n), 0)
  }

  lemma {:induction false} WholeTreeLeaves(n: nat)
    requires n > 0
    ensures Leaves(WholeTree(n)) == Range(0, n) && Increasing(Leaves(WholeTree(n)))
  {
    ShapeLeaves(n, TreeHeight(n), 0);
    FirstZero(TreeHeight(n));
    WidthIff(n, TreeHeight(n), 1);
  }

  datatype Extraction = Extraction(root: Hash, vMatch: seq<Hash>, vnIndex: seq<nat>, fBad: bool)

  /** ExtractMatches: the root is null on every failure; found positions are appended to the given ones. */
  function Extracted(h: PairHash, n: nat, bits: seq<bool>, hashes: seq<Hash>, bad: bool,
                     vnIndex: seq<nat>): Extraction {
    if n == 0 || n > MAX_BLOCK_WEIGHT / MIN_TRANSACTION_WEIGHT || |hashes| > n || |bits| < |hashes|
    then Extraction(NULL_HASH, [], vnIndex, bad) else
    var (x, c) := Extract(h, bits, hashes, WholeTree(n), Cursor(0, 0, [], vnIndex, bad));
    if c.fBad || (c.nBitsUsed + 7) / 8 != (|bits| + 7) / 8 || c.nHashUsed != |hashes|
    then Extraction(NULL_HASH, c.vMatch, c.vnIndex, c.fBad)
    else Extraction(x, c.vMatch, c.vnIndex, c.fBad)
  }

  /**
   Soundness: whatever bits and hashes are sent for a block with these transactions, if extraction returns
   the block's (non-null) Merkle root, then the reported positions are increasing and in range and the
   reported hashes are the block's transactions at those positions.
   */
  lemma {:induction false} ExtractionIsSound(h: PairHash, txids: seq<Hash>, bits: seq<bool>, hashes: seq<Hash>)
    requires |txids| > 0
    requires NoCollision(h, ExtractPairs(h, bits, hashes, WholeTree(|txids|), Cursor(0, 0, [], [], false)),
                         TreePairs(h, txids, WholeTree(|txids|)))
    requires var x := Extracted(h, |txids|, bits, hashes, false, []);
             x.root == CalcHash(h, txids, TreeHeight(|txids|), 0) && x.root != NULL_HASH
    ensures var x := Extracted(h, |txids|, bits, hashes, false, []);
            && |x.vMatch| == |x.vnIndex|
            && Increasing(x.vnIndex)
            && forall i :: 0 <= i < |x.vnIndex| ==> x.vnIndex[i] < |txids| && x.vMatch[i] == txids[x.vnIndex[i]]
  {
    var t := WholeTree(|txids|);
    CalcHashIsRoot(h, txids, TreeHeight(|txids|), 0);
    WholeTreeLeaves(|txids|);
    var c := Cursor(0, 0, [], [], false);
    var index := ExtractSound(h, txids, t, bits, hashes, c);
    var x := Extracted(h, |txids|, bits, hashes, false, []);
    assert x.vnIndex == index && x.vMatch == Pick(txids, index);
    assert forall p :: p in Leaves(t) ==> p < |txids|;
  }

  lemma {:induction false} FilterRange(mask: seq<bool>, lo: nat, hi: nat)
    requires lo < hi <= |mask|
    ensures Filter(mask, Range(lo, hi)) == (if mask[lo] then [lo] else []) + Filter(mask, Range(lo + 1, hi))
  {
    assert Range(lo, hi)[1..] == Range(lo + 1, hi);
  }

  lemma {:induction false} FilterLast(mask: seq<bool>, lo: nat, hi: nat)
    requires lo <= hi < |mask|
    ensures Filter(mask, Range(lo, hi + 1)) == Filter(mask, Range(lo, hi)) + if mask[hi] then [hi] else []
  {
    assert Range(lo, hi + 1) == Range(lo, hi) + [hi];
    FilterAppend(mask, Range(lo, hi), [hi]);
    assert Filter(mask, [hi][1..]) == [];
  }

  /** The positions selected by a mask, in order. */
  lemma {:induction false} FilterIsExact(mask: seq<bool>, lo: nat, hi: nat)
    requires lo <= hi <= |mask|
    ensures Increasing(Filter(mask, Range(lo, hi)))
    ensures forall p :: p in Filter(mask, Range(lo, hi)) <==> lo <= p < hi && mask[p]
    decreases hi - lo
  {
    if lo < hi {
      FilterIsExact(mask, lo + 1, hi);
      FilterRange(mask, lo, hi);
      if mask[lo] {
        IncreasingFirst(lo, Filter(mask, Range(lo + 1, hi)));
      }
    }
  }

  lemma {:induction false} IncreasingFirst(x: nat, s: seq<nat>)
    requires Increasing(s) && forall p :: p in s ==> x < p
    ensures Increasing([x] + s)
  {
    forall i, j | 0 <= i < j < |s| + 1 ensures ([x] + s)[i] < ([x] + s)[j] {
      assert s[j - 1] in s;
    }
  }

  /** The Merkle root, and the matched transactions with their positions. */
  function Matches(h: PairHash, txids: seq<Hash>, mask: seq<bool>): Extraction
    requires |txids| > 0
  {
    var index := Filter(mask, Range(0, |txids|));
    Extraction(CalcHash(h, txids, TreeHeight(|txids|), 0), Pick(txids, index), index, false)
  }

  /**
   Completeness: what the constructor stores for distinct transactions and any mask, as it is or with padding up to
   a whole byte, extracts to the Merkle root and to exactly the matched transactions with their positions, in order.
   */
  lemma {:induction false} ExtractionIsComplete(h: PairHash, txids: seq<Hash>, mask: seq<bool>, bits: seq<bool>)
    requires 0 < |txids| <= MAX_BLOCK_WEIGHT / MIN_TRANSACTION_WEIGHT && |mask| == |txids| && Distinct(txids)
    requires var pairs := TreePairs(h, txids, WholeTree(|txids|)); NoCollision(h, pairs, pairs)
    requires var b := Encode(h, txids, mask, WholeTree(|txids|)).bits; b <= bits && (|bits| + 7) / 8 == (|b| + 7) / 8
    ensures var e := Encode(h, txids, mask, WholeTree(|txids|));
            Extracted(h, |txids|, bits, e.hashes, false, []) == Matches(h, txids, mask)
  {
    var n := |txids|;
    var t := WholeTree(n);
    var e := Encode(h, txids, mask, t);
    var c := Cursor(0, 0, [], [], false);
    CalcHashIsRoot(h, txids, TreeHeight(n), 0);
    WholeTreeLeaves(n);
    DistinctLeaders(txids, TreeHeight(n), 0);
    DistinctSiblings(h, txids, t);
    assert bits[0..] == bits && e.hashes[0..] == e.hashes;
    ExtractEncoded(h, txids, mask, t, bits, e.hashes, c);
    ShapeLevel(n, TreeHeight(n), 0);
    HashBound(h, txids, mask, t, TreeHeight(n));
  }

  // ---------------------------------------------------------------- the class

  class PartialMerkleTree {
    const h: PairHash
    const nTransactions: nat
    var vBits: seq<bool>
    var vHash: seq<Hash>
    var fBad: bool

    constructor Build(h: PairHash, vTxid: seq<Hash>, mask: seq<bool>)
      requires |vTxid| > 0 && |mask| == |vTxid|
      ensures this.h == h && nTransactions == |vTxid| && !fBad
      ensures Encoding(vBits, vHash) == Encode(h, vTxid, mask, WholeTree(|vTxid|))
    {
      this.h, nTransactions, fBad := h, |vTxid|, false;
      vBits, vHash := [], [];
      new;
      var nHeight := CalcHeight();
      ghost var e := TraverseAndBuild(nHeight, 0, vTxid, mask);
    }

    /** Deserialization: the flag bits come as bytes. */
    constructor Receive(h: PairHash, nTransactions: nat, vHash: seq<Hash>, bytes: seq<bv8>)
      ensures this.h == h && this.nTransactions == nTransactions && this.vHash == vHash && !fBad
      ensures |vBits| == 8 * |bytes| && forall p :: 0 <= p < |vBits| ==> (vBits[p] <==> BitAt(bytes, p))
    {
      var bits := BytesToBits(bytes);
      this.h, this.nTransactions, this.vHash, this.vBits, fBad := h, nTransactions, vHash, bits, false;
    }

    /** A tree that was built gives back its matches, ... */
    static method BuildAndExtract(h: PairHash, vTxid: seq<Hash>, mask: seq<bool>) returns (x: Extraction)
      requires 0 < |vTxid| <= MAX_BLOCK_WEIGHT / MIN_TRANSACTION_WEIGHT && |mask| == |vTxid| && Distinct(vTxid)
      requires var pairs := TreePairs(h, vTxid, WholeTree(|vTxid|)); NoCollision(h, pairs, pairs)
      ensures x == Matches(h, vTxid, mask)
    {
      var tree := new PartialMerkleTree.Build(h, vTxid, mask);
      ExtractionIsComplete(h, vTxid, mask, tree.vBits);
      var root, vMatch, vnIndex := tree.ExtractMatches([]);
      x := Extraction(root, vMatch, vnIndex, tree.fBad);
    }

    /** ... and so does the tree that a peer makes of its bytes. */
    static method SendAndExtract(h: PairHash, vTxid: seq<Hash>, mask: seq<bool>) returns (x: Extraction)
      requires 0 < |vTxid| <= MAX_BLOCK_WEIGHT / MIN_TRANSACTION_WEIGHT && |mask| == |vTxid| && Distinct(vTxid)
      requires var pairs := TreePairs(h, vTxid, WholeTree(|vTxid|)); NoCollision(h, pairs, pairs)
      ensures x == Matches(h, vTxid, mask)
    {
      var sent := new PartialMerkleTree.Build(h, vTxid, mask);
      var bytes := BitsToBytes(sent.vBits);
      var tree := new PartialMerkleTree.Receive(h, sent.nTransactions, sent.vHash, bytes);
      ReceivedBits(sent.vBits, bytes, tree.vBits);
      ExtractionIsComplete(h, vTxid, mask, tree.vBits);
      var root, vMatch, vnIndex := tree.ExtractMatches([]);
      x := Extraction(root, vMatch, vnIndex, tree.fBad);
    }

    method CalcHeight() returns (nHeight: nat)
      ensures nHeight == TreeHeight(nTransactions)
    {
      nHeight := 0;
      var width := CalcTreeWidth(nHeight);
      while width > 1
        invariant width == Width(nTransactions, nHeight)
        invariant TreeHeightFrom(nTransactions, nHeight) == TreeHeight(nTransactions)
        decreases width
      {
        nHeight := nHeight + 1;
        width := CalcTreeWidth(nHeight);
      }
    }

    method CalcTreeWidth(height: nat) returns (w: nat)
      ensures w == Width(nTransactions, height)
    {
      WidthFormula(nTransactions, height);
      w := (nTransactions + Pow2(height) - 1) / Pow2(height);
    }

    /** pos << height. */
    method LeafBelow(height: nat, pos: nat) returns (p: nat)
      ensures p == First(height, pos)
    {
      FirstIs(height, pos);
      p := pos * Pow2(height);
    }

    method ParentOfMatch(height: nat, pos: nat, mask: seq<bool>) returns (r: bool)
      requires |mask| == nTransactions && pos < Width(nTransactions, height)
      ensures r == AnyMatch(mask, Shape(nTransactions, height, pos))
    {
      ShapeLeaves(nTransactions, height, pos);
      var lo := LeafBelow(height, pos);
      var hi := LeafBelow(height, pos + 1);
      r := false;
      var p := lo;
      while p < hi && p < nTransactions
        invariant lo <= p <= End(nTransactions, height, pos)
        invariant r <==> Filter(mask, Range(lo, p)) != []
      {
        FilterLast(mask, lo, p);
        r := r || mask[p];
        p := p + 1;
      }
    }

    method TraverseAndBuild(height: nat, pos: nat, vTxid: seq<Hash>, mask: seq<bool>) returns (ghost e: Encoding)
      requires |vTxid| == |mask| == nTransactions && pos < Width(nTransactions, height)
      modifies this`vBits, this`vHash
      ensures e == Stored(h, nTransactions, vTxid, mask, height, pos)
      ensures vBits == old(vBits) + e.bits && vHash == old(vHash) + e.hashes
      decreases height, 1
    {
      var parentOfMatch := ParentOfMatch(height, pos, mask);
      ghost var t := Shape(nTransactions, height, pos);
      ghost var b0, h0 := vBits, vHash;
      e := Stored(h, nTransactions, vTxid, mask, height, pos);
      vBits := vBits + [parentOfMatch];
      if height == 0 || !parentOfMatch {
        CalcHashIsRoot(h, vTxid, height, pos);
        vHash := vHash + [CalcHash(h, vTxid, height, pos)];
      } else {
        AppendNode(h, vTxid, mask, t, b0, h0);
        ghost var el, er := BuildChildren(height, pos, vTxid, mask);
      }
    }

    method BuildChildren(height: nat, pos: nat, vTxid: seq<Hash>, mask: seq<bool>)
        returns (ghost el: Encoding, ghost er: Encoding)
      requires height > 0 && |vTxid| == |mask| == nTransactions && pos < Width(nTransactions, height)
      modifies this`vBits, this`vHash
      ensures el == Stored(h, nTransactions, vTxid, mask, height - 1, pos * 2)
      ensures er == StoredIfAny(h, nTransactions, vTxid, mask, height - 1, pos * 2 + 1)
      ensures vBits == old(vBits) + el.bits + er.bits && vHash == old(vHash) + el.hashes + er.hashes
      decreases height, 0
    {
      LeftChild(nTransactions, height, pos);
      el := TraverseAndBuild(height - 1, pos * 2, vTxid, mask);
      er := Encoding([], []);
      var width := CalcTreeWidth(height - 1);
      if pos * 2 + 1 < width {
        er := TraverseAndBuild(height - 1, pos * 2 + 1, vTxid, mask);
      } else {
        assert vBits + [] == vBits && vHash + [] == vHash;
      }
    }

    method TraverseAndExtract(height: nat, pos: nat, nBitsUsed0: nat, nHashUsed0: nat, vMatch0: seq<Hash>,
                              vnIndex0: seq<nat>)
        returns (hash: Hash, nBitsUsed: nat, nHashUsed: nat, vMatch: seq<Hash>, vnIndex: seq<nat>)
      requires pos < Width(nTransactions, height)
      modifies this`fBad
      ensures (hash, Cursor(nBitsUsed, nHashUsed, vMatch, vnIndex, fBad))
           == Extract(h, vBits, vHash, Shape(nTransactions, height, pos),
                      Cursor(nBitsUsed0, nHashUsed0, vMatch0, vnIndex0, old(fBad)))
      decreases height
    {
      nBitsUsed, nHashUsed, vMatch, vnIndex := nBitsUsed0, nHashUsed0, vMatch0, vnIndex0;
      if nBitsUsed >= |vBits| {
        fBad := true;
        return NULL_HASH, nBitsUsed, nHashUsed, vMatch, vnIndex;
      }
      var parentOfMatch := vBits[nBitsUsed];
      nBitsUsed := nBitsUsed + 1;
      if height == 0 || !parentOfMatch {
        if nHashUsed >= |vHash| {
          fBad := true;
          return NULL_HASH, nBitsUsed, nHashUsed, vMatch, vnIndex;
        }
        hash := vHash[nHashUsed];
        nHashUsed := nHashUsed + 1;
        if height == 0 && parentOfMatch {
          vMatch := vMatch + [hash];
          vnIndex := vnIndex + [pos];
        }
      } else {
        var left, right;
        left, nBitsUsed, nHashUsed, vMatch, vnIndex :=
          TraverseAndExtract(height - 1, pos * 2, nBitsUsed, nHashUsed, vMatch, vnIndex);
        var width := CalcTreeWidth(height - 1);
        if pos * 2 + 1 < width {
          right, nBitsUsed, nHashUsed, vMatch, vnIndex :=
            TraverseAndExtract(height - 1, pos * 2 + 1, nBitsUsed, nHashUsed, vMatch, vnIndex);
          if right == left {
            fBad := true;
          }
        } else {
          right := left;
        }
        hash := h(left, right);
      }
    }

    method ExtractMatches(vnIndex0: seq<nat>) returns (root: Hash, vMatch: seq<Hash>, vnIndex: seq<nat>)
      modifies this`fBad
      ensures Extraction(root, vMatch, vnIndex, fBad) == Extracted(h, nTransactions, vBits, vHash, old(fBad), vnIndex0)
    {
      vMatch, vnIndex := [], vnIndex0;
      if nTransactions == 0 || nTransactions > MAX_BLOCK_WEIGHT / MIN_TRANSACTION_WEIGHT {
        return NULL_HASH, vMatch, vnIndex;
      }
      if |vHash| > nTransactions || |vBits| < |vHash| {
        return NULL_HASH, vMatch, vnIndex;
      }
      var nHeight := CalcHeight();
      var nBitsUsed, nHashUsed := 0, 0;
      root, nBitsUsed, nHashUsed, vMatch,
      vnIndex := TraverseAndExtract(nHeight, 0, nBitsUsed, nHashUsed, vMatch, vnIndex);
      if fBad || (nBitsUsed + 7) / 8 != (|vBits| + 7) / 8 || nHashUsed != |vHash| {
        return NULL_HASH, vMatch, vnIndex;
      }
    }
  }
}
