/**
 The block tree with its skip pointers and the active chain (src/chain.cpp, src/chain.h).

 A block index entry is named by its position in the list of all entries; a parent is
 entered before its children and only the first entry, the genesis block, has none. The
 null pointer is NONE.
 */
module Chain {
  import opened Numbers

  const NONE := -1

  datatype Node = Node(pprev: int, pskip: int, nHeight: nat)

  type Tree = seq<Node>

  // ---------------------------------------------------------------- skip heights

  /** Bitwise and. */
  function And(x: nat, y: nat): (r: nat)
    ensures r <= x && r <= y
  {
    if x == 0 || y == 0 then 0
    else 2 * And(x / 2, y / 2) + if x % 2 == 1 && y % 2 == 1 then 1 else 0
  }

  function InvertLowestOne(n: nat): (r: nat)
    ensures r <= n && (n > 0 ==> r < n)
  {
    if n == 0 then 0 else And(n, n - 1)
  }

  function GetSkipHeight(height: nat): (r: nat)
    ensures height > 0 ==> r < height
    ensures height == 0 ==> r == 0
  {
    if height < 2 then 0
    else if height % 2 == 1 then InvertLowestOne(InvertLowestOne(height - 1)) + 1
    else InvertLowestOne(height)
  }

  // ---------------------------------------------------------------- the length of a walk

  /** Whether the walk to height `t` takes the skip pointer at height `h`. */
  predicate Skips(h: nat, t: int)
    requires h > 0
  {
    var skip, skipPrev := GetSkipHeight(h), GetSkipHeight(h - 1);
    skip == t || (skip > t && !(skipPrev < skip - 2 && skipPrev >= t))
  }

  /** The steps of the walk from height `h` to height `t`, with all skip pointers set. */
  function Steps(h: nat, t: nat): (n: nat)
    requires t <= h
    decreases h
  {
    if h == t then 0 else 1 + Steps(if Skips(h, t) then GetSkipHeight(h) else h - 1, t)
  }

  // ---------------------------------------------------------------- ancestors

  ghost predicate LinkOk(t: Tree, i: nat)
    requires i < |t|
  {
    if i == 0 then t[i].pprev == NONE && t[i].nHeight == 0
    else 0 <= t[i].pprev < i && t[i].nHeight == t[t[i].pprev].nHeight + 1
  }

  ghost predicate Linked(t: Tree) {
    forall i {:trigger LinkOk(t, i)} :: 0 <= i < |t| ==> LinkOk(t, i)
  }

  /** The ancestor of block `i` at height `h`, by following pprev. */
  ghost function Ancestor(t: Tree, i: nat, h: nat): (a: nat)
    requires Linked(t) && i < |t| && h <= t[i].nHeight
    ensures a <= i && t[a].nHeight == h
    decreases i
  {
    assert LinkOk(t, i);
    if t[i].nHeight == h then i else Ancestor(t, t[i].pprev, h)
  }

  /** Every skip pointer that is set leads to the ancestor at the skip height. */
  ghost predicate Skipped(t: Tree)
    requires Linked(t)
  {
    forall i {:trigger SkipOk(t, i)} :: 0 <= i < |t| ==> SkipOk(t, i)
  }

  ghost predicate SkipOk(t: Tree, i: nat)
    requires Linked(t) && i < |t|
  {
    t[i].pskip != NONE ==> t[i].pskip == Ancestor(t, i, GetSkipHeight(t[i].nHeight))
  }

  ghost predicate Ok(t: Tree) {
    Linked(t) && |t| > 0 && Skipped(t)
  }

  lemma {:induction false} AncestorTwice(t: Tree, i: nat, h: nat, g: nat)
    requires Linked(t) && i < |t| && g <= h <= t[i].nHeight
    ensures Ancestor(t, Ancestor(t, i, h), g) == Ancestor(t, i, g)
    decreases i
  {
    assert LinkOk(t, i);
    if t[i].nHeight != h {
      AncestorTwice(t, t[i].pprev, h, g);
    }
  }

  lemma {:induction false} AncestorPrefix(t: Tree, u: Tree, i: nat, h: nat)
    requires Linked(t) && Linked(u) && t <= u && i < |t| && h <= t[i].nHeight
    ensures u[i] == t[i] && Ancestor(u, i, h) == Ancestor(t, i, h)
    decreases i
  {
    assert LinkOk(t, i);
    if t[i].nHeight != h {
      AncestorPrefix(t, u, t[i].pprev, h);
    }
  }

  /** Only the genesis block has height 0. */
  lemma {:induction false} GenesisOnly(t: Tree, i: nat)
    requires Linked(t) && i < |t| && t[i].nHeight == 0
    ensures i == 0
  {
    assert LinkOk(t, i);
  }

  /** Every block but the genesis block has a skip pointer. */
  ghost predicate AllSkips(t: Tree) {
    forall i :: 0 < i < |t| ==> t[i].pskip != NONE
  }

  /** The walk along the skip list gives what the walk along pprev gives; it takes the steps counted above. */
  method GetAncestor(t: Tree, i: nat, height: int) returns (r: int, ghost steps: nat)
    requires Ok(t) && i < |t|
    ensures r == if 0 <= height <= t[i].nHeight then Ancestor(t, i, height) else NONE
    ensures AllSkips(t) && 0 <= height <= t[i].nHeight ==> steps == Steps(t[i].nHeight, height)
  {
    steps := 0;
    if height > t[i].nHeight || height < 0 {
      return NONE, steps;
    }
    var walk: nat, heightWalk := i, t[i].nHeight;
    while heightWalk > height
      invariant walk < |t| && t[walk].nHeight == heightWalk >= height
      invariant Ancestor(t, walk, height) == Ancestor(t, i, height)
      invariant AllSkips(t) ==> steps + Steps(heightWalk, height) == Steps(t[i].nHeight, height)
      decreases heightWalk
    {
      assert LinkOk(t, walk) && SkipOk(t, walk);
      var heightSkip := GetSkipHeight(heightWalk);
      var heightSkipPrev := GetSkipHeight(heightWalk - 1);
      if t[walk].pskip != NONE &&
         (heightSkip == height ||
          (heightSkip > height && !(heightSkipPrev < heightSkip - 2 && heightSkipPrev >= height)))
      {
        AncestorTwice(t, walk, heightSkip, height);
        walk, heightWalk := t[walk].pskip, heightSkip;
      } else {
        walk, heightWalk := t[walk].pprev, heightWalk - 1;
      }
      steps := steps + 1;
    }
    return walk, steps;
  }

  /** The block tree under construction. */
  class BlockIndex {
    var nodes: Tree

    constructor ()
      ensures Ok(nodes) && AllSkips(nodes) && nodes == [Node(NONE, NONE, 0)]
    {
      nodes := [Node(NONE, NONE, 0)];
    }

    /** Enter a block on top of `pprev`, with BuildSkip. */
    method Insert(pprev: nat) returns (i: nat)
      requires Ok(nodes) && pprev < |nodes|
      modifies this
      ensures Ok(nodes) && i == |old(nodes)| && |nodes| == i + 1 && old(nodes) <= nodes
      ensures nodes[i].pprev == pprev && nodes[i].nHeight == nodes[pprev].nHeight + 1
      ensures nodes[i].pskip == Ancestor(nodes, i, GetSkipHeight(nodes[i].nHeight))
      ensures old(AllSkips(nodes)) ==> AllSkips(nodes)
    {
      ghost var t := nodes;
      var h := nodes[pprev].nHeight + 1;
      var skip, steps := GetAncestor(nodes, pprev, GetSkipHeight(h));
      i := |nodes|;
      nodes := nodes + [Node(pprev, skip, h)];
      InsertKeeps(t, nodes);
    }
  }

  lemma {:induction false} InsertKeeps(t: Tree, u: Tree)
    requires Ok(t) && |u| == |t| + 1 && t <= u
    requires var n := u[|t|]; 0 <= n.pprev < |t| && n.nHeight == t[n.pprev].nHeight + 1 &&
                              n.pskip == Ancestor(t, n.pprev, GetSkipHeight(n.nHeight))
    ensures Ok(u) && u[|t|].pskip == Ancestor(u, |t|, GetSkipHeight(u[|t|].nHeight))
  {
    forall i | 0 <= i < |u| ensures LinkOk(u, i) {
      assert i < |t| ==> LinkOk(t, i);
    }
    AncestorPrefix(t, u, u[|t|].pprev, GetSkipHeight(u[|t|].nHeight));
    forall i | 0 <= i < |u| ensures SkipOk(u, i) {
      if i < |t| {
        assert LinkOk(t, i) && SkipOk(t, i);
        AncestorPrefix(t, u, i, GetSkipHeight(t[i].nHeight));
      }
    }
  }

  /** The last block that two branches have in common. */
  method LastCommonAncestor(t: Tree, a: nat, b: nat) returns (r: nat)
    requires Ok(t) && a < |t| && b < |t|
    ensures r < |t| && t[r].nHeight <= t[a].nHeight && t[r].nHeight <= t[b].nHeight
    ensures r == Ancestor(t, a, t[r].nHeight) == Ancestor(t, b, t[r].nHeight)
    ensures forall h :: t[r].nHeight < h <= t[a].nHeight && h <= t[b].nHeight ==> Ancestor(t, a, h) != Ancestor(t, b, h)
  {
    var pa: int, pb: int := a, b;
    ghost var steps: nat;
    if t[a].nHeight > t[b].nHeight {
      pa, steps := GetAncestor(t, a, t[b].nHeight);
    } else if t[b].nHeight > t[a].nHeight {
      pb, steps := GetAncestor(t, b, t[a].nHeight);
    }
    while pa != pb && pa != NONE && pb != NONE
      invariant 0 <= pa < |t| && 0 <= pb < |t| && t[pa].nHeight == t[pb].nHeight
      invariant t[pa].nHeight <= t[a].nHeight && t[pa].nHeight <= t[b].nHeight
      invariant pa == Ancestor(t, a, t[pa].nHeight) && pb == Ancestor(t, b, t[pa].nHeight)
      invariant forall h :: t[pa].nHeight < h <= t[a].nHeight && h <= t[b].nHeight ==>
                  Ancestor(t, a, h) != Ancestor(t, b, h)
      decreases pa
    {
      assert LinkOk(t, pa) && LinkOk(t, pb);
      if t[pa].nHeight > 0 {
        AncestorTwice(t, a, t[pa].nHeight, t[pa].nHeight - 1);
        AncestorTwice(t, b, t[pa].nHeight, t[pa].nHeight - 1);
      }
      pa, pb := t[pa].pprev, t[pb].pprev;
    }
    r := pa;
  }

  // ---------------------------------------------------------------- the active chain

  ghost predicate Follows(t: Tree, v: seq<int>, j: nat)
    requires j < |v|
  {
    0 <= v[j] < |t| && t[v[j]].nHeight == j && (j > 0 ==> t[v[j]].pprev == v[j - 1])
  }

  /** The slots hold a branch, from the genesis block on. */
  ghost predicate Branch(t: Tree, v: seq<int>) {
    forall j {:trigger Follows(t, v, j)} :: 0 <= j < |v| ==> Follows(t, v, j)
  }

  /** Every slot of a branch holds the ancestor, at its height, of every later one. */
  lemma {:induction false} BranchAncestor(t: Tree, v: seq<int>, j: nat, k: nat)
    requires Linked(t) && Branch(t, v) && j <= k < |v|
    ensures 0 <= v[j] < |t| && 0 <= v[k] < |t| && t[v[k]].nHeight == k && t[v[j]].nHeight == j
    ensures v[j] == Ancestor(t, v[k], j)
  {
    assert Follows(t, v, k) && Follows(t, v, j);
    if j < k {
      BranchAncestor(t, v, j, k - 1);
    }
  }

  /** `r` is on the branch, below or equal to block `i`, and no block between them is. */
  ghost predicate IsFork(t: Tree, v: seq<int>, i: nat, r: int)
    requires Linked(t) && i < |t|
  {
    && 0 <= r < |t| && t[r].nHeight <= t[i].nHeight && r == Ancestor(t, i, t[r].nHeight) && OnBranch(t, v, r)
    && forall h :: t[r].nHeight < h <= t[i].nHeight ==> !OnBranch(t, v, Ancestor(t, i, h))
  }

  predicate OnBranch(t: Tree, v: seq<int>, i: nat)
    requires i < |t|
  {
    t[i].nHeight < |v| && v[t[i].nHeight] == i
  }

  class CChain {
    var vChain: seq<int>

    constructor ()
      ensures vChain == []
    {
      vChain := [];
    }

    function Height(): int
      reads this
    {
      |vChain| - 1
    }

    function Tip(): int
      reads this
    {
      if |vChain| > 0 then vChain[|vChain| - 1] else NONE
    }

    function At(h: int): int
      reads this
    {
      if h < 0 || h >= |vChain| then NONE else vChain[h]
    }

    predicate Contains(t: Tree, i: nat)
      requires i < |t|
      reads this
    {
      At(t[i].nHeight) == i
    }

    /** Looking into one slot tells whether a block is the tip or one of its ancestors. */
    lemma {:induction false} ContainsIff(t: Tree, i: nat)
      requires Ok(t) && Branch(t, vChain) && i < |t|
      ensures vChain != [] ==> 0 <= Tip() < |t|
      ensures Contains(t, i) <==>
                vChain != [] && t[i].nHeight <= t[Tip()].nHeight && i == Ancestor(t, Tip(), t[i].nHeight)
    {
      if vChain != [] {
        var top := |vChain| - 1;
        assert Follows(t, vChain, top);
        if t[i].nHeight <= top {
          BranchAncestor(t, vChain, t[i].nHeight, top);
        }
      }
    }

    /** After SetTip the chain is the branch of the new tip, although only the slots down to
        the first one that was right already are written. */
    method SetTip(t: Tree, tip: int)
      requires Ok(t) && Branch(t, vChain) && (tip == NONE || 0 <= tip < |t|)
      modifies this
      ensures Branch(t, vChain) && Tip() == tip
      ensures tip != NONE ==> |vChain| == t[tip].nHeight + 1 && forall h :: 0 <= h < |vChain| ==>
                vChain[h] == Ancestor(t, tip, h)
      ensures tip == NONE ==> vChain == []
    {
      if tip == NONE {
        vChain := [];
        return;
      }
      ghost var v0 := vChain;
      var top := t[tip].nHeight;
      vChain := if |vChain| > top then vChain[..top + 1] else vChain + seq(top + 1 - |vChain|, _ => NONE);
      var i := tip;
      while i != NONE && vChain[t[i].nHeight] != i
        invariant i == NONE || (0 <= i < |t| && t[i].nHeight <= top)
        invariant |vChain| == top + 1
        invariant i != NONE ==> Written(t, vChain, t[i].nHeight + 1, i) && (t[i].nHeight == top ==> i == tip)
        invariant i == NONE ==> Written(t, vChain, 0, NONE)
        invariant i == NONE || t[i].nHeight < top ==> vChain[top] == tip
        invariant i != NONE ==> forall j :: 0 <= j <= t[i].nHeight ==> vChain[j] == if j < |v0| then v0[j] else NONE
        decreases i
      {
        assert LinkOk(t, i);
        ghost var v := vChain;
        vChain := vChain[t[i].nHeight := i];
        WriteSlot(t, v, t[i].nHeight, i);
        i := t[i].pprev;
      }
      if i != NONE {
        Joined(t, v0, vChain, t[i].nHeight);
      } else {
        forall j | 0 <= j < |vChain| ensures Follows(t, vChain, j) {
          assert Above(t, vChain, 0, NONE, j);
        }
      }
      forall h | 0 <= h < |vChain| ensures vChain[h] == Ancestor(t, tip, h) {
        BranchAncestor(t, vChain, h, top);
      }
    }

    /** The highest block of the chain that is `i` or one of its ancestors. */
    method FindFork(t: Tree, i: int) returns (r: int)
      requires Ok(t) && Branch(t, vChain) && (i == NONE || 0 <= i < |t|)
      ensures r == NONE <==> i == NONE || vChain == []
      ensures r != NONE ==> IsFork(t, vChain, i, r)
    {
      if i == NONE {
        return NONE;
      }
      r := i;
      if t[i].nHeight > Height() {
        ghost var steps: nat;
        r, steps := GetAncestor(t, i, Height());
      }
      while r != NONE && !Contains(t, r)
        invariant r == NONE ==> vChain == []
        invariant r != NONE ==>
                    0 <= r < |t| && vChain != [] && t[r].nHeight <= t[i].nHeight && r == Ancestor(t, i, t[r].nHeight)
        invariant r != NONE ==> forall h :: t[r].nHeight < h <= t[i].nHeight ==> !OnBranch(t, vChain, Ancestor(t, i, h))
        decreases r
      {
        assert LinkOk(t, r);
        if t[r].nHeight == 0 {
          assert Follows(t, vChain, 0);
          GenesisOnly(t, vChain[0]);
        } else {
          AncestorTwice(t, i, t[r].nHeight, t[r].nHeight - 1);
        }
        r := t[r].pprev;
      }
    }

    /** The blocks at the heights of the locator, on the branch of the given block or of the tip. */
    method GetLocator(t: Tree, start: int) returns (have: seq<int>)
      requires Ok(t) && Branch(t, vChain) && (start == NONE || 0 <= start < |t|)
      ensures start == NONE && vChain == [] ==> have == []
      ensures var i := if start == NONE then Tip() else start;
              i != NONE ==> 0 <= i < |t| && IsLocator(t, i, LocatorHeights(t[i].nHeight, 1, 1), have)
    {
      have := [];
      var nStep, i := 1, if start == NONE then Tip() else start;
      if i == NONE {
        return;
      }
      assert start == NONE ==> Follows(t, vChain, |vChain| - 1);
      ghost var first := i;
      ghost var done: seq<nat> := [];
      ghost var all := LocatorHeights(t[first].nHeight, 1, 1);
      while true
        invariant 0 <= i < |t| && nStep >= 1 && t[i].nHeight <= t[first].nHeight
                  && i == Ancestor(t, first, t[i].nHeight)
        invariant IsLocator(t, first, done, have)
        invariant all == done + LocatorHeights(t[i].nHeight, nStep, |have| + 1)
        decreases t[i].nHeight
      {
        ghost var h, done0, step0, n0 := t[i].nHeight, done, nStep, |have| + 1;
        LocatorAppend(t, first, done, have, h, i);
        have, done := have + [i], done + [h];
        if t[i].nHeight == 0 {
          assert LocatorHeights(0, nStep, n0) == [0];
          return;
        }
        var nHeight := if t[i].nHeight > nStep then t[i].nHeight - nStep else 0;
        i := StepBack(t, i, nHeight, first);
        if |have| > 10 {
          nStep := nStep * 2;
        }
        TakeHeight(all, done0, h, step0, n0, nHeight, nStep);
      }
    }

    /** The ancestor at a height, by the chain where the block is on it and by the skip list otherwise. */
    method StepBack(t: Tree, i: nat, nHeight: nat, ghost first: nat) returns (r: int)
      requires Ok(t) && Branch(t, vChain) && i < |t| && nHeight <= t[i].nHeight
      requires first < |t| && t[i].nHeight <= t[first].nHeight && i == Ancestor(t, first, t[i].nHeight)
      ensures r == Ancestor(t, i, nHeight) == Ancestor(t, first, nHeight)
      ensures 0 <= r < |t| && t[r].nHeight == nHeight
    {
      AncestorTwice(t, first, t[i].nHeight, nHeight);
      if Contains(t, i) {
        BranchAncestor(t, vChain, nHeight, t[i].nHeight);
        r := At(nHeight);
      } else {
        ghost var steps: nat;
        r, steps := GetAncestor(t, i, nHeight);
      }
    }
  }

  // ---------------------------------------------------------------- writing the chain

  /** Slot `j`, above `h`, is right, with block `i` expected just below. */
  ghost predicate Above(t: Tree, v: seq<int>, h: nat, i: int, j: nat)
    requires h <= j < |v|
  {
    0 <= v[j] < |t| && t[v[j]].nHeight == j && t[v[j]].pprev == if j == h then i else v[j - 1]
  }

  ghost predicate Written(t: Tree, v: seq<int>, h: nat, i: int) {
    forall j {:trigger Above(t, v, h, i, j)} :: h <= j < |v| ==> Above(t, v, h, i, j)
  }

  lemma {:induction false} WriteSlot(t: Tree, v: seq<int>, h: nat, i: nat)
    requires Linked(t) && i < |t| && t[i].nHeight == h < |v| && Written(t, v, h + 1, i)
    ensures Written(t, v[h := i], h, t[i].pprev)
  {
    var p, v' := t[i].pprev, v[h := i];
    forall j | h <= j < |v| ensures Above(t, v', h, p, j) {
      assert j > h ==> Above(t, v, h + 1, i, j);
    }
  }

  /** The written slots meet an unchanged slot that belongs to the old branch. */
  lemma {:induction false} Joined(t: Tree, v0: seq<int>, v: seq<int>, h: nat)
    requires Linked(t) && Branch(t, v0) && h < |v| && v[h] != NONE && Written(t, v, h + 1, v[h])
    requires forall j :: 0 <= j <= h ==> v[j] == if j < |v0| then v0[j] else NONE
    ensures Branch(t, v)
  {
    forall j | 0 <= j < |v| ensures Follows(t, v, j) {
      if j > h {
        assert Above(t, v, h + 1, v[h], j);
      } else {
        assert Follows(t, v0, j);
      }
    }
  }

  // ---------------------------------------------------------------- locators

  /** The heights of a locator: single steps for the first eleven entries, then steps that double, then 0. */
  function LocatorHeights(h: nat, step: nat, n: nat): (s: seq<nat>)
    requires step >= 1
    ensures |s| > 0 && s[0] == h && s[|s| - 1] == 0
    decreases h
  {
    if h == 0 then [0]
    else [h] + LocatorHeights(if h > step then h - step else 0, if n > 10 then 2 * step else step, n + 1)
  }

  /** One height after another. */
  lemma {:induction false} TakeHeight(all: seq<nat>, done: seq<nat>, h: nat, step: nat, n: nat, h': nat, step': nat)
    requires step >= 1 && h > 0 && all == done + LocatorHeights(h, step, n)
    requires h' == (if h > step then h - step else 0) && step' == (if n > 10 then 2 * step else step)
    ensures all == (done + [h]) + LocatorHeights(h', step', n + 1)
  {
    assert LocatorHeights(h, step, n) == [h] + LocatorHeights(h', step', n + 1);
  }

  ghost predicate IsLocator(t: Tree, i: nat, heights: seq<nat>, have: seq<int>)
    requires Linked(t) && i < |t|
  {
    && |have| == |heights|
    && forall j {:trigger LocatorAt(t, i, heights[j], have[j])} :: 0 <= j < |have| ==>
         LocatorAt(t, i, heights[j], have[j])
  }

  ghost predicate LocatorAt(t: Tree, i: nat, h: nat, r: int)
    requires Linked(t) && i < |t|
  {
    h <= t[i].nHeight && r == Ancestor(t, i, h)
  }

  /** The heights go down strictly, from `h` to 0. */
  lemma {:induction false} LocatorDescends(h: nat, step: nat, n: nat, j: nat)
    requires step >= 1 && 0 < j < |LocatorHeights(h, step, n)|
    ensures LocatorHeights(h, step, n)[j] < LocatorHeights(h, step, n)[j - 1]
    decreases h
  {
    var h', step' := if h > step then h - step else 0, if n > 10 then 2 * step else step;
    if j > 1 {
      LocatorDescends(h', step', n + 1, j - 1);
    }
  }

  lemma {:induction false} LocatorAppend(t: Tree, first: nat, heights: seq<nat>, have: seq<int>, h: nat, i: int)
    requires Linked(t) && first < |t| && IsLocator(t, first, heights, have)
    requires LocatorAt(t, first, h, i)
    ensures IsLocator(t, first, heights + [h], have + [i])
  {
    var heights', have' := heights + [h], have + [i];
    forall j | 0 <= j < |have'| ensures LocatorAt(t, first, heights'[j], have'[j]) {
      assert j < |have| ==> LocatorAt(t, first, heights[j], have[j]);
    }
  }

  /** Once the steps double, a locator has at most one entry per remaining power of two. */
  lemma {:induction false} DoublingBound(h: nat, k: nat, m: nat, n: nat)
    requires n > 10 && k <= m && h <= Pow2(m) - Pow2(k)
    ensures |LocatorHeights(h, Pow2(k), n)| <= m - k + 1
    decreases m - k
  {
    if h > 0 {
      if k == m {
        assert false;
      }
      var h' := if h > Pow2(k) then h - Pow2(k) else 0;
      Pow2Mono(k + 1, m);
      DoublingBound(h', k + 1, m, n + 1);
    }
  }

  /** A locator from height h has at most 11 + m entries if h < 2^m. */
  lemma {:induction false} LocatorBound(h: nat, n: nat, m: nat)
    requires 1 <= n <= 11 && h < Pow2(m)
    ensures |LocatorHeights(h, 1, n)| <= 12 - n + m
    decreases 11 - n
  {
    if n == 11 {
      if h > 0 {
        DoublingBound(h - 1, 1, m, 12);
      }
    } else if h > 0 {
      LocatorBound(h - 1, n + 1, m);
    }
  }
}
