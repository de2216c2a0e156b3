/**
 The cuckoo cache of validation results (src/cuckoocache.h): a table with eight hash
 locations per element, a garbage flag and an epoch flag per slot, and a counter that
 decides when the epochs are scanned and aged.

 The eight hash functions, the default element that fills a new table and the depth
 limit (a logarithm that the source computes in floating point) are parameters.
 */
module CuckooCache {
  import opened Hashing
  import opened Numbers

  type Element = nat

  // ---------------------------------------------------------------- slots

  /** How many live slots, those not marked as garbage, hold `x` with epoch flag `f`. */
  ghost function Copies(t: seq<Element>, ep: seq<bool>, gc: seq<bool>, x: Element, f: bool, n: nat): (c: nat)
    requires |t| == |ep| == |gc| && n <= |t|
  {
    if n == 0 then 0
    else Copies(t, ep, gc, x, f, n - 1) + One(t[n - 1] == x && ep[n - 1] == f && !gc[n - 1])
  }

  /** The number of live slots whose epoch flag is `f`. */
  ghost function Count(ep: seq<bool>, gc: seq<bool>, f: bool, n: nat): (c: nat)
    requires |ep| == |gc| && n <= |ep|
    ensures c <= n
  {
    if n == 0 then 0 else Count(ep, gc, f, n - 1) + One(ep[n - 1] == f && !gc[n - 1])
  }

  lemma {:induction false} CopiesUpdate(t: seq<Element>, ep: seq<bool>, gc: seq<bool>, x: Element, f: bool, n: nat,
                                        i: nat, y: Element, e: bool, g: bool)
    requires |t| == |ep| == |gc| && n <= |t| && i < |t|
    ensures Copies(t[i := y], ep[i := e], gc[i := g], x, f, n)
         == Copies(t, ep, gc, x, f, n)
          + if i < n then One(y == x && e == f && !g) - One(t[i] == x && ep[i] == f && !gc[i]) else 0
  {
    if n > 0 {
      CopiesUpdate(t, ep, gc, x, f, n - 1, i, y, e, g);
    }
  }

  lemma {:induction false} CountUpdate(ep: seq<bool>, gc: seq<bool>, f: bool, n: nat, i: nat, e: bool, g: bool)
    requires |ep| == |gc| && n <= |ep| && i < |ep|
    ensures Count(ep[i := e], gc[i := g], f, n)
         == Count(ep, gc, f, n) + if i < n then One(e == f && !g) - One(ep[i] == f && !gc[i]) else 0
  {
    if n > 0 {
      CountUpdate(ep, gc, f, n - 1, i, e, g);
    }
  }

  lemma {:induction false} CountBelow(ep: seq<bool>, gc: seq<bool>, ep': seq<bool>, gc': seq<bool>, f: bool, f': bool,
                                      n: nat)
    requires |ep| == |gc| == |ep'| == |gc'| && n <= |ep|
    requires forall i :: 0 <= i < |ep| && ep'[i] == f' && !gc'[i] ==> ep[i] == f && !gc[i]
    ensures Count(ep', gc', f', n) <= Count(ep, gc, f, n)
  {
    if n > 0 {
      CountBelow(ep, gc, ep', gc', f, f', n - 1);
    }
  }

  /** Aging: what was recent is now old, and what was old is garbage. */
  lemma {:induction false} AgingAges(t: seq<Element>, ep: seq<bool>, gc: seq<bool>, ep': seq<bool>, gc': seq<bool>,
                                     x: Element, n: nat)
    requires |t| == |ep| == |gc| == |ep'| == |gc'| && n <= |t|
    requires forall i :: 0 <= i < |t| ==> !ep'[i] && gc'[i] == (gc[i] || !ep[i])
    ensures Copies(t, ep', gc', x, true, n) == 0
    ensures Copies(t, ep', gc', x, false, n) == Copies(t, ep, gc, x, true, n)
  {
    if n > 0 {
      AgingAges(t, ep, gc, ep', gc', x, n - 1);
    }
  }

  // ---------------------------------------------------------------- displacement

  /** The three vectors of the cache. */
  datatype Slots = Slots(t: seq<Element>, ep: seq<bool>, gc: seq<bool>) {
    ghost predicate Ok() {
      |t| == |ep| == |gc|
    }

    ghost function Alive(x: Element, f: bool): nat
      requires Ok()
    {
      Copies(t, ep, gc, x, f, |t|)
    }

    ghost function Counted(f: bool): nat
      requires Ok()
    {
      Count(ep, gc, f, |ep|)
    }

    function Put(i: nat, x: Element, e: bool, g: bool): (s: Slots)
      requires i < |t| == |ep| == |gc|
      ensures s.Ok() && |s.t| == |t|
    {
      Slots(t[i := x], ep[i := e], gc[i := g])
    }

    lemma {:induction false} PutEffect(i: nat, x: Element, e: bool, g: bool)
      requires Ok() && i < |t|
      ensures var s := Put(i, x, e, g);
              && multiset(s.t) == multiset(t) - multiset{t[i]} + multiset{x}
              && s.Counted(true) == Counted(true) + One(e && !g) - One(ep[i] && !gc[i])
              && s.Counted(false) == Counted(false) + One(!e && !g) - One(!ep[i] && !gc[i])
    {
      CountUpdate(ep, gc, true, |ep|, i, e, g);
      CountUpdate(ep, gc, false, |ep|, i, e, g);
    }

    lemma {:induction false} PutAlive(i: nat, x: Element, e: bool, g: bool, y: Element, f: bool)
      requires Ok() && i < |t|
      ensures Put(i, x, e, g).Alive(y, f) == Alive(y, f)
              + One(x == y && e == f && !g) - One(t[i] == y && ep[i] == f && !gc[i])
    {
      CopiesUpdate(t, ep, gc, y, f, |t|, i, x, e, g);
    }
  }

  /** Since `s0` element `e` was put in, and `cur` with its epoch flag is in hand: as multisets,
      nothing else has changed. */
  ghost predicate Carrying(s0: Slots, e: Element, s: Slots, cur: Element, flag: bool)
    requires s0.Ok() && s.Ok()
  {
    && |s.t| == |s0.t| && s.gc == s0.gc
    && (forall i :: 0 <= i < |s.t| && s0.gc[i] ==> s.t[i] == s0.t[i])
    && multiset(s.t) + multiset{cur} == multiset(s0.t) + multiset{e}
    && s.Counted(true) + One(flag) == s0.Counted(true) + 1
    && s.Counted(false) + One(!flag) == s0.Counted(false)
    && (forall x, f {:trigger s.Alive(x, f)} ::
          s.Alive(x, f) + One(x == cur && f == flag) == s0.Alive(x, f) + One(x == e && f))
  }

  lemma {:induction false} SwapCarries(s0: Slots, e: Element, s: Slots, cur: Element, flag: bool, i: nat)
    requires s0.Ok() && s.Ok() && Carrying(s0, e, s, cur, flag) && i < |s.t| && !s.gc[i]
    ensures Carrying(s0, e, s.Put(i, cur, flag, false), s.t[i], s.ep[i])
  {
    var s' := s.Put(i, cur, flag, false);
    s.PutEffect(i, cur, flag, false);
    forall x, f ensures s'.Alive(x, f) + One(x == s.t[i] && f == s.ep[i]) == s0.Alive(x, f) + One(x == e && f) {
      s.PutAlive(i, cur, flag, false, x, f);
    }
  }

  /** Putting the element in hand into a garbage slot loses only garbage. */
  lemma {:induction false} ReuseConserves(s0: Slots, e: Element, s: Slots, cur: Element, flag: bool, i: nat)
    requires s0.Ok() && s.Ok() && Carrying(s0, e, s, cur, flag) && i < |s.t| && s.gc[i]
    ensures var s' := s.Put(i, cur, flag, false);
            && multiset(s'.t) + multiset{s0.t[i]} == multiset(s0.t) + multiset{e}
            && s'.Counted(true) == s0.Counted(true) + 1 && s'.Counted(false) == s0.Counted(false)
            && (forall x, f {:trigger s'.Alive(x, f)} :: s'.Alive(x, f) == s0.Alive(x, f) + One(x == e && f))
  {
    var s' := s.Put(i, cur, flag, false);
    s.PutEffect(i, cur, flag, false);
    forall x, f ensures s'.Alive(x, f) == s0.Alive(x, f) + One(x == e && f) {
      s.PutAlive(i, cur, flag, false, x, f);
      assert s.Alive(x, f) + One(x == cur && f == flag) == s0.Alive(x, f) + One(x == e && f);
    }
  }

  // ---------------------------------------------------------------- where the next displacement goes

  /** std::find: the first position of `x`, or the length. */
  function Find(s: seq<nat>, x: int): (k: nat)
    ensures k <= |s|
    ensures k < |s| ==> s[k] == x
    ensures forall j :: 0 <= j < k ==> s[j] != x
    ensures x !in s ==> k == |s|
  {
    if s == [] || s[0] == x then 0 else
      var k := Find(s[1..], x);
      assert forall j :: 1 <= j < k + 1 ==> s[j] == s[1..][j - 1];
      k + 1
  }

  const INVALID := -1

  /** The location after the last one. The first displacement is from the second location. */
  function NextLoc(locs: seq<nat>, last: int): (loc: nat)
    requires |locs| == 8
    ensures loc in locs
    ensures last !in locs ==> loc == locs[1]
    ensures last in locs ==> exists k :: 0 <= k < 8 && locs[k] == last && loc == locs[if k == 7 then 0 else k + 1]
  {
    locs[(1 + Find(locs, last)) % 8]
  }

  ghost predicate FirstAt(locs: seq<nat>, x: nat, k: nat) {
    k < |locs| && locs[k] == x && forall j :: 0 <= j < k ==> locs[j] != x
  }

  /** The swap takes out the element just put in exactly if its location is the next one again, which needs two
      equal locations in a row. */
  lemma {:induction false} PutInIsMoved(locs: seq<nat>, last: nat)
    requires |locs| == 8 && last in locs
    ensures NextLoc(locs, last) == last <==> exists k: nat :: k < 7 && FirstAt(locs, last, k) && locs[k + 1] == last
    ensures (forall k :: 0 <= k < 7 ==> locs[k] != locs[k + 1]) ==> NextLoc(locs, last) != last
  {
    var k := Find(locs, last);
    assert FirstAt(locs, last, k);
    if k < 7 {
      assert NextLoc(locs, last) == locs[k + 1];
    } else {
      assert NextLoc(locs, last) == locs[0] != last;
    }
    forall j: nat | j < 7 && FirstAt(locs, last, j)
      ensures j == k
    {
    }
  }

  /** The first of the locations whose slot is garbage, or 8. */
  ghost predicate IsFirstFree(gc: seq<bool>, locs: seq<nat>, k: nat)
    requires |locs| == 8 && forall j :: 0 <= j < 8 ==> locs[j] < |gc|
  {
    k <= 8 && (k < 8 ==> gc[locs[k]]) && forall j :: 0 <= j < k ==> !gc[locs[j]]
  }

  // ---------------------------------------------------------------- the cache

  /** How an insert ended: the element was there; it found a slot whose content was garbage;
      or the depth ran out and the last displaced element was dropped. */
  datatype Outcome = Present | Reused(lost: Element) | Dropped(lost: Element, epoch: bool)

  /** The slots, the element in hand with its epoch flag, and the last location. */
  datatype Hand = Hand(s: Slots, cur: Element, flag: bool, last: int)

  class Cache {
    var table: seq<Element>
    var collectionFlags: seq<bool>
    var epochFlags: seq<bool>
    var epochHeuristicCounter: nat
    const size: nat
    const epochSize: nat
    const depthLimit: nat
    const hash: (nat, Element) -> Hash
    const dflt: Element

    /** Every element ever inserted. */
    ghost var inserted: set<Element>

    function Locs(e: Element): (locs: seq<nat>)
      requires size > 0
      ensures |locs| == 8 && forall k :: 0 <= k < 8 ==> locs[k] < size
    {
      [Loc(e, 0), Loc(e, 1), Loc(e, 2), Loc(e, 3), Loc(e, 4), Loc(e, 5), Loc(e, 6), Loc(e, 7)]
    }

    function Loc(e: Element, k: nat): (loc: nat)
      requires size > 0
      ensures loc < size
    {
      FastMod(hash(k, e), size)
    }

    ghost function S(): (s: Slots)
      reads this
    {
      Slots(table, epochFlags, collectionFlags)
    }

    /** What an epoch may grow to before a scan ages it. */
    ghost function EpochBound(): nat {
      epochSize + Max(1, epochSize / 16)
    }

    /** A slot holds an inserted element at one of its locations, or is as it was set up. */
    ghost predicate SlotOk(t: seq<Element>, gc: seq<bool>, ins: set<Element>, i: nat)
      requires size > 0 && i < |t| == |gc|
    {
      (t[i] in ins && i in Locs(t[i])) || (t[i] == dflt && gc[i])
    }

    ghost predicate SlotsOk(t: seq<Element>, gc: seq<bool>, ins: set<Element>)
      requires size > 0 && |t| == |gc|
    {
      forall i {:trigger SlotOk(t, gc, ins, i)} :: 0 <= i < |t| ==> SlotOk(t, gc, ins, i)
    }

    /** Every element but the default one is in at most one slot. */
    ghost predicate OneSlotEach(t: seq<Element>) {
      forall x :: x != dflt ==> multiset(t)[x] <= 1
    }

    ghost predicate Shaped()
      reads this
    {
      && size >= 2 && epochSize >= 1 && depthLimit >= 1
      && S().Ok() && |table| == size
      && SlotsOk(table, collectionFlags, inserted)
      && OneSlotEach(table)
    }

    /** The live entries of the current epoch and the inserts until the next scan stay within
        the bound of an epoch, and so do the live entries of the epoch before. */
    ghost predicate Valid()
      reads this
    {
      && Shaped()
      && S().Counted(true) + epochHeuristicCounter <= EpochBound()
      && S().Counted(false) <= EpochBound()
    }

    constructor (newSize: nat, depthLimit: nat, hash: (nat, Element) -> Hash, dflt: Element)
      requires depthLimit >= 1
      ensures Valid() && size == Max(2, newSize)
      ensures epochSize == Max(1, 45 * size / 100)
      ensures this.depthLimit == depthLimit && this.hash == hash && this.dflt == dflt
      ensures inserted == {} && table == seq(size, _ => dflt) && collectionFlags == seq(size, _ => true)
      ensures epochHeuristicCounter == epochSize
    {
      var n := Max(2, newSize);
      size, this.depthLimit, this.hash, this.dflt := n, depthLimit, hash, dflt;
      table, collectionFlags, epochFlags := seq(n, _ => dflt), seq(n, _ => true), seq(n, _ => false);
      epochSize, epochHeuristicCounter := Max(1, 45 * n / 100), Max(1, 45 * n / 100);
      inserted := {};
      new;
      AllGarbage(epochFlags, collectionFlags, true, n);
      AllGarbage(epochFlags, collectionFlags, false, n);
      forall i | 0 <= i < n ensures SlotOk(table, collectionFlags, inserted, i) {
      }
      forall x | x != dflt ensures multiset(table)[x] <= 1 {
        assert x !in table;
      }
    }

    // ---------------------------------------------------------------- looking up

    /** An element is found exactly if it is in the table; the default element may also lie
        elsewhere in a new table. Only inserted elements and the default one are found. */
    method Contains(e: Element, erase: bool) returns (found: bool)
      requires Valid()
      modifies this`collectionFlags
      ensures Valid()
      ensures e != dflt ==> (found <==> e in table)
      ensures found ==> e in table && (e in inserted || e == dflt)
      ensures !(found && erase) ==> collectionFlags == old(collectionFlags)
      ensures found && erase ==>
                exists i :: 0 <= i < size && table[i] == e && collectionFlags == old(collectionFlags)[i := true]
    {
      var locs := Locs(e);
      for k := 0 to 8
        invariant collectionFlags == old(collectionFlags)
        invariant forall j :: 0 <= j < k ==> table[locs[j]] != e
      {
        if table[locs[k]] == e {
          FoundIsKnown(e, locs[k]);
          if erase {
            AllowErase(locs[k]);
          }
          return true;
        }
      }
      NotFound(e);
      return false;
    }

    lemma {:induction false} FoundIsKnown(e: Element, i: nat)
      requires Shaped() && i < size && table[i] == e
      ensures e in inserted || e == dflt
    {
      assert SlotOk(table, collectionFlags, inserted, i);
    }

    lemma {:induction false} NotFound(e: Element)
      requires Shaped() && forall k :: 0 <= k < 8 ==> table[Locs(e)[k]] != e
      ensures e in table ==> e == dflt
    {
      if i :| 0 <= i < |table| && table[i] == e {
        assert SlotOk(table, collectionFlags, inserted, i);
      }
    }

    method AllowErase(i: nat)
      requires Valid() && i < size
      modifies this`collectionFlags
      ensures Valid() && collectionFlags == old(collectionFlags)[i := true]
    {
      ghost var s := S();
      s.PutEffect(i, table[i], epochFlags[i], true);
      collectionFlags := collectionFlags[i := true];
      assert S() == s.Put(i, table[i], epochFlags[i], true);
      forall j | 0 <= j < size ensures SlotOk(table, collectionFlags, inserted, j) {
        assert SlotOk(table, s.gc, inserted, j);
      }
    }

    // ---------------------------------------------------------------- epochs

    method CountRecent() returns (n: nat)
      requires Shaped()
      ensures n == S().Counted(true)
    {
      n := 0;
      for i := 0 to size
        invariant n == Count(epochFlags, collectionFlags, true, i)
      {
        if epochFlags[i] && !collectionFlags[i] {
          n := n + 1;
        }
      }
    }

    method Age()
      requires Shaped()
      modifies this`collectionFlags, this`epochFlags
      ensures Shaped()
      ensures forall i :: 0 <= i < size ==>
                !epochFlags[i] && collectionFlags[i] == (old(collectionFlags[i]) || !old(epochFlags[i]))
    {
      ghost var gc, ep := collectionFlags, epochFlags;
      for i := 0 to size
        invariant |collectionFlags| == |epochFlags| == size
        invariant forall j :: 0 <= j < i ==> !epochFlags[j] && collectionFlags[j] == (gc[j] || !ep[j])
        invariant forall j :: i <= j < size ==> epochFlags[j] == ep[j] && collectionFlags[j] == gc[j]
      {
        if epochFlags[i] {
          epochFlags := epochFlags[i := false];
        } else {
          collectionFlags := collectionFlags[i := true];
        }
      }
      forall j | 0 <= j < size ensures SlotOk(table, collectionFlags, inserted, j) {
        assert SlotOk(table, gc, inserted, j);
      }
    }

    /** Leaves room for one more recent entry. Aging happens only when the counter has run out
        and the epoch is full; then what was recent is old and what was old is garbage. */
    method EpochCheck() returns (ghost aged: bool)
      requires Valid()
      modifies this`collectionFlags, this`epochFlags, this`epochHeuristicCounter
      ensures Shaped()
      ensures S().Counted(true) + 1 + epochHeuristicCounter <= EpochBound()
      ensures S().Counted(false) <= EpochBound()
      ensures aged <==> old(epochHeuristicCounter) == 0 && old(S()).Counted(true) >= epochSize
      ensures old(epochHeuristicCounter) > 0 ==> epochHeuristicCounter == old(epochHeuristicCounter) - 1
      ensures !aged ==> S() == old(S())
      ensures aged ==> forall x :: S().Alive(x, true) == 0 && S().Alive(x, false) == old(S()).Alive(x, true)
    {
      aged := false;
      if epochHeuristicCounter != 0 {
        epochHeuristicCounter := epochHeuristicCounter - 1;
        return;
      }
      var n := CountRecent();
      if n >= epochSize {
        ghost var s := S();
        Age();
        aged := true;
        CountBelow(s.ep, s.gc, epochFlags, collectionFlags, true, false, size);
        NoneRecent(epochFlags, collectionFlags, size);
        forall x ensures S().Alive(x, true) == 0 && S().Alive(x, false) == s.Alive(x, true) {
          AgingAges(table, s.ep, s.gc, epochFlags, collectionFlags, x, size);
        }
        epochHeuristicCounter := epochSize;
      } else {
        epochHeuristicCounter := Max(1, Max(epochSize / 16, epochSize - n));
      }
    }

    // ---------------------------------------------------------------- inserting

    /** The element is already at one of its locations: keep it, as a recent one. */
    method Refresh(e: Element, loc: nat)
      requires Shaped() && loc < size && table[loc] == e && loc in Locs(e) && e in inserted
      requires S().Counted(true) + 1 + epochHeuristicCounter <= EpochBound() && S().Counted(false) <= EpochBound()
      modifies this`collectionFlags, this`epochFlags
      ensures Valid()
      ensures S() == old(S()).Put(loc, e, true, false)
    {
      ghost var s := S();
      s.PutEffect(loc, e, true, false);
      assert table[loc := e] == table;
      collectionFlags, epochFlags := collectionFlags[loc := false], epochFlags[loc := true];
      assert S() == s.Put(loc, e, true, false);
      forall j | 0 <= j < size ensures SlotOk(table, collectionFlags, inserted, j) {
        assert SlotOk(table, s.gc, inserted, j);
      }
    }

    /** Find the first garbage slot among the locations. */
    method FindFree(locs: seq<nat>) returns (k: nat)
      requires |collectionFlags| == size && |locs| == 8 && forall j :: 0 <= j < 8 ==> locs[j] < size
      ensures IsFirstFree(collectionFlags, locs, k)
    {
      for j := 0 to 8
        invariant forall i :: 0 <= i < j ==> !collectionFlags[locs[i]]
      {
        if collectionFlags[locs[j]] {
          return j;
        }
      }
      return 8;
    }

    /** Write one slot at a location of the element. */
    method PutAt(i: nat, x: Element, flag: bool)
      requires size > 0 && S().Ok() && |table| == size && i < size && x in inserted && i in Locs(x)
      requires SlotsOk(table, collectionFlags, inserted)
      modifies this`table, this`collectionFlags, this`epochFlags
      ensures S() == old(S()).Put(i, x, flag, false)
      ensures SlotsOk(table, collectionFlags, inserted)
    {
      ghost var s := S();
      table, collectionFlags, epochFlags := table[i := x], collectionFlags[i := false], epochFlags[i := flag];
      forall j | 0 <= j < size ensures SlotOk(table, collectionFlags, inserted, j) {
        assert SlotOk(s.t, s.gc, inserted, j);
      }
    }

    lemma {:induction false} ConservedOneSlot(t0: seq<Element>, e: Element, t: seq<Element>, lost: Element)
      requires OneSlotEach(t0) && (e in t0 ==> e == dflt)
      requires multiset(t) + multiset{lost} == multiset(t0) + multiset{e}
      ensures OneSlotEach(t)
    {
      forall x | x != dflt ensures multiset(t)[x] <= 1 {
        assert (multiset(t) + multiset{lost})[x] == (multiset(t0) + multiset{e})[x];
      }
    }

    /** One round of the displacement: no location is free, and the next one gets the element in hand for its own. */
    ghost predicate Swapped(h: Hand, r: Hand) {
      && size > 0 && h.s.Ok() && |h.s.t| == size && IsFirstFree(h.s.gc, Locs(h.cur), 8)
      && r.last == NextLoc(Locs(h.cur), h.last) && r.s == h.s.Put(r.last, h.cur, h.flag, false)
      && r.cur == h.s.t[r.last] && r.flag == h.s.ep[r.last]
    }

    ghost predicate Swaps(hands: seq<Hand>, s0: Slots, e: Element) {
      && |hands| > 0 && hands[0] == Hand(s0, e, true, INVALID)
      && forall i {:trigger SwappedAt(hands, i)} :: 0 <= i < |hands| - 1 ==> SwappedAt(hands, i)
    }

    ghost predicate SwappedAt(hands: seq<Hand>, i: nat)
      requires i + 1 < |hands|
    {
      Swapped(hands[i], hands[i + 1])
    }

    /** How the displacement ends: the first free location takes the element in hand, or the depth runs out. */
    ghost predicate Ends(h: Hand, s: Slots, out: Outcome) {
      match out
      case Present => false
      case Dropped(lost, epoch) => s == h.s && lost == h.cur && epoch == h.flag
      case Reused(lost) => exists k :: IsSettled(h, s, lost, k)
    }

    ghost predicate IsSettled(h: Hand, s: Slots, lost: Element, k: nat) {
      && size > 0 && h.s.Ok() && |h.s.t| == size && k < 8 && IsFirstFree(h.s.gc, Locs(h.cur), k)
      && s == h.s.Put(Locs(h.cur)[k], h.cur, h.flag, false) && lost == h.s.t[Locs(h.cur)[k]]
    }

    /** Exactly what a displacement does: swaps, as many as the depth allows, and an end. */
    ghost predicate Displaced(hands: seq<Hand>, s0: Slots, e: Element, s: Slots, out: Outcome) {
      && Swaps(hands, s0, e) && Ends(hands[|hands| - 1], s, out)
      && (out.Dropped? ==> |hands| == depthLimit + 1) && (out.Reused? ==> |hands| <= depthLimit)
    }

    lemma {:induction false} SwapsMore(hands: seq<Hand>, s0: Slots, e: Element, h: Hand)
      requires Swaps(hands, s0, e) && Swapped(hands[|hands| - 1], h)
      ensures Swaps(hands + [h], s0, e)
    {
      var more := hands + [h];
      forall i: nat | i < |more| - 1
        ensures SwappedAt(more, i)
      {
        if i < |hands| - 1 {
          assert SwappedAt(hands, i);
        }
      }
    }

    /** Put the element in hand into the next location and take out what was there. */
    method Swap(locs: seq<nat>, cur: Element, flag: bool, last: int, ghost s0: Slots, ghost e: Element,
                ghost hands0: seq<Hand>)
        returns (loc: nat, next: Element, epoch: bool, ghost hands: seq<Hand>)
      requires size > 0 && S().Ok() && |table| == size && SlotsOk(table, collectionFlags, inserted)
      requires locs == Locs(cur) && IsFirstFree(collectionFlags, locs, 8) && cur in inserted
      requires s0.Ok() && Carrying(s0, e, S(), cur, flag)
      requires Swaps(hands0, s0, e) && hands0[|hands0| - 1] == Hand(S(), cur, flag, last)
      modifies this`table, this`collectionFlags, this`epochFlags
      ensures S().Ok() && |table| == size && SlotsOk(table, collectionFlags, inserted) && next in inserted
      ensures Carrying(s0, e, S(), next, epoch)
      ensures Swaps(hands, s0, e) && |hands| == |hands0| + 1
      ensures hands[|hands| - 1] == Hand(S(), next, epoch, loc)
    {
      ghost var s := S();
      loc := NextLoc(locs, last);
      next, epoch := table[loc], epochFlags[loc];
      assert SlotOk(table, collectionFlags, inserted, loc);
      SwapCarries(s0, e, s, cur, flag, loc);
      PutAt(loc, cur, flag);
      SwapsMore(hands0, s0, e, Hand(S(), next, epoch, loc));
      hands := hands0 + [Hand(S(), next, epoch, loc)];
    }

    /** The displacement loop for an element that is not at any of its locations. */
    method Displace(e: Element) returns (ghost out: Outcome, ghost hands: seq<Hand>)
      requires Shaped() && e in inserted && (e in table ==> e == dflt)
      modifies this`table, this`collectionFlags, this`epochFlags
      ensures Shaped() && !out.Present?
      ensures multiset(table) + multiset{out.lost} == multiset(old(table)) + multiset{e}
      ensures out.Reused? ==> Added(old(S()), e, S(), out.lost)
      ensures out.Dropped? ==> Carrying(old(S()), e, S(), out.lost, out.epoch)
      ensures Displaced(hands, old(S()), e, S(), out)
    {
      ghost var s0 := S();
      var cur, lastEpoch, lastLoc, locs := e, true, INVALID, Locs(e);
      hands := [Hand(s0, e, true, INVALID)];
      for depth := 0 to depthLimit
        invariant S().Ok() && |table| == size && cur in inserted && locs == Locs(cur)
        invariant SlotsOk(table, collectionFlags, inserted)
        invariant Carrying(s0, e, S(), cur, lastEpoch)
        invariant Swaps(hands, s0, e) && |hands| == depth + 1
        invariant hands[depth] == Hand(S(), cur, lastEpoch, lastLoc)
      {
        ghost var s := S();
        var k := FindFree(locs);
        if k < 8 {
          ReuseConserves(s0, e, s, cur, lastEpoch, locs[k]);
          PutAt(locs[k], cur, lastEpoch);
          out := Reused(s0.t[locs[k]]);
          assert IsSettled(hands[depth], S(), out.lost, k);
          ConservedOneSlot(s0.t, e, table, out.lost);
          return;
        }
        lastLoc, cur, lastEpoch, hands := Swap(locs, cur, lastEpoch, lastLoc, s0, e, hands);
        locs := Locs(cur);
      }
      out := Dropped(cur, lastEpoch);
      ConservedOneSlot(s0.t, e, table, out.lost);
    }

    method Insert(e: Element)
        returns (ghost out: Outcome, ghost checked: Slots, ghost aged: bool, ghost hands: seq<Hand>)
      requires Valid()
      modifies this
      ensures Valid() && inserted == old(inserted) + {e}
      ensures aged <==> old(epochHeuristicCounter) == 0 && old(S()).Counted(true) >= epochSize
      ensures old(epochHeuristicCounter) > 0 ==> epochHeuristicCounter == old(epochHeuristicCounter) - 1
      ensures checked.Ok() && checked.t == old(table) && (!aged ==> checked == old(S()))
      ensures aged ==> forall x :: checked.Alive(x, true) == 0 && checked.Alive(x, false) == old(S()).Alive(x, true)
      ensures out.Present? ==> exists i :: 0 <= i < size && old(table)[i] == e && S() == checked.Put(i, e, true, false)
      ensures !out.Present? ==> (e in old(table) ==> e == dflt)
      ensures !out.Present? ==> multiset(table) + multiset{out.lost} == multiset(old(table)) + multiset{e}
      ensures out.Reused? ==> Added(checked, e, S(), out.lost)
      ensures out.Dropped? ==> Carrying(checked, e, S(), out.lost, out.epoch)
      ensures !out.Present? ==> Displaced(hands, checked, e, S(), out)
      ensures e != dflt ==> (e in table <==> out.Present? || out.lost != e)
    {
      aged := EpochCheck();
      checked := S();
      inserted := inserted + {e};
      forall j | 0 <= j < size ensures SlotOk(table, collectionFlags, inserted, j) {
        assert SlotOk(table, collectionFlags, old(inserted), j);
      }
      var locs := Locs(e);
      for k := 0 to 8
        invariant forall j :: 0 <= j < k ==> table[locs[j]] != e
        invariant S() == checked && Shaped() && inserted == old(inserted) + {e}
      {
        if table[locs[k]] == e {
          Refresh(e, locs[k]);
          out, hands := Present, [];
          return;
        }
      }
      NotFound(e);
      out, hands := Displace(e);
      assert (multiset(table) + multiset{out.lost})[e] == (multiset(old(table)) + multiset{e})[e];
    }

    /** In a table of more than 20 slots the epochs never use up all slots. */
    lemma {:induction false} RoomLeft()
      requires Valid() && size > 20 && epochSize == Max(1, 45 * size / 100)
      ensures exists i :: 0 <= i < size && collectionFlags[i]
    {
      if forall i :: 0 <= i < size ==> !collectionFlags[i] {
        AllLive(epochFlags, collectionFlags, size);
        assert false;
      }
    }
  }

  /** The element was added as a recent one, and only the content of a garbage slot is gone. */
  ghost predicate Added(s0: Slots, e: Element, s: Slots, lost: Element)
    requires s0.Ok() && s.Ok()
  {
    && |s.t| == |s0.t|
    && (exists i :: 0 <= i < |s.t| && s0.gc[i] && s0.t[i] == lost && s.gc == s0.gc[i := false])
    && s.Counted(true) == s0.Counted(true) + 1 && s.Counted(false) == s0.Counted(false)
    && (forall x, f {:trigger s.Alive(x, f)} :: s.Alive(x, f) == s0.Alive(x, f) + One(x == e && f))
  }

  lemma {:induction false} AllGarbage(ep: seq<bool>, gc: seq<bool>, f: bool, n: nat)
    requires |ep| == |gc| && n <= |ep| && forall i :: 0 <= i < |gc| ==> gc[i]
    ensures Count(ep, gc, f, n) == 0
  {
    if n > 0 {
      AllGarbage(ep, gc, f, n - 1);
    }
  }

  lemma {:induction false} AllLive(ep: seq<bool>, gc: seq<bool>, n: nat)
    requires |ep| == |gc| && n <= |ep| && forall i :: 0 <= i < |gc| ==> !gc[i]
    ensures Count(ep, gc, true, n) + Count(ep, gc, false, n) == n
  {
    if n > 0 {
      AllLive(ep, gc, n - 1);
    }
  }

  lemma {:induction false} NoneRecent(ep: seq<bool>, gc: seq<bool>, n: nat)
    requires |ep| == |gc| && n <= |ep| && forall i :: 0 <= i < |ep| ==> !ep[i]
    ensures Count(ep, gc, true, n) == 0
  {
    if n > 0 {
      NoneRecent(ep, gc, n - 1);
    }
  }

  // ---------------------------------------------------------------- the element just put in

  /** All locations of all elements are the first slot. */
  function AllFirst(k: nat, e: Element): Hash {
    0
  }

  lemma {:induction false} FirstOnly(cache: Cache, e: Element)
    requires cache.size > 0 && cache.hash == AllFirst
    ensures forall k :: 0 <= k < 8 ==> cache.Locs(e)[k] == 0
  {
    assert forall k :: cache.Loc(e, k) == 0;
  }

  /** One swap takes out what is in the first slot. */
  lemma {:induction false} SwapAtFirst(cache: Cache, h: Hand, r: Hand)
    requires cache.hash == AllFirst && cache.Swapped(h, r)
    ensures r.last == 0 && r.s.t == h.s.t[0 := h.cur] && r.cur == h.s.t[0]
    ensures r.s.gc == h.s.gc[0 := false] && r.flag == h.s.ep[0]
  {
    FirstOnly(cache, h.cur);
  }

  /** The first slot is taken, so the displacement can end only by running out of depth. */
  lemma {:induction false} MustDrop(cache: Cache, h: Hand, s: Slots, out: Outcome)
    requires cache.hash == AllFirst && cache.size > 0 && h.s.Ok() && |h.s.t| == cache.size && !h.s.gc[0]
    requires cache.Ends(h, s, out)
    ensures out.Dropped?
  {
    FirstOnly(cache, h.cur);
  }

  lemma {:induction false} FirstSwap(cache: Cache, hands: seq<Hand>, s0: Slots, e: Element, s: Slots, out: Outcome)
    requires cache.hash == AllFirst && cache.size > 0 && s0.Ok() && |s0.t| == cache.size && !s0.gc[0]
    requires cache.depthLimit == 2 && cache.Displaced(hands, s0, e, s, out)
    ensures |hands| > 1 && hands[1].last == 0 && hands[1].s.t == s0.t[0 := e] && hands[1].cur == s0.t[0]
    ensures hands[1].s.Ok() && !hands[1].s.gc[0]
  {
    if |hands| == 1 {
      MustDrop(cache, hands[0], s, out);
    }
    assert cache.SwappedAt(hands, 0);
    SwapAtFirst(cache, hands[0], hands[1]);
  }

  /** With a depth of two the element put in by the first swap is taken out by the second, and dropped. */
  lemma {:induction false} TwoSwaps(cache: Cache, hands: seq<Hand>, s0: Slots, e: Element, s: Slots, out: Outcome)
    requires cache.hash == AllFirst && cache.size > 0 && s0.Ok() && |s0.t| == cache.size && !s0.gc[0]
    requires cache.depthLimit == 2 && cache.Displaced(hands, s0, e, s, out)
    ensures out.Dropped? && out.lost == e && s.t == s0.t
    ensures |hands| == 3 && hands[1].s.t == s0.t[0 := e] && hands[1].last == hands[2].last == 0 && hands[2].cur == e
  {
    FirstSwap(cache, hands, s0, e, s, out);
    if |hands| == 2 {
      MustDrop(cache, hands[1], s, out);
    }
    assert cache.SwappedAt(hands, 1);
    SwapAtFirst(cache, hands[1], hands[2]);
    assert s0.t[0 := e][0 := s0.t[0]] == s0.t;
  }

  lemma {:induction false} SwapsIfTaken(cache: Cache, hands: seq<Hand>, s0: Slots, e: Element)
    requires cache.hash == AllFirst && cache.size > 0 && s0.Ok() && |s0.t| == cache.size
    requires cache.Swaps(hands, s0, e) && |hands| > 1
    ensures !s0.gc[0]
  {
    FirstOnly(cache, e);
    assert cache.SwappedAt(hands, 0);
  }

  lemma {:induction false} SettlesFirst(cache: Cache, hands: seq<Hand>, s0: Slots, e: Element, s: Slots, out: Outcome)
    requires cache.hash == AllFirst && cache.size > 0 && s0.Ok() && |s0.t| == cache.size && s0.gc[0]
    requires cache.depthLimit > 0 && cache.Displaced(hands, s0, e, s, out)
    ensures s == s0.Put(0, e, true, false)
  {
    FirstOnly(cache, e);
    if |hands| > 1 {
      SwapsIfTaken(cache, hands, s0, e);
    }
  }

  /** A new cache with one element in its first slot. */
  method OneElement() returns (cache: Cache)
    ensures fresh(cache) && cache.Valid() && cache.size == 10 && cache.hash == AllFirst && cache.depthLimit == 2
    ensures cache.dflt == 0 && cache.inserted == {1} && cache.epochHeuristicCounter == 3
    ensures cache.table == seq(10, _ => 0)[0 := 1] && !cache.collectionFlags[0]
  {
    cache := new Cache(10, 2, AllFirst, 0);
    ghost var out, checked, aged, hands := cache.Insert(1);
    SettlesFirst(cache, hands, checked, 1, cache.S(), out);
  }

  /** Its first slot is taken: an insert puts its element in, takes it out with the next swap and drops it. */
  method PutInMayMove() returns (cache: Cache, ghost hands: seq<Hand>)
    ensures cache.Valid() && cache.inserted == {1, 2} && cache.table == seq(10, _ => 0)[0 := 1]
    ensures |hands| == 3 && hands[1].s.t == cache.table[0 := 2] && hands[1].last == hands[2].last == 0
    ensures hands[2].cur == 2
  {
    cache := OneElement();
    ghost var out, checked, aged;
    out, checked, aged, hands := cache.Insert(2);
    TwoSwaps(cache, hands, checked, 2, cache.S(), out);
  }
}
