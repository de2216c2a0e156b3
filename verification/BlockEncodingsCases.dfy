/**
 Where the counts of a PartiallyDownloadedBlock (src/blockencodings.cpp) mislead: the count that
 an earlier block leaves ends the search for a later one, and the count of extra transactions
 can go below zero.
 */
module BlockEncodingsCases {
  import opened BlockEncodings
  import opened Collections
  import opened Numbers
  import opened Wrappers

  // ---------------------------------------------------------------- an object that is used again

  function Start(a0: Slots, stale: nat, extra: UInt64): State {
    State(a0, seq(|a0|, _ => false), stale, extra)
  }

  /** A transaction that the block does not have, and then as many as there are hashes. */
  function Pool(other: nat, hashes: seq<nat>, tx: Tx): seq<Entry> {
    [(other, tx)] + seq(|hashes|, j requires 0 <= j < |hashes| => (hashes[j], tx))
  }

  ghost predicate Hashes(hashes: seq<nat>, other: nat, short: nat -> nat, ids: seq<nat>) {
    |hashes| <= |ids| && short(other) !in ids && forall k :: 0 <= k < |hashes| ==> short(hashes[k]) == ids[k]
  }

  /** The state after the first source and `i` more: the first `i` slots are filled and counted. */
  ghost predicate FilledUpTo(s: State, e: seq<nat>, stale: nat, i: nat) {
    && s.count == stale + i && |s.a| == |s.have|
    && forall j :: i <= j < |e| ==> e[j] < |s.a| && s.a[e[j]].None? && !s.have[e[j]]
  }

  /** The first source is not in the table, and the others have the slots in their order. */
  ghost predicate InOrder(m: map<nat, nat>, e: seq<nat>, short: nat -> nat, src: seq<Entry>) {
    && 0 < |src| <= |e| + 1 && short(src[0].0) !in m
    && forall k :: 0 < k < |src| ==> short(src[k].0) in m && m[short(src[k].0)] == e[k - 1]
  }

  lemma {:induction false} FillNext(s: State, m: map<nat, nat>, e: seq<nat>, short: nat -> nat, entry: Entry,
                                    stale: nat, i: nat)
    requires Fits(s, m) && i < |e| && short(entry.0) in m && m[short(entry.0)] == e[i] && FilledUpTo(s, e, stale, i)
    requires forall j :: i < j < |e| ==> e[i] < e[j]
    ensures FilledUpTo(Step(s, m, short, false, entry), e, stale, i + 1)
  {
  }

  lemma {:induction false} FillsInOrder(s: State, m: map<nat, nat>, e: seq<nat>, short: nat -> nat, src: seq<Entry>,
                                        stale: nat, i: nat)
    requires Fits(s, m) && FilledUpTo(s, e, stale, 0) && InOrder(m, e, short, src) && i < |src|
    requires forall i, j :: 0 <= i < j < |e| ==> e[i] < e[j]
    ensures FilledUpTo(Steps(s, m, short, false, src, i + 1), e, stale, i)
  {
    if i == 0 {
      assert Steps(s, m, short, false, src, 0) == s;
    } else {
      FillsInOrder(s, m, e, short, src, stale, i - 1);
      FillNext(Steps(s, m, short, false, src, i), m, e, short, src[i], stale, i - 1);
    }
  }

  lemma {:induction false} StartFits(m: map<nat, nat>, ids: seq<nat>, e: seq<nat>, a0: Slots, short: nat -> nat,
                                     hashes: seq<nat>, other: nat, tx: Tx, stale: nat, extra: UInt64)
    requires TableOk(m, ids, e, a0) && Hashes(hashes, other, short, ids)
    ensures Fits(Start(a0, stale, extra), m) && FilledUpTo(Start(a0, stale, extra), e, stale, 0)
    ensures InOrder(m, e, short, Pool(other, hashes, tx))
  {
    var src := Pool(other, hashes, tx);
    assert short(other) !in m;
    forall k | 0 < k < |src|
      ensures short(src[k].0) in m && m[short(src[k].0)] == e[k - 1]
    {
      assert src[k] == (hashes[k - 1], tx);
    }
  }

  /** A count that reaches the number of IDs with the last source but one ends the search there. */
  lemma {:induction false} EndsBeforeLast(s: State, m: map<nat, nat>, e: seq<nat>, short: nat -> nat, src: seq<Entry>,
                                          stale: nat)
    requires Fits(s, m) && FilledUpTo(s, e, stale, 0) && InOrder(m, e, short, src)
    requires forall i, j :: 0 <= i < j < |e| ==> e[i] < e[j]
    requires |src| >= 2 && stale + |src| - 2 == |m|
    ensures EndsAfter(s, m, short, false, src, |src| - 1)
    ensures FilledUpTo(Steps(s, m, short, false, src, |src| - 1), e, stale, |src| - 2)
  {
    var n := |src| - 1;
    forall k: nat | 0 < k <= n
      ensures Steps(s, m, short, false, src, k).count == stale + k - 1
    {
      FillsInOrder(s, m, e, short, src, stale, k - 1);
    }
    FillsInOrder(s, m, e, short, src, stale, n - 1);
  }

  lemma {:induction false} LastIsOnly(ids: seq<nat>, short: nat -> nat, hashes: seq<nat>, other: nat, tx: Tx)
    requires Distinct(ids) && Hashes(hashes, other, short, ids) && hashes != []
    ensures IsOnly(Pool(other, hashes, tx), short, ids[|hashes| - 1], |hashes|)
  {
    var src, n := Pool(other, hashes, tx), |hashes|;
    forall x | 0 <= x < |src|
      ensures short(src[x].0) == ids[n - 1] <==> x == n
    {
      if x > 0 {
        assert src[x] == (hashes[x - 1], tx);
      }
    }
  }

  /**
   For every count from 1 to the number of IDs that an earlier block may have left, this pool makes the search
   end before its last source, which alone has an ID of the block: the slot stays empty.
   */
  lemma {:induction false} StaleMisses(m: map<nat, nat>, ids: seq<nat>, e: seq<nat>, a0: Slots, short: nat -> nat,
                                       hashes: seq<nat>, other: nat, tx: Tx, stale: nat, extra: UInt64)
    requires TableOk(m, ids, e, a0) && Hashes(hashes, other, short, ids)
    requires 1 <= stale <= |ids| && |hashes| == |ids| - stale + 1
    ensures var s0, pool, n := Start(a0, stale, extra), Pool(other, hashes, tx), |hashes|;
            && Fits(s0, m) && EndsAfter(s0, m, short, false, pool, n) && n == |pool| - 1
            && IsOnly(pool, short, ids[n - 1], n)
            && FilledUpTo(Steps(s0, m, short, false, pool, n), e, stale, n - 1)
  {
    var s0, pool, n := Start(a0, stale, extra), Pool(other, hashes, tx), |hashes|;
    StartFits(m, ids, e, a0, short, hashes, other, tx, stale, extra);
    EndsBeforeLast(s0, m, e, short, pool, stale);
    LastIsOnly(ids, short, hashes, other, tx);
  }

  /** The search ends at one place. */
  lemma {:induction false} EndsOnce(s: State, m: map<nat, nat>, short: nat -> nat, extra: bool, src: seq<Entry>,
                                    n: nat, k: nat)
    requires Fits(s, m) && EndsAfter(s, m, short, extra, src, n) && EndsAfter(s, m, short, extra, src, k)
    ensures n == k
  {
  }

  lemma {:induction false} RunMisses(t: Trace, ids: seq<nat>, short: nat -> nat, hashes: seq<nat>, other: nat, tx: Tx,
                                     stale: nat, extra: UInt64, end: State)
    requires TableOk(t.m, ids, t.e, t.a0) && Hashes(hashes, other, short, ids)
    requires 1 <= stale <= |ids| && |hashes| == |ids| - stale + 1
    requires Ran(t, stale, extra, short, Pool(other, hashes, tx), [], end)
    ensures IsOnly(Pool(other, hashes, tx), short, ids[|hashes| - 1], |hashes|)
    ensures t.e[|hashes| - 1] < |end.a| && end.a[t.e[|hashes| - 1]].None?
  {
    var s0, pool := Start(t.a0, stale, extra), Pool(other, hashes, tx);
    StaleMisses(t.m, ids, t.e, t.a0, short, hashes, other, tx, stale, extra);
    EndsOnce(s0, t.m, short, false, pool, t.n1, |hashes|);
    assert t.n2 == 0 && end == t.mid;
  }

  lemma {:induction false} PrefilledAt(a0: Slots, p: seq<Prefilled>, i: nat)
    requires Placed(a0, p, |p|) && IsPosition(p, |p|, i)
    ensures i < |a0| && a0[i].Some?
  {
    var j: nat :| j < |p| && Position(p, j) == i;
    assert PlacedAt(a0, p, j);
  }

  /** A reused object with such a count and such a pool: the announcement is fine, and the slot is left empty. */
  method ReuseMisses(peer: PartiallyDownloadedBlock, c: CompactBlock, short: nat -> nat, hashes: seq<nat>, other: nat,
                     tx: Tx)
      returns (status: ReadStatus, ghost slot: nat)
    requires |c.ids| + |c.prefilled| <= 0xffff && Distinct(c.ids) && GoodPrefill(c.prefilled, |c.ids|)
    requires !peer.Refuses(c) && 1 <= peer.mempoolCount <= |c.ids|
    requires Hashes(hashes, other, short, c.ids) && |hashes| == |c.ids| - peer.mempoolCount + 1
    requires peer.pool == Pool(other, hashes, tx)
    modifies peer
    ensures status == OK && IsOnly(peer.pool, short, c.ids[|hashes| - 1], |hashes|)
    ensures slot < |peer.txnAvailable| && peer.txnAvailable[slot].None?
    ensures !IsPosition(c.prefilled, |c.prefilled|, slot)
  {
    ghost var stale, extra := peer.mempoolCount, peer.extraCount;
    ghost var t;
    status, t := peer.InitData(c, [], short, false);
    RunMisses(t, c.ids, short, hashes, other, tx, stale, extra, peer.Now(t.have));
    slot := t.e[|hashes| - 1];
    if IsPosition(c.prefilled, |c.prefilled|, slot) {
      PrefilledAt(t.a0, c.prefilled, slot);
    }
  }

  function Named(hash: nat): Tx {
    Tx(hash, false, false)
  }

  function Announced(header: nat, id: nat): CompactBlock {
    CompactBlock(Some(header), [id], [Prefilled(0, Named(0))], false)
  }

  /** The slots of a block with the coinbase and one more transaction. */
  lemma {:induction false} TwoSlots(t: Trace, id: nat)
    requires Placed(t.a0, [Prefilled(0, Named(0))], 1) && |t.a0| == 2 && TableOk(t.m, [id], t.e, t.a0)
    ensures t.e == [1] && t.m == map[id := 1] && t.a0 == [Some(Named(0)), None]
  {
    var p := [Prefilled(0, Named(0))];
    assert PlacedAt(t.a0, p, 0);
    assert t.e[0] == 1;
    assert [id][0] in t.m && t.m[id] == 1;
  }

  function Same(hash: nat): nat {
    hash
  }

  const TWO_POOL: seq<Entry> := [(1, Named(1)), (2, Named(2))]

  ghost predicate TwoSlotTrace(t: Trace, id: nat) {
    t.e == [1] && t.m == map[id := 1] && t.a0 == [Some(Named(0)), None]
  }

  /** The first source fills the slot, and the search ends. */
  lemma {:induction false} FirstRun(t: Trace, end: State)
    requires TwoSlotTrace(t, 1) && Ran(t, 0, 0, Same, TWO_POOL, [], end)
    ensures end.a == [Some(Named(0)), Some(Named(1))] && end.count == 1
  {
    var s0 := Start(t.a0, 0, 0);
    assert Steps(s0, t.m, Same, false, TWO_POOL, 1) == Step(s0, t.m, Same, false, TWO_POOL[0]);
    assert t.n1 == 1 && t.n2 == 0;
  }

  /** The first source changes nothing, and the search ends. */
  lemma {:induction false} SecondRun(t: Trace, extra: UInt64, end: State)
    requires TwoSlotTrace(t, 2) && Ran(t, 1, extra, Same, TWO_POOL, [], end)
    ensures end.a == t.a0
  {
    var s0 := Start(t.a0, 1, extra);
    assert Steps(s0, t.m, Same, false, TWO_POOL, 1) == s0;
    assert t.n1 == 1 && t.n2 == 0;
  }

  lemma {:induction false} AnnouncedIsGood(header: nat, id: nat)
    ensures var c := Announced(header, id); Distinct(c.ids) && GoodPrefill(c.prefilled, |c.ids|)
  {
    assert GoodEntry(Announced(header, id).prefilled, 1, 0);
  }

  /** A new object finds the transaction of a block in the pool. */
  method FirstBlock() returns (peer: PartiallyDownloadedBlock, status: ReadStatus)
    ensures fresh(peer) && status == OK && peer.pool == TWO_POOL && peer.maxTransactions == 100000
    ensures peer.header == Some(10) && peer.mempoolCount == 1
    ensures peer.txnAvailable == [Some(Named(0)), Some(Named(1))]
  {
    peer := new PartiallyDownloadedBlock(TWO_POOL, 100000);
    AnnouncedIsGood(10, 1);
    ghost var t;
    status, t := peer.InitData(Announced(10, 1), [], Same, false);
    TwoSlots(t, 1);
    FirstRun(t, peer.Now(t.have));
  }

  /** With the count of that block left, it does not find the transaction of the next one. */
  method SecondBlock(peer: PartiallyDownloadedBlock) returns (status: ReadStatus)
    requires peer.pool == TWO_POOL && peer.maxTransactions == 100000 && peer.mempoolCount == 1
    requires peer.header == None && peer.txnAvailable == []
    modifies peer
    ensures status == OK && peer.header == Some(11) && peer.txnAvailable == [Some(Named(0)), None]
  {
    AnnouncedIsGood(11, 2);
    ghost var extra := peer.extraCount;
    ghost var t;
    status, t := peer.InitData(Announced(11, 2), [], Same, false);
    TwoSlots(t, 2);
    SecondRun(t, extra, peer.Now(t.have));
  }

  lemma {:induction false} BothFilled(a: Slots)
    requires |a| == 2 && a[0].Some? && a[1].Some?
    ensures Filled(a, |a|) == 2
  {
    assert Filled(a, 1) == 1;
  }

  /**
   Two blocks one after the other on the same object.  The second has a transaction that only
   the second source of the pool has; its slot is left empty.
   */
  method TwoBlocks() returns (peer: PartiallyDownloadedBlock, first: ReadStatus, filled: ReadStatus, second: ReadStatus)
    ensures first == filled == second == OK && peer.header == Some(11)
    ensures peer.pool == TWO_POOL && IsOnly(peer.pool, Same, 2, 1)
    ensures peer.txnAvailable == [Some(Named(0)), None]
  {
    peer, first := FirstBlock();
    BothFilled(peer.txnAvailable);
    ghost var block;
    filled, block := peer.FillBlock([], OK);
    second := SecondBlock(peer);
  }

  // ---------------------------------------------------------------- the count of extra transactions

  /** No slot of an ID holds a transaction that was not offered to it. */
  ghost predicate Offers(s: State, m: map<nat, nat>) {
    Fits(s, m) && forall x :: x in m && !s.have[m[x]] ==> s.a[m[x]].None?
  }

  ghost function Wrapped(x: int): UInt64 {
    x % TWO_64
  }

  lemma {:induction false} WrapAgain(x: int, y: int, d: int)
    requires y == x % TWO_64
    ensures (y + d) % TWO_64 == (x + d) % TWO_64
  {
    var q := x / TWO_64;
    assert x + d == y + d + q * TWO_64;
    WholeTurns(y + d, q);
  }

  lemma {:induction false} WholeTurns(x: int, q: int)
    ensures (x + q * TWO_64) % TWO_64 == x % TWO_64
  {
    var k := x / TWO_64;
    Distribute(k, q, TWO_64);
    Quotient(x + q * TWO_64, TWO_64, k + q, x % TWO_64);
  }

  /** The count moves with the filled slots, and the count of extra transactions with it, or not at all. */
  ghost predicate Counts(s: State, r: State, extra: bool) {
    && Filled(r.a, |r.a|) - Filled(s.a, |s.a|) == r.count - s.count
    && r.extra == if extra then (s.extra + (r.count - s.count)) % TWO_64 else s.extra
  }

  lemma {:induction false} OfferCounts(s: State, slot: nat, tx: Tx, extra: bool)
    requires |s.a| == |s.have| && slot < |s.a| && (!s.have[slot] ==> s.a[slot].None?)
    ensures Counts(s, OfferTo(s, slot, tx, extra), extra)
  {
    if !s.have[slot] {
      FilledUpdate(s.a, slot, Some(tx), |s.a|);
    } else if s.a[slot].Some? {
      FilledUpdate(s.a, slot, None, |s.a|);
    }
  }

  lemma {:induction false} StepCounts(s: State, m: map<nat, nat>, short: nat -> nat, extra: bool, entry: Entry)
    requires Offers(s, m)
    ensures Offers(Step(s, m, short, extra, entry), m) && Counts(s, Step(s, m, short, extra, entry), extra)
  {
    if short(entry.0) in m {
      OfferCounts(s, m[short(entry.0)], entry.1, extra);
    }
  }

  lemma {:induction false} CountsTransitive(s: State, q: State, r: State, extra: bool)
    requires Counts(s, q, extra) && Counts(q, r, extra)
    ensures Counts(s, r, extra)
  {
    if extra {
      WrapAgain(s.extra + (q.count - s.count), q.extra, r.count - q.count);
    }
  }

  /** The two counts move together while the extra transactions are looked at. */
  lemma {:induction false} StepsCount(s: State, m: map<nat, nat>, short: nat -> nat, extra: bool, src: seq<Entry>,
                                      n: nat)
    requires Offers(s, m) && n <= |src|
    ensures Offers(Steps(s, m, short, extra, src, n), m) && Counts(s, Steps(s, m, short, extra, src, n), extra)
  {
    if n > 0 {
      var q := Steps(s, m, short, extra, src, n - 1);
      StepsCount(s, m, short, extra, src, n - 1);
      StepCounts(q, m, short, extra, src[n - 1]);
      CountsTransitive(s, q, Step(q, m, short, extra, src[n - 1]), extra);
    }
  }

  /** The slots below `n` that were empty and are filled. */
  ghost function Gained(a: Slots, b: Slots, n: nat): (r: nat)
    requires n <= |a| == |b|
    ensures r <= n
  {
    if n == 0 then 0 else Gained(a, b, n - 1) + One(a[n - 1].None? && b[n - 1].Some?)
  }

  lemma {:induction false} GainedLost(a: Slots, b: Slots, n: nat)
    requires n <= |a| == |b|
    ensures Filled(b, n) - Filled(a, n) == Gained(a, b, n) - Gained(b, a, n)
  {
    if n > 0 {
      GainedLost(a, b, n - 1);
    }
  }

  /** A slot is as it was, or emptied, or was empty and has one of the sources. */
  ghost predicate Since(a: Slots, b: Slots, src: seq<Entry>, n: nat, i: nat)
    requires i < |a| == |b| && n <= |src|
  {
    b[i] == a[i] || b[i].None? || (a[i].None? && exists j :: 0 <= j < n && src[j].1 == b[i].value)
  }

  ghost predicate AllSince(a: Slots, b: Slots, src: seq<Entry>, n: nat) {
    && |a| == |b| && n <= |src|
    && forall i {:trigger Since(a, b, src, n, i)} :: 0 <= i < |a| ==> Since(a, b, src, n, i)
  }

  /** Once a slot has been offered a transaction it is never filled again. */
  lemma {:induction false} StepsSince(s: State, m: map<nat, nat>, short: nat -> nat, src: seq<Entry>, n: nat)
    requires Offers(s, m) && n <= |src|
    ensures AllSince(s.a, Steps(s, m, short, true, src, n).a, src, n)
  {
    if n > 0 {
      var q := Steps(s, m, short, true, src, n - 1);
      var r := Step(q, m, short, true, src[n - 1]);
      StepsSince(s, m, short, src, n - 1);
      StepsKeep(s, m, short, src, n - 1);
      forall i: nat | i < |s.a|
        ensures Since(s.a, r.a, src, n, i)
      {
        assert Since(s.a, q.a, src, n - 1, i);
        StepSlot(q, m, short, src[n - 1], i);
      }
    }
  }

  lemma {:induction false} StepSlot(q: State, m: map<nat, nat>, short: nat -> nat, entry: Entry, i: nat)
    requires Offers(q, m) && i < |q.a|
    ensures var r := Step(q, m, short, true, entry);
            r.a[i] == q.a[i] || r.a[i].None? || (r.a[i] == Some(entry.1) && !q.have[i])
  {
  }

  lemma {:induction false} StepsKeep(s: State, m: map<nat, nat>, short: nat -> nat, src: seq<Entry>, n: nat)
    requires Offers(s, m) && n <= |src|
    ensures var r := Steps(s, m, short, true, src, n);
            && Offers(r, m) && |r.a| == |s.a|
            && forall i :: 0 <= i < |s.a| && !r.have[i] ==> !s.have[i] && r.a[i] == s.a[i]
  {
    if n > 0 {
      StepsKeep(s, m, short, src, n - 1);
      StepsCount(s, m, short, true, src, n);
    }
  }

  lemma {:induction false} StartOffers(m: map<nat, nat>, ids: seq<nat>, e: seq<nat>, a0: Slots, stale: nat,
                                       extra: UInt64)
    requires TableOk(m, ids, e, a0)
    ensures Offers(Start(a0, stale, extra), m)
  {
  }

  lemma {:induction false} StepsLength(s: State, m: map<nat, nat>, short: nat -> nat, extra: bool, src: seq<Entry>,
                                       n: nat)
    requires Fits(s, m) && n <= |src|
    ensures |Steps(s, m, short, extra, src, n).a| == |s.a|
  {
    if n > 0 {
      StepsLength(s, m, short, extra, src, n - 1);
    }
  }

  lemma {:induction false} AfterPool(t: Trace, ids: seq<nat>, stale: nat, extra0: UInt64, short: nat -> nat,
                                     pool: seq<Entry>, extra: seq<Entry>, end: State)
    requires TableOk(t.m, ids, t.e, t.a0) && Ran(t, stale, extra0, short, pool, extra, end)
    ensures Offers(t.mid, t.m) && t.mid.extra == extra0 && |t.mid.a| == |t.a0|
  {
    var start := Start(t.a0, stale, extra0);
    StartOffers(t.m, ids, t.e, t.a0, stale, extra0);
    StepsCount(start, t.m, short, false, pool, t.n1);
    StepsLength(start, t.m, short, false, pool, t.n1);
  }

  lemma {:induction false} AfterExtra(s: State, m: map<nat, nat>, short: nat -> nat, src: seq<Entry>, n: nat)
    requires Offers(s, m) && n <= |src|
    ensures var r := Steps(s, m, short, true, src, n);
            && AllSince(s.a, r.a, src, n)
            && r.extra == Wrapped(s.extra + Gained(s.a, r.a, |r.a|) - Gained(r.a, s.a, |r.a|))
  {
    var r := Steps(s, m, short, true, src, n);
    StepsCount(s, m, short, true, src, n);
    StepsSince(s, m, short, src, n);
    GainedLost(s.a, r.a, |r.a|);
  }

  /** What extra_count says: the slots that the extra transactions filled, less those that they emptied, modulo 2^64. */
  lemma {:induction false} ExtraCountIs(t: Trace, ids: seq<nat>, stale: nat, extra0: UInt64, short: nat -> nat,
                                        pool: seq<Entry>, extra: seq<Entry>, end: State)
    requires TableOk(t.m, ids, t.e, t.a0) && Ran(t, stale, extra0, short, pool, extra, end)
    ensures |t.mid.a| == |t.a0| && AllSince(t.mid.a, end.a, extra, t.n2)
    ensures end.extra == Wrapped(extra0 + Gained(t.mid.a, end.a, |end.a|) - Gained(end.a, t.mid.a, |end.a|))
  {
    AfterPool(t, ids, stale, extra0, short, pool, extra, end);
    AfterExtra(t.mid, t.m, short, extra, t.n2);
  }

  // ---------------------------------------------------------------- the slots, by the sources

  /** None of the first `n` sources has the short ID. */
  ghost predicate NoneHas(src: seq<Entry>, short: nat -> nat, x: nat, n: nat)
    requires n <= |src|
  {
    forall j :: 0 <= j < n ==> short(src[j].0) != x
  }

  /** Of the first `n` sources the `j`-th alone has it. */
  ghost predicate AloneHas(src: seq<Entry>, short: nat -> nat, x: nat, n: nat, j: nat)
    requires n <= |src|
  {
    j < n && forall i :: 0 <= i < n ==> (short(src[i].0) == x <==> i == j)
  }

  /** Those of the first `n` sources that have it are the transaction with this witness hash. */
  ghost predicate AllAre(src: seq<Entry>, short: nat -> nat, x: nat, n: nat, witnessHash: nat)
    requires n <= |src|
  {
    forall j :: 0 <= j < n && short(src[j].0) == x ==> src[j].1.witnessHash == witnessHash
  }

  /** Those of the first `n` sources that have it are one transaction. */
  ghost predicate AllSame(src: seq<Entry>, short: nat -> nat, x: nat, n: nat)
    requires n <= |src|
  {
    forall i, j :: 0 <= i < j < n && short(src[i].0) == short(src[j].0) == x ==>
      src[i].1.witnessHash == src[j].1.witnessHash
  }

  ghost predicate Injective(m: map<nat, nat>) {
    forall x, y :: x in m && y in m && m[x] == m[y] ==> x == y
  }

  lemma {:induction false} TableInjective(m: map<nat, nat>, ids: seq<nat>, e: seq<nat>, a: Slots)
    requires TableOk(m, ids, e, a)
    ensures Injective(m)
  {
    forall x, y | x in m && y in m && m[x] == m[y]
      ensures x == y
    {
      var i :| 0 <= i < |ids| && ids[i] == x && m[x] == e[i];
      var j :| 0 <= j < |ids| && ids[j] == y && m[y] == e[j];
      SlotsApart(e, i, j);
    }
  }

  lemma {:induction false} SlotsApart(e: seq<nat>, i: nat, j: nat)
    requires i < |e| && j < |e| && forall a, b :: 0 <= a < b < |e| ==> e[a] < e[b]
    ensures e[i] == e[j] ==> i == j
  {
  }

  /** The slot of an ID once the first `n` of the pool have been looked at: filled if one of them alone has it. */
  ghost predicate PoolSlot(s: State, m: map<nat, nat>, short: nat -> nat, pool: seq<Entry>, n: nat, x: nat)
    requires Fits(s, m) && x in m && n <= |pool|
  {
    && (s.have[m[x]] <==> !NoneHas(pool, short, x, n))
    && (s.a[m[x]].Some? <==> exists j: nat :: AloneHas(pool, short, x, n, j))
    && (forall j: nat :: AloneHas(pool, short, x, n, j) ==> s.a[m[x]] == Some(pool[j].1))
  }

  lemma {:induction false} PoolSteps(s: State, m: map<nat, nat>, short: nat -> nat, pool: seq<Entry>, n: nat, x: nat)
    requires Fits(s, m) && Injective(m) && x in m && n <= |pool| && !s.have[m[x]] && s.a[m[x]].None?
    ensures PoolSlot(Steps(s, m, short, false, pool, n), m, short, pool, n, x)
  {
    if n > 0 {
      var q, entry := Steps(s, m, short, false, pool, n - 1), pool[n - 1];
      PoolSteps(s, m, short, pool, n - 1, x);
      if short(entry.0) == x {
        PoolHit(q, m, short, pool, n - 1, x);
      } else {
        PoolPassed(q, Step(q, m, short, false, entry), m, short, pool, n - 1, n, x);
      }
    }
  }

  /** The next one of the pool has the ID. */
  lemma {:induction false} PoolHit(q: State, m: map<nat, nat>, short: nat -> nat, pool: seq<Entry>, n: nat, x: nat)
    requires Fits(q, m) && x in m && n < |pool| && PoolSlot(q, m, short, pool, n, x) && short(pool[n].0) == x
    ensures PoolSlot(Step(q, m, short, false, pool[n]), m, short, pool, n + 1, x)
  {
    if NoneHas(pool, short, x, n) {
      assert AloneHas(pool, short, x, n + 1, n);
    } else {
      TwoHave(pool, short, x, n + 1);
    }
  }

  lemma {:induction false} TwoHave(pool: seq<Entry>, short: nat -> nat, x: nat, n: nat)
    requires 0 < n <= |pool| && short(pool[n - 1].0) == x && !NoneHas(pool, short, x, n - 1)
    ensures !exists j: nat :: AloneHas(pool, short, x, n, j)
  {
    var i :| 0 <= i < n - 1 && short(pool[i].0) == x;
    forall j: nat
      ensures !AloneHas(pool, short, x, n, j)
    {
    }
  }

  /** The next one has another, and the slot is as it was. */
  lemma {:induction false} PoolPassed(q: State, r: State, m: map<nat, nat>, short: nat -> nat, pool: seq<Entry>,
                                      k: nat, n: nat, x: nat)
    requires Fits(q, m) && Fits(r, m) && x in m && n == k + 1 <= |pool| && PoolSlot(q, m, short, pool, k, x)
    requires short(pool[k].0) != x && r.have[m[x]] == q.have[m[x]] && r.a[m[x]] == q.a[m[x]]
    ensures PoolSlot(r, m, short, pool, n, x)
  {
    assert NoneHas(pool, short, x, k) <==> NoneHas(pool, short, x, n);
    assert forall j: nat :: AloneHas(pool, short, x, k, j) <==> AloneHas(pool, short, x, n, j);
  }

  /** The slot of an ID once the first `n` extra transactions have been looked at, from the state `s` after the pool. */
  ghost predicate ExtraSlot(s: State, r: State, m: map<nat, nat>, short: nat -> nat, extra: seq<Entry>, n: nat, x: nat)
    requires Fits(s, m) && Fits(r, m) && x in m && n <= |extra|
  {
    var was, now := s.a[m[x]], r.a[m[x]];
    && (r.have[m[x]] <==> s.have[m[x]] || !NoneHas(extra, short, x, n))
    && (s.have[m[x]] ==>
          now == if was.Some? && AllAre(extra, short, x, n, was.value.witnessHash) then was else None)
    && (!s.have[m[x]] ==>
          && (now.Some? <==> !NoneHas(extra, short, x, n) && AllSame(extra, short, x, n))
          && (now.Some? ==> AllAre(extra, short, x, n, now.value.witnessHash)))
  }

  lemma {:induction false} ExtraSteps(s: State, m: map<nat, nat>, short: nat -> nat, extra: seq<Entry>, n: nat, x: nat)
    requires Fits(s, m) && Injective(m) && x in m && n <= |extra| && (!s.have[m[x]] ==> s.a[m[x]].None?)
    ensures ExtraSlot(s, Steps(s, m, short, true, extra, n), m, short, extra, n, x)
  {
    if n > 0 {
      var q, entry := Steps(s, m, short, true, extra, n - 1), extra[n - 1];
      ExtraSteps(s, m, short, extra, n - 1, x);
      if short(entry.0) == x {
        ExtraHit(s, q, m, short, extra, n - 1, x);
      } else {
        ExtraPassed(s, q, Step(q, m, short, true, entry), m, short, extra, n - 1, x);
      }
    }
  }

  lemma {:induction false} ExtraHit(s: State, q: State, m: map<nat, nat>, short: nat -> nat, extra: seq<Entry>,
                                    n: nat, x: nat)
    requires Fits(s, m) && Fits(q, m) && x in m && n < |extra| && ExtraSlot(s, q, m, short, extra, n, x)
    requires short(extra[n].0) == x && (!s.have[m[x]] ==> s.a[m[x]].None?)
    ensures ExtraSlot(s, Step(q, m, short, true, extra[n]), m, short, extra, n + 1, x)
  {
    var tx := extra[n].1;
    assert !NoneHas(extra, short, x, n + 1);
    if s.have[m[x]] {
      if s.a[m[x]].Some? {
        AreNext(extra, short, x, n, s.a[m[x]].value.witnessHash);
      }
    } else if NoneHas(extra, short, x, n) {
      assert AllSame(extra, short, x, n + 1) && AllAre(extra, short, x, n + 1, tx.witnessHash);
    } else {
      SameNext(extra, short, x, n);
      if q.a[m[x]].Some? {
        AreNext(extra, short, x, n, q.a[m[x]].value.witnessHash);
      }
    }
  }

  lemma {:induction false} SameNext(extra: seq<Entry>, short: nat -> nat, x: nat, n: nat)
    requires n < |extra| && short(extra[n].0) == x && !NoneHas(extra, short, x, n)
    ensures AllSame(extra, short, x, n + 1) <==>
            AllSame(extra, short, x, n) && AllAre(extra, short, x, n, extra[n].1.witnessHash)
    ensures forall w :: AllAre(extra, short, x, n, w) ==>
              (AllAre(extra, short, x, n, extra[n].1.witnessHash) <==> extra[n].1.witnessHash == w)
  {
    var i :| 0 <= i < n && short(extra[i].0) == x;
    if AllSame(extra, short, x, n + 1) {
      forall j | 0 <= j < n && short(extra[j].0) == x
        ensures extra[j].1.witnessHash == extra[n].1.witnessHash
      {
      }
    }
  }

  lemma {:induction false} ExtraPassed(s: State, q: State, r: State, m: map<nat, nat>, short: nat -> nat,
                                       extra: seq<Entry>, n: nat, x: nat)
    requires Fits(s, m) && Fits(q, m) && Fits(r, m) && x in m && n < |extra| && ExtraSlot(s, q, m, short, extra, n, x)
    requires short(extra[n].0) != x && r.have[m[x]] == q.have[m[x]] && r.a[m[x]] == q.a[m[x]]
    ensures ExtraSlot(s, r, m, short, extra, n + 1, x)
  {
    assert NoneHas(extra, short, x, n) <==> NoneHas(extra, short, x, n + 1);
    assert AllSame(extra, short, x, n) <==> AllSame(extra, short, x, n + 1);
    if s.a[m[x]].Some? {
      AreNext(extra, short, x, n, s.a[m[x]].value.witnessHash);
    }
    if r.a[m[x]].Some? {
      AreNext(extra, short, x, n, r.a[m[x]].value.witnessHash);
    }
  }

  lemma {:induction false} AreNext(extra: seq<Entry>, short: nat -> nat, x: nat, n: nat, w: nat)
    requires n < |extra|
    ensures AllAre(extra, short, x, n + 1, w) <==>
            AllAre(extra, short, x, n, w) && (short(extra[n].0) == x ==> extra[n].1.witnessHash == w)
  {
  }

  /** The extra transactions fill the slot of an ID: the pool has none for it, and all of theirs are the same. */
  ghost predicate Newcomer(pool: seq<Entry>, n1: nat, extra: seq<Entry>, n2: nat, short: nat -> nat, x: nat)
    requires n1 <= |pool| && n2 <= |extra|
  {
    NoneHas(pool, short, x, n1) && !NoneHas(extra, short, x, n2) && AllSame(extra, short, x, n2)
  }

  /** They empty it: the pool has one transaction for it, and they have a different one. */
  ghost predicate Rival(pool: seq<Entry>, n1: nat, extra: seq<Entry>, n2: nat, short: nat -> nat, x: nat)
    requires n1 <= |pool| && n2 <= |extra|
  {
    exists j: nat :: AloneHas(pool, short, x, n1, j) && !AllAre(extra, short, x, n2, pool[j].1.witnessHash)
  }

  lemma {:induction false} SlotChange(s: State, r: State, m: map<nat, nat>, short: nat -> nat, pool: seq<Entry>,
                                      n1: nat, extra: seq<Entry>, n2: nat, x: nat)
    requires Fits(s, m) && Fits(r, m) && |s.a| == |r.a| && x in m && n1 <= |pool| && n2 <= |extra|
    requires PoolSlot(s, m, short, pool, n1, x) && ExtraSlot(s, r, m, short, extra, n2, x)
    ensures GainedAt(s.a, r.a, m[x]) <==> Newcomer(pool, n1, extra, n2, short, x)
    ensures GainedAt(r.a, s.a, m[x]) <==> Rival(pool, n1, extra, n2, short, x)
  {
    if j: nat :| AloneHas(pool, short, x, n1, j) {
      assert !NoneHas(pool, short, x, n1) && s.a[m[x]] == Some(pool[j].1);
      assert forall i: nat :: AloneHas(pool, short, x, n1, i) ==> i == j;
    }
  }

  ghost function Trues(b: seq<bool>, k: nat): (c: nat)
    requires k <= |b|
    ensures c <= k
  {
    if k == 0 then 0 else Trues(b, k - 1) + One(b[k - 1])
  }

  /** How many IDs there are of each kind. */
  ghost function Newcomers(pool: seq<Entry>, n1: nat, extra: seq<Entry>, n2: nat, short: nat -> nat,
                           ids: seq<nat>): (c: nat)
    requires n1 <= |pool| && n2 <= |extra|
  {
    Trues(seq(|ids|, k requires 0 <= k < |ids| => Newcomer(pool, n1, extra, n2, short, ids[k])), |ids|)
  }

  ghost function Rivals(pool: seq<Entry>, n1: nat, extra: seq<Entry>, n2: nat, short: nat -> nat,
                        ids: seq<nat>): (c: nat)
    requires n1 <= |pool| && n2 <= |extra|
  {
    Trues(seq(|ids|, k requires 0 <= k < |ids| => Rival(pool, n1, extra, n2, short, ids[k])), |ids|)
  }

  ghost predicate GainedAt(s: Slots, r: Slots, i: nat)
    requires i < |s| == |r|
  {
    s[i].None? && r[i].Some?
  }

  /** The slots gained are counted by the listed ones, the first `k` of which are below `i`. */
  lemma {:induction false} GainedAre(s: Slots, r: Slots, e: seq<nat>, gain: seq<bool>, i: nat, k: nat)
    requires |s| == |r| && |e| == |gain| && i <= |s| && k <= |e|
    requires forall j :: 0 <= j < |e| ==> e[j] < |s| && (gain[j] <==> GainedAt(s, r, e[j]))
    requires forall j :: 0 <= j < |e| ==> (j < k <==> e[j] < i)
    requires forall a, b :: 0 <= a < b < |e| ==> e[a] < e[b]
    requires forall j :: 0 <= j < |s| && j !in e ==> !GainedAt(s, r, j)
    ensures Gained(s, r, i) == Trues(gain, k)
    decreases i
  {
    if i > 0 {
      if k > 0 && e[k - 1] == i - 1 {
        assert GainedAt(s, r, i - 1) <==> gain[k - 1];
        GainedAre(s, r, e, gain, i - 1, k - 1);
      } else {
        NotListed(e, i, k);
        GainedAre(s, r, e, gain, i - 1, k);
      }
    } else {
      assert |e| > 0 ==> !(e[0] < i);
    }
  }

  lemma {:induction false} NotListed(e: seq<nat>, i: nat, k: nat)
    requires 0 < i && k <= |e| && (k > 0 ==> e[k - 1] != i - 1)
    requires forall j :: 0 <= j < |e| ==> (j < k <==> e[j] < i)
    requires forall a, b :: 0 <= a < b < |e| ==> e[a] < e[b]
    ensures i - 1 !in e && forall j :: 0 <= j < |e| ==> (j < k <==> e[j] < i - 1)
  {
    forall j | 0 <= j < |e|
      ensures e[j] != i - 1
    {
      if j < k - 1 {
        assert e[j] < e[k - 1] < i;
      }
    }
  }

  /** Slots that are not for an ID stay as they are. */
  lemma {:induction false} OtherSlots(s: State, m: map<nat, nat>, short: nat -> nat, extra: bool, src: seq<Entry>,
                                      n: nat, i: nat)
    requires Fits(s, m) && n <= |src| && i < |s.a| && forall x :: x in m ==> m[x] != i
    ensures var r := Steps(s, m, short, extra, src, n); |r.a| == |s.a| && r.a[i] == s.a[i]
  {
    if n > 0 {
      OtherSlots(s, m, short, extra, src, n - 1, i);
    }
  }

  lemma {:induction false} CountChanges(s: Slots, r: Slots, e: seq<nat>, pool: seq<Entry>, n1: nat, extra: seq<Entry>,
                                        n2: nat, short: nat -> nat, ids: seq<nat>)
    requires |s| == |r| && |e| == |ids| && n1 <= |pool| && n2 <= |extra|
    requires forall a, b :: 0 <= a < b < |e| ==> e[a] < e[b]
    requires forall k :: 0 <= k < |e| ==> e[k] < |s|
    requires forall i :: 0 <= i < |s| && i !in e ==> s[i] == r[i]
    requires forall k :: 0 <= k < |ids| ==>
               && (GainedAt(s, r, e[k]) <==> Newcomer(pool, n1, extra, n2, short, ids[k]))
               && (GainedAt(r, s, e[k]) <==> Rival(pool, n1, extra, n2, short, ids[k]))
    ensures Gained(s, r, |s|) == Newcomers(pool, n1, extra, n2, short, ids)
    ensures Gained(r, s, |s|) == Rivals(pool, n1, extra, n2, short, ids)
  {
    var filled := seq(|ids|, k requires 0 <= k < |ids| => Newcomer(pool, n1, extra, n2, short, ids[k]));
    var emptied := seq(|ids|, k requires 0 <= k < |ids| => Rival(pool, n1, extra, n2, short, ids[k]));
    GainedAre(s, r, e, filled, |s|, |ids|);
    GainedAre(r, s, e, emptied, |s|, |ids|);
  }

  /** The state after the pool, and what the first `n` extra transactions make of it. */
  ghost predicate RanTo(t: Trace, ids: seq<nat>, stale: nat, extra0: UInt64, short: nat -> nat, pool: seq<Entry>,
                        extra: seq<Entry>, n: nat, r: State)
  {
    && TableOk(t.m, ids, t.e, t.a0) && Fits(Start(t.a0, stale, extra0), t.m) && t.n1 <= |pool| && n <= |extra|
    && t.mid == Steps(Start(t.a0, stale, extra0), t.m, short, false, pool, t.n1)
    && |t.mid.a| == |r.a| == |t.a0| && Offers(t.mid, t.m) && r == Steps(t.mid, t.m, short, true, extra, n)
  }

  lemma {:induction false} ChangeAt(t: Trace, ids: seq<nat>, stale: nat, extra0: UInt64, short: nat -> nat,
                                    pool: seq<Entry>, extra: seq<Entry>, n: nat, r: State, k: nat)
    requires RanTo(t, ids, stale, extra0, short, pool, extra, n, r) && k < |ids|
    ensures GainedAt(t.mid.a, r.a, t.e[k]) <==> Newcomer(pool, t.n1, extra, n, short, ids[k])
    ensures GainedAt(r.a, t.mid.a, t.e[k]) <==> Rival(pool, t.n1, extra, n, short, ids[k])
  {
    TableInjective(t.m, ids, t.e, t.a0);
    PoolSteps(Start(t.a0, stale, extra0), t.m, short, pool, t.n1, ids[k]);
    ExtraSteps(t.mid, t.m, short, extra, n, ids[k]);
    SlotChange(t.mid, r, t.m, short, pool, t.n1, extra, n, ids[k]);
  }

  /** The slots that the first `n` extra transactions fill and empty, by the sources that were looked at. */
  lemma {:induction false} ChangedAre(t: Trace, ids: seq<nat>, stale: nat, extra0: UInt64, short: nat -> nat,
                                      pool: seq<Entry>, extra: seq<Entry>, n: nat, r: State)
    requires RanTo(t, ids, stale, extra0, short, pool, extra, n, r)
    ensures Gained(t.mid.a, r.a, |r.a|) == Newcomers(pool, t.n1, extra, n, short, ids)
    ensures Gained(r.a, t.mid.a, |r.a|) == Rivals(pool, t.n1, extra, n, short, ids)
  {
    forall k | 0 <= k < |ids|
      ensures GainedAt(t.mid.a, r.a, t.e[k]) <==> Newcomer(pool, t.n1, extra, n, short, ids[k])
      ensures GainedAt(r.a, t.mid.a, t.e[k]) <==> Rival(pool, t.n1, extra, n, short, ids[k])
    {
      ChangeAt(t, ids, stale, extra0, short, pool, extra, n, r, k);
    }
    forall i | 0 <= i < |r.a| && i !in t.e
      ensures t.mid.a[i] == r.a[i]
    {
      OtherSlots(t.mid, t.m, short, true, extra, n, i);
    }
    CountChanges(t.mid.a, r.a, t.e, pool, t.n1, extra, n, short, ids);
  }

  lemma {:induction false} RanToHolds(t: Trace, ids: seq<nat>, stale: nat, extra0: UInt64, short: nat -> nat,
                                      pool: seq<Entry>, extra: seq<Entry>, end: State, n: nat)
    requires TableOk(t.m, ids, t.e, t.a0) && Ran(t, stale, extra0, short, pool, extra, end) && n <= |extra|
    ensures RanTo(t, ids, stale, extra0, short, pool, extra, n, Steps(t.mid, t.m, short, true, extra, n))
  {
    AfterPool(t, ids, stale, extra0, short, pool, extra, end);
    StepsLength(t.mid, t.m, short, true, extra, n);
  }

  /** Where the search among the extra transactions ends is known from the sources too, by the count after each. */
  lemma {:induction false} ExtraProgress(t: Trace, ids: seq<nat>, stale: nat, extra0: UInt64, short: nat -> nat,
                                         pool: seq<Entry>, extra: seq<Entry>, end: State, n: nat)
    requires TableOk(t.m, ids, t.e, t.a0) && Ran(t, stale, extra0, short, pool, extra, end) && n <= |extra|
    ensures Steps(t.mid, t.m, short, true, extra, n).count
         == t.mid.count + Newcomers(pool, t.n1, extra, n, short, ids) - Rivals(pool, t.n1, extra, n, short, ids)
  {
    var r := Steps(t.mid, t.m, short, true, extra, n);
    RanToHolds(t, ids, stale, extra0, short, pool, extra, end, n);
    ChangedAre(t, ids, stale, extra0, short, pool, extra, n, r);
    StepsCount(t.mid, t.m, short, true, extra, n);
    GainedLost(t.mid.a, r.a, |r.a|);
  }

  /** How many IDs one of the first `n` of the pool has alone. */
  ghost function Alones(pool: seq<Entry>, n: nat, short: nat -> nat, ids: seq<nat>): (c: nat)
    requires n <= |pool|
  {
    Trues(seq(|ids|, k requires 0 <= k < |ids| => OneHas(pool, short, ids[k], n)), |ids|)
  }

  ghost predicate OneHas(src: seq<Entry>, short: nat -> nat, x: nat, n: nat)
    requires n <= |src|
  {
    exists j: nat :: AloneHas(src, short, x, n, j)
  }

  /** And so is where the search in the pool ends. */
  lemma {:induction false} PoolProgress(m: map<nat, nat>, ids: seq<nat>, e: seq<nat>, a0: Slots, stale: nat,
                                        extra0: UInt64, short: nat -> nat, pool: seq<Entry>, n: nat)
    requires TableOk(m, ids, e, a0) && Fits(Start(a0, stale, extra0), m) && n <= |pool|
    ensures Steps(Start(a0, stale, extra0), m, short, false, pool, n).count == stale + Alones(pool, n, short, ids)
  {
    var s := Start(a0, stale, extra0);
    var r := Steps(s, m, short, false, pool, n);
    var alone := seq(|ids|, k requires 0 <= k < |ids| => OneHas(pool, short, ids[k], n));
    StartOffers(m, ids, e, a0, stale, extra0);
    StepsCount(s, m, short, false, pool, n);
    StepsLength(s, m, short, false, pool, n);
    TableInjective(m, ids, e, a0);
    forall k | 0 <= k < |ids|
      ensures alone[k] <==> GainedAt(a0, r.a, e[k])
    {
      PoolSteps(s, m, short, pool, n, ids[k]);
    }
    forall i | 0 <= i < |a0| && i !in e
      ensures r.a[i] == a0[i]
    {
      OtherSlots(s, m, short, false, pool, n, i);
    }
    GainedAre(a0, r.a, e, alone, |a0|, |ids|);
    NoneLost(a0, r.a, e, |a0|);
    GainedLost(a0, r.a, |a0|);
  }

  lemma {:induction false} NoneLost(s: Slots, r: Slots, e: seq<nat>, n: nat)
    requires n <= |s| == |r| && (forall i :: 0 <= i < |s| && i !in e ==> s[i] == r[i])
    requires forall i :: 0 <= i < |s| && i in e ==> s[i].None?
    ensures Gained(r, s, n) == 0
  {
    if n > 0 {
      NoneLost(s, r, e, n - 1);
    }
  }

  /**
   On a new object the count is a lower bound for the slots that hold an extra transaction, as the log line has it,
   if and only if there are no more IDs for which the pool has one transaction and the extra transactions a
   different one than there are IDs for which only the extra transactions have one.
   */
  lemma {:induction false} LowerBoundIff(t: Trace, ids: seq<nat>, stale: nat, short: nat -> nat, pool: seq<Entry>,
                                         extra: seq<Entry>, end: State)
    requires TableOk(t.m, ids, t.e, t.a0) && |t.a0| <= 0xffff && Ran(t, stale, 0, short, pool, extra, end)
    ensures |end.a| == |t.mid.a| && t.n1 <= |pool| && t.n2 <= |extra|
    ensures end.extra <= Gained(t.mid.a, end.a, |end.a|)
       <==> Rivals(pool, t.n1, extra, t.n2, short, ids) <= Newcomers(pool, t.n1, extra, t.n2, short, ids)
  {
    ExtraCountIs(t, ids, stale, 0, short, pool, extra, end);
    RanToHolds(t, ids, stale, 0, short, pool, extra, end, t.n2);
    ChangedAre(t, ids, stale, 0, short, pool, extra, t.n2, end);
    SmallWrap(Gained(t.mid.a, end.a, |end.a|), Gained(end.a, t.mid.a, |end.a|));
  }

  lemma {:induction false} SmallWrap(filled: nat, emptied: nat)
    requires filled <= 0xffff && emptied <= 0xffff
    ensures Wrapped(0 + filled - emptied) <= filled <==> emptied <= filled
  {
    if emptied > filled {
      Quotient(filled - emptied, TWO_64, -1, TWO_64 + filled - emptied);
    }
  }

  // ---------------------------------------------------------------- a count below zero

  const ONE_POOL: seq<Entry> := [(1, Named(1))]
  const ONE_EXTRA: seq<Entry> := [(3, Named(3))]

  function Parity(hash: nat): nat {
    hash % 2
  }

  lemma {:induction false} WrappingRun(t: Trace, end: State)
    requires TwoSlotTrace(t, 1) && Ran(t, 0, 0, Parity, ONE_POOL, ONE_EXTRA, end)
    ensures end.a == t.a0 && end.extra == TWO_64 - 1
  {
    var s0 := Start(t.a0, 0, 0);
    assert Parity(1) == 1 && Parity(3) == 1;
    assert Steps(s0, t.m, Parity, false, ONE_POOL, 1) == Step(s0, t.m, Parity, false, ONE_POOL[0]);
    assert t.n1 == 1;
    assert Steps(t.mid, t.m, Parity, true, ONE_EXTRA, 1) == Step(t.mid, t.m, Parity, true, ONE_EXTRA[0]);
    assert t.n2 == 1;
    Quotient(TWO_64 - 1, TWO_64, 0, TWO_64 - 1);
  }

  /**
   The pool has a transaction with the short ID of the block, and the extra transactions another one.  The slot
   is emptied, no extra transaction is used, and extra_count is 2^64 - 1.
   */
  method ExtraCountWraps() returns (peer: PartiallyDownloadedBlock, status: ReadStatus)
    ensures status == OK && peer.txnAvailable == [Some(Named(0)), None]
    ensures peer.mempoolCount == 0 && peer.extraCount == TWO_64 - 1
  {
    peer := new PartiallyDownloadedBlock(ONE_POOL, 100000);
    AnnouncedIsGood(10, 1);
    ghost var t;
    status, t := peer.InitData(Announced(10, 1), ONE_EXTRA, Parity, false);
    TwoSlots(t, 1);
    WrappingRun(t, peer.Now(t.have));
  }
}
