/**
 Compact blocks (src/blockencodings.cpp): a block is announced by short transaction IDs and
 a few prefilled transactions, reconstructed from the memory pool and a list of extra
 transactions, and completed with the transactions that were missing.

 SipHash, the transaction hash that it is applied to, the bucket sizes of the hash table and
 the verdict of CheckBlock are parameters.
 */
module BlockEncodings {
  import opened Collections
  import opened Numbers
  import opened Wrappers

  datatype Tx = Tx(witnessHash: nat, isHogEx: bool, isNull: bool)

  /** A hash and its transaction, as the memory pool and the list of extra transactions keep them. */
  type Entry = (nat, Tx)

  type UInt16 = i: nat | i < 0x1_0000

  datatype Prefilled = Prefilled(index: UInt16, tx: Tx)

  datatype Block = Block(header: nat, vtx: seq<Tx>, mweb: bool)

  datatype CompactBlock = CompactBlock(header: Option<nat>, ids: seq<nat>, prefilled: seq<Prefilled>, mweb: bool)

  datatype ReadStatus = OK | INVALID | FAILED | CHECKBLOCK_FAILED

  // ---------------------------------------------------------------- announcing

  /** The HogEx transaction, if any, is the last one, and is there exactly with MWEB data. */
  ghost predicate HogExLast(b: Block) {
    && |b.vtx| > 0 && !b.vtx[0].isHogEx
    && (b.mweb ==> |b.vtx| > 1)
    && forall i :: 0 < i < |b.vtx| ==> (b.vtx[i].isHogEx <==> b.mweb && i == |b.vtx| - 1)
  }

  /** The short IDs of the transactions from the second on that are not HogEx. */
  ghost function IdsUpTo(vtx: seq<Tx>, id: Tx -> nat, n: nat): (s: seq<nat>)
    requires n <= |vtx|
  {
    if n <= 1 then [] else IdsUpTo(vtx, id, n - 1) + if vtx[n - 1].isHogEx then [] else [id(vtx[n - 1])]
  }

  /**
   What is announced of a block: the first transaction and, with MWEB data, the last one in full,
   the rest by short ID.
   */
  ghost predicate IsAnnouncement(b: Block, id: Tx -> nat, c: CompactBlock)
    requires |b.vtx| > 0
  {
    && c.header == Some(b.header) && c.mweb == b.mweb && c.ids == IdsUpTo(b.vtx, id, |b.vtx|)
    && c.prefilled == [Prefilled(0, b.vtx[0])] +
                      if b.mweb then [Prefilled((|b.vtx| - 2) % 0x1_0000, b.vtx[|b.vtx| - 1])] else []
  }

  method Announce(b: Block, id: Tx -> nat) returns (c: CompactBlock)
    requires |b.vtx| > 0
    ensures IsAnnouncement(b, id, c)
  {
    var prefilled := [Prefilled(0, b.vtx[0])];
    if b.mweb {
      prefilled := prefilled + [Prefilled((|b.vtx| - 2) % 0x1_0000, b.vtx[|b.vtx| - 1])];
    }
    var ids := [];
    for i := 1 to |b.vtx|
      invariant ids == IdsUpTo(b.vtx, id, i)
    {
      if !b.vtx[i].isHogEx {
        ids := ids + [id(b.vtx[i])];
      }
    }
    c := CompactBlock(Some(b.header), ids, prefilled, b.mweb);
  }

  /** The HogEx transactions after the first transaction, among the first `n`. */
  ghost function HogExes(vtx: seq<Tx>, n: nat): nat
    requires n <= |vtx|
  {
    if n <= 1 then 0 else HogExes(vtx, n - 1) + if vtx[n - 1].isHogEx then 1 else 0
  }

  lemma {:induction false} IdsCount(vtx: seq<Tx>, id: Tx -> nat, n: nat)
    requires 1 <= n <= |vtx|
    ensures |IdsUpTo(vtx, id, n)| + HogExes(vtx, n) == n - 1
  {
    if n > 1 {
      IdsCount(vtx, id, n - 1);
    }
  }

  /**
   An announcement has a place for every transaction exactly if there is one HogEx with MWEB data
   and none without.
   */
  lemma {:induction false} AnnouncementSize(b: Block, id: Tx -> nat, c: CompactBlock)
    requires |b.vtx| > 0 && IsAnnouncement(b, id, c)
    ensures |c.ids| + |c.prefilled| == |b.vtx| <==> HogExes(b.vtx, |b.vtx|) == if b.mweb then 1 else 0
  {
    IdsCount(b.vtx, id, |b.vtx|);
  }

  lemma {:induction false} IdsAt(b: Block, id: Tx -> nat, n: nat)
    requires HogExLast(b) && 1 <= n <= |b.vtx| && (n == |b.vtx| ==> !b.mweb)
    ensures |IdsUpTo(b.vtx, id, n)| == n - 1
    ensures forall k :: 0 <= k < n - 1 ==> IdsUpTo(b.vtx, id, n)[k] == id(b.vtx[k + 1])
  {
    if n > 1 {
      IdsAt(b, id, n - 1);
    }
  }

  // ---------------------------------------------------------------- slots

  type Slots = seq<Option<Tx>>

  /** How many of the first `n` slots are filled. */
  ghost function Filled(a: Slots, n: nat): (c: nat)
    requires n <= |a|
    ensures c <= n
  {
    if n == 0 then 0 else Filled(a, n - 1) + if a[n - 1].Some? then 1 else 0
  }

  lemma {:induction false} FilledUpdate(a: Slots, i: nat, x: Option<Tx>, n: nat)
    requires i < |a| && n <= |a|
    ensures Filled(a[i := x], n) ==
            Filled(a, n) + if i < n then (if x.Some? then 1 else 0) - (if a[i].Some? then 1 else 0) else 0
  {
    if n > 0 {
      FilledUpdate(a, i, x, n - 1);
    }
  }

  /** The empty ones of the first `n` slots, in order. */
  ghost function Empties(a: Slots, n: nat): (e: seq<nat>)
    requires n <= |a|
    ensures |e| == n - Filled(a, n)
    ensures forall k :: 0 <= k < |e| ==> e[k] < n
  {
    if n == 0 then [] else Empties(a, n - 1) + if a[n - 1].Some? then [] else [n - 1]
  }

  /** `e` lists the empty ones of the first `n` slots, in order. */
  ghost predicate EmptyUpTo(a: Slots, e: seq<nat>, n: nat)
    requires n <= |a|
  {
    && (forall k :: 0 <= k < |e| ==> e[k] < n && a[e[k]].None?)
    && (forall j, k :: 0 <= j < k < |e| ==> e[j] < e[k])
    && (forall i :: 0 <= i < n && a[i].None? ==> i in e)
  }

  ghost predicate EmptySlots(a: Slots, e: seq<nat>) {
    EmptyUpTo(a, e, |a|)
  }

  lemma {:induction false} EmptiesAre(a: Slots, n: nat)
    requires n <= |a|
    ensures EmptyUpTo(a, Empties(a, n), n)
  {
    if n > 0 {
      EmptiesAre(a, n - 1);
    }
  }

  /** There is no empty slot between two consecutive ones of the list, nor before the first. */
  lemma {:induction false} GapFilled(a: Slots, e: seq<nat>, i: nat, pos: nat)
    requires EmptySlots(a, e) && i < |e| && pos < e[i] && (i > 0 ==> e[i - 1] < pos)
    ensures a[pos].Some?
  {
    forall k | 0 <= k < |e| ensures e[k] != pos {
      if k < i {
        Ascends(e, k, i - 1);
      } else {
        Ascends(e, i, k);
      }
    }
  }

  lemma {:induction false} Ascends(e: seq<nat>, j: nat, k: nat)
    requires j <= k < |e| && forall x, y :: 0 <= x < y < |e| ==> e[x] < e[y]
    ensures e[j] <= e[k]
  {
  }

  // ---------------------------------------------------------------- prefilling

  /** The slot of prefilled transaction `k`, from the differences in the message. */
  ghost function Position(p: seq<Prefilled>, k: nat): (pos: nat)
    requires k < |p|
  {
    if k == 0 then p[0].index else Position(p, k - 1) + p[k].index + 1
  }

  /** Every prefilled transaction has a slot for which the short IDs and the ones before it suffice. */
  ghost predicate GoodPrefill(p: seq<Prefilled>, ids: nat) {
    forall k {:trigger GoodEntry(p, ids, k)} :: 0 <= k < |p| ==> GoodEntry(p, ids, k)
  }

  ghost predicate GoodEntry(p: seq<Prefilled>, ids: nat, k: nat)
    requires k < |p|
  {
    !p[k].tx.isNull && Position(p, k) <= 0xffff && Position(p, k) <= ids + k
  }

  lemma {:induction false} PositionsAscend(p: seq<Prefilled>, j: nat, k: nat)
    requires j < k < |p|
    ensures Position(p, j) < Position(p, k)
  {
    if j < k - 1 {
      PositionsAscend(p, j, k - 1);
    }
  }

  /** The first `k` prefilled transactions are in their slots and no other slot is filled. */
  ghost predicate Placed(a: Slots, p: seq<Prefilled>, k: nat)
    requires k <= |p|
  {
    && (forall j {:trigger PlacedAt(a, p, j)} :: 0 <= j < k ==> PlacedAt(a, p, j))
    && (forall i :: 0 <= i < |a| && a[i].Some? ==> IsPosition(p, k, i))
    && Filled(a, |a|) == k
  }

  ghost predicate PlacedAt(a: Slots, p: seq<Prefilled>, j: nat)
    requires j < |p|
  {
    Position(p, j) < |a| && a[Position(p, j)] == Some(p[j].tx)
  }

  ghost predicate IsPosition(p: seq<Prefilled>, k: nat, i: nat)
    requires k <= |p|
  {
    exists j :: 0 <= j < k && Position(p, j) == i
  }

  lemma {:induction false} PlaceOne(a: Slots, p: seq<Prefilled>, k: nat)
    requires k < |p| && Placed(a, p, k) && Position(p, k) < |a|
    ensures Placed(a[Position(p, k) := Some(p[k].tx)], p, k + 1)
  {
    var pos := Position(p, k);
    var a' := a[pos := Some(p[k].tx)];
    FilledUpdate(a, pos, Some(p[k].tx), |a|);
    if a[pos].Some? {
      var j :| 0 <= j < k && Position(p, j) == pos;
      PositionsAscend(p, j, k);
      assert false;
    }
    forall j: nat | j < k + 1
      ensures PlacedAt(a', p, j)
    {
      if j < k {
        assert PlacedAt(a, p, j);
        PositionsAscend(p, j, k);
      }
    }
    forall i | 0 <= i < |a'| && a'[i].Some?
      ensures IsPosition(p, k + 1, i)
    {
      if i != pos {
        assert IsPosition(p, k, i);
      }
    }
  }

  // ---------------------------------------------------------------- short IDs

  /** The table of the first `n` short IDs: every one is there, with the slot of one of its occurrences;
      the table is as large as the list exactly if no ID occurs twice. */
  ghost predicate Tabled(m: map<nat, nat>, ids: seq<nat>, e: seq<nat>, n: nat)
    requires n <= |ids| <= |e|
  {
    && (forall k :: 0 <= k < n ==> ids[k] in m)
    && (forall x :: x in m ==> exists k :: 0 <= k < n && ids[k] == x && m[x] == e[k])
    && |m| <= n && (|m| == n <==> Distinct(ids[..n]))
  }

  lemma {:induction false} TableOne(m: map<nat, nat>, ids: seq<nat>, e: seq<nat>, n: nat)
    requires n < |ids| <= |e| && Tabled(m, ids, e, n)
    ensures Tabled(m[ids[n] := e[n]], ids, e, n + 1)
  {
    var x := ids[n];
    var m', a := m[x := e[n]], ids[..n];
    assert ids[..n + 1] == a + [x];
    DistinctAppend(a, x);
    UpdateSize(m, x, e[n]);
    assert x in m <==> x in a by {
      if x in m {
        var k :| 0 <= k < n && ids[k] == x && m[x] == e[k];
        assert a[k] == x;
      }
    }
    TableEntries(m, ids, e, n);
  }

  lemma {:induction false} TableEntries(m: map<nat, nat>, ids: seq<nat>, e: seq<nat>, n: nat)
    requires n < |ids| <= |e| && forall x :: x in m ==> exists k :: 0 <= k < n && ids[k] == x && m[x] == e[k]
    ensures var m' := m[ids[n] := e[n]];
            forall y :: y in m' ==> exists k :: 0 <= k < n + 1 && ids[k] == y && m'[y] == e[k]
  {
    var m' := m[ids[n] := e[n]];
    forall y | y in m' ensures exists k :: 0 <= k < n + 1 && ids[k] == y && m'[y] == e[k] {
      if y != ids[n] {
        var k :| 0 <= k < n && ids[k] == y && m[y] == e[k];
      }
    }
  }

  lemma {:induction false} UpdateSize(m: map<nat, nat>, x: nat, y: nat)
    ensures |m[x := y]| == |m| + if x in m then 0 else 1
  {
    assert m[x := y].Keys == m.Keys + {x};
    assert x in m ==> m[x := y].Keys == m.Keys;
    assert |m[x := y]| == |m[x := y].Keys| && |m| == |m.Keys|;
  }

  lemma {:induction false} DistinctAppend(a: seq<nat>, x: nat)
    ensures Distinct(a + [x]) <==> Distinct(a) && x !in a
  {
    var b := a + [x];
    assert b[|a|] == x && forall k :: 0 <= k < |a| ==> a[k] == b[k];
    assert Distinct(b) ==> forall k :: 0 <= k < |a| ==> b[k] != b[|a|];
  }

  /** With distinct IDs the table gives every ID its own slot, and nothing else. */
  lemma {:induction false} TableExact(m: map<nat, nat>, ids: seq<nat>, e: seq<nat>)
    requires |ids| <= |e| && Tabled(m, ids, e, |ids|) && |m| == |ids|
    ensures Distinct(ids)
    ensures forall k :: 0 <= k < |ids| ==> ids[k] in m && m[ids[k]] == e[k]
    ensures forall x :: x in m ==> exists k :: 0 <= k < |ids| && ids[k] == x && m[x] == e[k]
  {
    assert ids[..|ids|] == ids;
    forall k | 0 <= k < |ids| ensures m[ids[k]] == e[k] {
      var j :| 0 <= j < |ids| && ids[j] == ids[k] && m[ids[k]] == e[j];
      assert j == k;
    }
  }

  // ---------------------------------------------------------------- matching

  /** `e` lists, in order, empty slots of `a`, and the table sends every short ID to its own one of them. */
  ghost predicate TableOk(m: map<nat, nat>, ids: seq<nat>, e: seq<nat>, a: Slots) {
    && SlotsFor(e, ids, a)
    && |m| == |ids| && Distinct(ids)
    && (forall x :: x in m ==> exists k :: 0 <= k < |ids| && ids[k] == x && m[x] == e[k])
    && (forall k :: 0 <= k < |ids| ==> ids[k] in m && m[ids[k]] == e[k])
  }

  ghost predicate SlotsFor(e: seq<nat>, ids: seq<nat>, a: Slots) {
    && |ids| == |e| && (forall j :: 0 <= j < |e| ==> e[j] < |a| && a[e[j]].None?)
    && (forall i, j :: 0 <= i < j < |e| ==> e[i] < e[j])
  }

  ghost predicate FromSource(src: seq<Entry>, short: nat -> nat, id: nat, tx: Tx) {
    exists j :: 0 <= j < |src| && src[j].1 == tx && short(src[j].0) == id
  }

  /** A slot for a short ID holds nothing, or a transaction from the sources that has this short ID. */
  ghost predicate SlotOk(a: Slots, have: seq<bool>, e: seq<nat>, ids: seq<nat>, short: nat -> nat, src: seq<Entry>,
                         k: nat)
    requires k < |ids| <= |e| && e[k] < |a| == |have|
  {
    a[e[k]].Some? ==> have[e[k]] && FromSource(src, short, ids[k], a[e[k]].value)
  }

  ghost predicate Matched(a0: Slots, a: Slots, have: seq<bool>, e: seq<nat>, ids: seq<nat>, short: nat -> nat,
                          src: seq<Entry>, count: nat)
    requires |a| == |a0| == |have| && |ids| == |e| && forall k :: 0 <= k < |e| ==> e[k] < |a|
  {
    && (forall i :: 0 <= i < |a| && i !in e ==> a[i] == a0[i])
    && (forall k {:trigger SlotOk(a, have, e, ids, short, src, k)} :: 0 <= k < |ids| ==>
        SlotOk(a, have, e, ids, short, src, k))
    && Filled(a, |a|) == Filled(a0, |a0|) + count
  }

  /**
   What looking through some sources means for the slot of ID `k`: empty if none of them has the ID
   or if two have it.
   */
  ghost predicate SlotDone(a: Slots, have: seq<bool>, e: seq<nat>, ids: seq<nat>, short: nat -> nat,
                           looked: seq<Entry>, k: nat)
    requires k < |ids| <= |e| && e[k] < |a| == |have|
  {
    && (!have[e[k]] ==> forall j :: 0 <= j < |looked| ==> short(looked[j].0) != ids[k])
    && (a[e[k]].Some? ==> FromSource(looked, short, ids[k], a[e[k]].value))
    && (have[e[k]] && a[e[k]].None? ==> Twice(looked, short, ids[k]))
  }

  ghost predicate Twice(looked: seq<Entry>, short: nat -> nat, id: nat) {
    exists i, j :: 0 <= i < j < |looked| && short(looked[i].0) == short(looked[j].0) == id
  }

  ghost predicate Searched(a: Slots, have: seq<bool>, e: seq<nat>, ids: seq<nat>, short: nat -> nat, looked: seq<Entry>)
    requires |a| == |have| && |ids| == |e| && forall k :: 0 <= k < |e| ==> e[k] < |a|
  {
    forall k {:trigger SlotDone(a, have, e, ids, short, looked, k)} :: 0 <= k < |ids| ==>
      SlotDone(a, have, e, ids, short, looked, k)
  }

  /** Nothing has been looked at yet. */
  lemma {:induction false} StartSearch(a0: Slots, have: seq<bool>, e: seq<nat>, ids: seq<nat>, short: nat -> nat,
                                       src: seq<Entry>)
    requires |a0| == |have| && |ids| == |e| && forall k :: 0 <= k < |e| ==> e[k] < |a0| && a0[e[k]].None?
    requires forall i :: 0 <= i < |have| ==> !have[i]
    ensures Matched(a0, a0, have, e, ids, short, src, 0) && Searched(a0, have, e, ids, short, [])
  {
  }

  lemma {:induction false} StillThere(looked: seq<Entry>, more: seq<Entry>, short: nat -> nat, id: nat, x: Option<Tx>)
    ensures x.Some? && FromSource(looked, short, id, x.value) ==> FromSource(looked + more, short, id, x.value)
    ensures Twice(looked, short, id) ==> Twice(looked + more, short, id)
  {
    if x.Some? && FromSource(looked, short, id, x.value) {
      var j :| 0 <= j < |looked| && looked[j].1 == x.value && short(looked[j].0) == id;
      assert (looked + more)[j] == looked[j];
    }
    if Twice(looked, short, id) {
      var i, j :| 0 <= i < j < |looked| && short(looked[i].0) == short(looked[j].0) == id;
      assert (looked + more)[i] == looked[i] && (looked + more)[j] == looked[j];
    }
  }

  lemma {:induction false} TakeNext(looked: seq<Entry>, src: seq<Entry>, i: nat)
    requires i < |src|
    ensures looked + src[..i] + [src[i]] == looked + src[..i + 1]
  {
  }

  lemma {:induction false} TakeRest(looked: seq<Entry>, src: seq<Entry>, n: nat)
    requires n <= |src|
    ensures looked + src[..n] + src[n..] == looked + src[..|src|]
  {
  }

  /** The last one looked at has the ID: the slot is filled with it, or somebody had it before. */
  lemma {:induction false} LastHasIt(looked: seq<Entry>, entry: Entry, short: nat -> nat, id: nat)
    requires short(entry.0) == id
    ensures FromSource(looked + [entry], short, id, entry.1)
    ensures (exists j :: 0 <= j < |looked| && short(looked[j].0) == id) ==> Twice(looked + [entry], short, id)
  {
    var all := looked + [entry];
    assert all[|looked|] == entry;
    if j :| 0 <= j < |looked| && short(looked[j].0) == id {
      assert all[j] == looked[j];
    }
  }

  /** One more source, offered to the slot of its short ID if there is one. */
  lemma {:induction false} SearchOne(a: Slots, have: seq<bool>, a': Slots, have': seq<bool>, e: seq<nat>,
                                     ids: seq<nat>, short: nat -> nat, looked: seq<Entry>, entry: Entry)
    requires |a| == |have| == |a'| == |have'| && |ids| == |e| && forall k :: 0 <= k < |e| ==> e[k] < |a|
    requires Distinct(ids) && Distinct(e) && Searched(a, have, e, ids, short, looked)
    requires short(entry.0) !in ids ==> a' == a && have' == have
    requires forall k :: 0 <= k < |ids| && ids[k] == short(entry.0) ==> Offered(a, have, a', have', e[k], entry.1)
    ensures Searched(a', have', e, ids, short, looked + [entry])
  {
    forall k: nat | k < |ids|
      ensures SlotDone(a', have', e, ids, short, looked + [entry], k)
    {
      SearchSlot(a, have, a', have', e, ids, short, looked, entry, k);
    }
  }

  lemma {:induction false} SearchSlot(a: Slots, have: seq<bool>, a': Slots, have': seq<bool>, e: seq<nat>,
                                      ids: seq<nat>, short: nat -> nat, looked: seq<Entry>, entry: Entry, k: nat)
    requires |a| == |have| == |a'| == |have'| && |ids| == |e| && forall k :: 0 <= k < |e| ==> e[k] < |a|
    requires Distinct(ids) && Distinct(e) && Searched(a, have, e, ids, short, looked)
    requires short(entry.0) !in ids ==> a' == a && have' == have
    requires forall k :: 0 <= k < |ids| && ids[k] == short(entry.0) ==> Offered(a, have, a', have', e[k], entry.1)
    requires k < |ids|
    ensures SlotDone(a', have', e, ids, short, looked + [entry], k)
  {
    assert SlotDone(a, have, e, ids, short, looked, k);
    StillThere(looked, [entry], short, ids[k], a[e[k]]);
    if m :| 0 <= m < |ids| && ids[m] == short(entry.0) {
      assert Offered(a, have, a', have', e[m], entry.1);
      if m == k {
        LastHasIt(looked, entry, short, ids[k]);
      } else {
        assert e[m] != e[k] && ids[m] != ids[k];
      }
    } else {
      assert ids[k] in ids;
    }
  }

  /** A slot is filled by the first transaction offered; another one may empty it, and then it stays empty. */
  ghost predicate Offered(a: Slots, have: seq<bool>, a': Slots, have': seq<bool>, slot: nat, tx: Tx)
    requires slot < |a| == |have|
  {
    && have' == have[slot := true]
    && (!have[slot] ==> a' == a[slot := Some(tx)])
    && (have[slot] ==> a' == a || (a[slot].Some? && a' == a[slot := None]))
  }

  /** Once every slot is filled, looking further changes nothing that matters. */
  lemma {:induction false} SearchDone(a0: Slots, a: Slots, have: seq<bool>, e: seq<nat>, ids: seq<nat>,
                                      short: nat -> nat, src: seq<Entry>, looked: seq<Entry>, more: seq<Entry>)
    requires |a| == |a0| == |have| && |ids| == |e| && forall k :: 0 <= k < |e| ==> e[k] < |a|
    requires Searched(a, have, e, ids, short, looked) && Matched(a0, a, have, e, ids, short, src, |ids|)
    requires Filled(a0, |a0|) + |e| == |a0|
    ensures Searched(a, have, e, ids, short, looked + more)
  {
    forall k: nat | k < |ids|
      ensures SlotDone(a, have, e, ids, short, looked + more, k)
    {
      AllFilled(a, |a|, e[k]);
      assert SlotDone(a, have, e, ids, short, looked, k) && SlotOk(a, have, e, ids, short, src, k);
      StillThere(looked, more, short, ids[k], a[e[k]]);
    }
  }

  lemma {:induction false} AllFilled(a: Slots, n: nat, i: nat)
    requires i < n <= |a| && Filled(a, n) == n
    ensures a[i].Some?
  {
    if i < n - 1 {
      AllFilled(a, n - 1, i);
    }
  }

  /** A transaction that alone among the sources has a short ID of the block ends up in its slot. */
  lemma {:induction false} UniqueFound(a: Slots, have: seq<bool>, e: seq<nat>, ids: seq<nat>, short: nat -> nat,
                                       src: seq<Entry>, k: nat, j: nat)
    requires |a| == |have| && |ids| == |e| && forall k :: 0 <= k < |e| ==> e[k] < |a|
    requires Searched(a, have, e, ids, short, src) && k < |ids| && j < |src|
    requires forall i :: 0 <= i < |src| ==> (short(src[i].0) == ids[k] <==> i == j)
    ensures a[e[k]] == Some(src[j].1)
  {
    assert SlotDone(a, have, e, ids, short, src, k);
  }

  lemma {:induction false} FilledMono(a: Slots, b: Slots, n: nat)
    requires n <= |a| == |b| && forall i :: 0 <= i < |a| && a[i].Some? ==> b[i].Some?
    ensures Filled(a, n) <= Filled(b, n)
  {
    if n > 0 {
      FilledMono(a, b, n - 1);
    }
  }

  /** Filling or emptying the slot of ID `k`. */
  lemma {:induction false} MatchOne(a0: Slots, a: Slots, have: seq<bool>, e: seq<nat>, ids: seq<nat>,
                                    short: nat -> nat, src: seq<Entry>, count: nat, k: nat, x: Option<Tx>)
    requires |a| == |a0| == |have| && |ids| == |e| && (forall j :: 0 <= j < |e| ==> e[j] < |a|) && k < |e|
    requires Matched(a0, a, have, e, ids, short, src, count) && forall j :: 0 <= j < |e| ==> a0[e[j]].None?
    requires forall i, j :: 0 <= i < j < |e| ==> e[i] < e[j]
    requires x.Some? ==> a[e[k]].None? && FromSource(src, short, ids[k], x.value)
    requires x.None? ==> a[e[k]].Some?
    ensures x.None? ==> count > 0
    ensures Matched(a0, a[e[k] := x], have[e[k] := true], e, ids, short, src, if x.Some? then count + 1 else count - 1)
  {
    var a', have' := a[e[k] := x], have[e[k] := true];
    FilledUpdate(a, e[k], x, |a|);
    if x.None? {
      FilledMono(a0, a', |a|);
    }
    forall j | 0 <= j < |ids| ensures SlotOk(a', have', e, ids, short, src, j) {
      assert SlotOk(a, have, e, ids, short, src, j);
      assert j != k ==> e[j] != e[k];
    }
  }

  // ---------------------------------------------------------------- the search, step by step

  /** What the search changes: the slots, which of them have been offered a transaction, and the two counts. */
  datatype State = State(a: Slots, have: seq<bool>, count: int, extra: UInt64)

  ghost predicate Fits(s: State, m: map<nat, nat>) {
    |s.a| == |s.have| && forall x :: x in m ==> m[x] < |s.a|
  }

  function Plus(n: UInt64, d: int): UInt64
    requires -1 <= d <= 1
  {
    (n + TWO_64 + d) % TWO_64
  }

  /** One transaction is offered to a slot; `extra` tells whether it is one of the extra transactions. */
  function OfferTo(s: State, slot: nat, tx: Tx, extra: bool): (r: State)
    requires |s.a| == |s.have| && slot < |s.a|
    ensures |r.a| == |r.have| == |s.a|
  {
    if !s.have[slot] then
      State(s.a[slot := Some(tx)], s.have[slot := true], s.count + 1, Plus(s.extra, if extra then 1 else 0))
    else if s.a[slot].Some? && !(extra && s.a[slot].value.witnessHash == tx.witnessHash) then
      State(s.a[slot := None], s.have, s.count - 1, Plus(s.extra, if extra then -1 else 0))
    else s
  }

  ghost function Step(s: State, m: map<nat, nat>, short: nat -> nat, extra: bool, entry: Entry): (r: State)
    requires Fits(s, m)
    ensures Fits(r, m)
  {
    if short(entry.0) in m then OfferTo(s, m[short(entry.0)], entry.1, extra) else s
  }

  ghost function Steps(s: State, m: map<nat, nat>, short: nat -> nat, extra: bool, src: seq<Entry>, n: nat): (r: State)
    requires Fits(s, m) && n <= |src|
    ensures Fits(r, m)
  {
    if n == 0 then s else Step(Steps(s, m, short, extra, src, n - 1), m, short, extra, src[n - 1])
  }

  /** The count has not been equal to the number of IDs after any of the first `n` sources. */
  ghost predicate NotYet(s: State, m: map<nat, nat>, short: nat -> nat, extra: bool, src: seq<Entry>, n: nat)
    requires Fits(s, m) && n <= |src|
  {
    forall k :: 0 < k <= n ==> Steps(s, m, short, extra, src, k).count != |m|
  }

  /** The search ends after the first source at which the count equals the number of IDs, or after the last. */
  ghost predicate EndsAfter(s: State, m: map<nat, nat>, short: nat -> nat, extra: bool, src: seq<Entry>, n: nat)
    requires Fits(s, m)
  {
    && n <= |src|
    && (n > 0 ==> NotYet(s, m, short, extra, src, n - 1))
    && (n < |src| ==> 0 < n && Steps(s, m, short, extra, src, n).count == |m|)
  }

  /** A search that has taken `n` sources: all of them without an end, or the last one with it. */
  ghost predicate Going(s: State, m: map<nat, nat>, short: nat -> nat, extra: bool, src: seq<Entry>, n: nat, r: State)
    requires Fits(s, m) && n <= |src|
  {
    r == Steps(s, m, short, extra, src, n) && NotYet(s, m, short, extra, src, n)
  }

  lemma {:induction false} GoOn(s: State, m: map<nat, nat>, short: nat -> nat, extra: bool, src: seq<Entry>, i: nat,
                                q: State, r: State)
    requires Fits(s, m) && i < |src| && Going(s, m, short, extra, src, i, q)
    requires Fits(q, m) && r == Step(q, m, short, extra, src[i])
    ensures r.count != |m| ==> Going(s, m, short, extra, src, i + 1, r)
    ensures r.count == |m| ==> EndsAfter(s, m, short, extra, src, i + 1) && r == Steps(s, m, short, extra, src, i + 1)
  {
  }

  /** The slots while the sources `looked` have been looked at, all of them among `all`. */
  ghost predicate Held(s: State, m: map<nat, nat>, a0: Slots, e: seq<nat>, ids: seq<nat>, short: nat -> nat,
                       all: seq<Entry>, looked: seq<Entry>, stale: nat)
  {
    && |s.a| == |a0| == |s.have| && TableOk(m, ids, e, a0) && stale <= s.count
    && Matched(a0, s.a, s.have, e, ids, short, all, s.count - stale)
    && Searched(s.a, s.have, e, ids, short, looked)
  }

  lemma {:induction false} HeldFits(s: State, m: map<nat, nat>, a0: Slots, e: seq<nat>, ids: seq<nat>,
                                    short: nat -> nat, all: seq<Entry>, looked: seq<Entry>, stale: nat)
    requires Held(s, m, a0, e, ids, short, all, looked, stale)
    ensures Fits(s, m)
  {
  }

  /** With every slot filled the rest of the sources changes nothing that matters. */
  lemma {:induction false} HeldToTheEnd(s: State, m: map<nat, nat>, a0: Slots, e: seq<nat>, ids: seq<nat>,
                                        short: nat -> nat, all: seq<Entry>, looked: seq<Entry>, src: seq<Entry>, n: nat)
    requires n <= |src| && Held(s, m, a0, e, ids, short, all, looked + src[..n], 0)
    requires s.count == |m| && Filled(a0, |a0|) + |e| == |a0|
    ensures Held(s, m, a0, e, ids, short, all, looked + src[..|src|], 0)
  {
    SearchDone(a0, s.a, s.have, e, ids, short, all, looked + src[..n], src[n..]);
    TakeRest(looked, src, n);
  }

  /**
   A run of the search: the slots before, the empty ones in order, the table, the slots that were offered a
   transaction, the state after the pool, and how many sources of the pool and of the extra transactions it took.
   */
  datatype Trace = Trace(a0: Slots, e: seq<nat>, m: map<nat, nat>, have: seq<bool>, mid: State, n1: nat, n2: nat)

  /** Exactly what the run does, from the counts `stale` and `extra0` that an earlier block may have left. */
  ghost predicate Ran(t: Trace, stale: nat, extra0: UInt64, short: nat -> nat, pool: seq<Entry>, extra: seq<Entry>,
                      end: State)
  {
    var start := State(t.a0, seq(|t.a0|, _ => false), stale, extra0);
    && Fits(start, t.m) && EndsAfter(start, t.m, short, false, pool, t.n1)
    && t.mid == Steps(start, t.m, short, false, pool, t.n1)
    && EndsAfter(t.mid, t.m, short, true, extra, t.n2) && end == Steps(t.mid, t.m, short, true, extra, t.n2)
  }

  /** All sources count as looked at, unless an earlier block left a count of at most the number of IDs. */
  ghost function Looked(pool: seq<Entry>, extra: seq<Entry>, stale: nat, ids: nat, t: Trace): seq<Entry> {
    if stale == 0 || stale > ids then pool + extra
    else (if t.n1 <= |pool| then pool[..t.n1] else pool) + if t.n2 <= |extra| then extra[..t.n2] else extra
  }

  lemma {:induction false} LookedIs(pool: seq<Entry>, extra: seq<Entry>, stale: nat, ids: nat, t: Trace, seen1: nat,
                                    seen2: nat)
    requires t.n1 <= |pool| && seen1 == if stale == 0 || stale > ids then |pool| else t.n1
    requires t.n2 <= |extra| && seen2 == if stale == 0 || stale > ids then |extra| else t.n2
    ensures pool[..seen1] + extra[..seen2] == Looked(pool, extra, stale, ids, t)
  {
  }

  ghost predicate FoundIn(t: Trace, ids: seq<nat>, short: nat -> nat, pool: seq<Entry>, extra: seq<Entry>, stale: nat,
                          a: Slots, count: nat)
  {
    && |a| == |t.a0| == |t.have| && |t.e| == |ids| && stale <= count && (forall k :: 0 <= k < |t.e| ==> t.e[k] < |a|)
    && Matched(t.a0, a, t.have, t.e, ids, short, pool + extra, count - stale)
    && Searched(a, t.have, t.e, ids, short, Looked(pool, extra, stale, |ids|, t))
  }

  // ---------------------------------------------------------------- reconstruction

  class PartiallyDownloadedBlock {
    const pool: seq<Entry>
    const maxTransactions: nat
    var header: Option<nat>
    var mweb: bool
    var txnAvailable: Slots
    var mempoolCount: nat
    var extraCount: UInt64

    constructor (pool: seq<Entry>, maxTransactions: nat)
      ensures header == None && txnAvailable == [] && mempoolCount == 0 && extraCount == 0
      ensures this.pool == pool && this.maxTransactions == maxTransactions
    {
      this.pool, this.maxTransactions := pool, maxTransactions;
      header, mweb, txnAvailable, mempoolCount, extraCount := None, false, [], 0, 0;
    }

    ghost function Now(have: seq<bool>): State
      reads this
    {
      State(txnAvailable, have, mempoolCount, extraCount)
    }

    /** Put the prefilled transactions into their slots. */
    method Prefill(c: CompactBlock) returns (ok: bool)
      requires |txnAvailable| == |c.ids| + |c.prefilled| && Placed(txnAvailable, c.prefilled, 0)
      modifies this`txnAvailable
      ensures ok <==> GoodPrefill(c.prefilled, |c.ids|)
      ensures |txnAvailable| == |c.ids| + |c.prefilled|
      ensures ok ==> Placed(txnAvailable, c.prefilled, |c.prefilled|)
    {
      var p, last := c.prefilled, -1;
      for i := 0 to |p|
        invariant |txnAvailable| == |c.ids| + |p| && Placed(txnAvailable, p, i)
        invariant last == if i == 0 then -1 else Position(p, i - 1)
        invariant forall k {:trigger GoodEntry(p, |c.ids|, k)} :: 0 <= k < i ==> GoodEntry(p, |c.ids|, k)
      {
        assert last + p[i].index + 1 == Position(p, i);
        assert GoodEntry(p, |c.ids|, i) <==>
                 !p[i].tx.isNull && Position(p, i) <= 0xffff && Position(p, i) <= |c.ids| + i;
        if p[i].tx.isNull {
          return false;
        }
        last := last + p[i].index + 1;
        if last > 0xffff {
          return false;
        }
        if last > |c.ids| + i {
          return false;
        }
        PlaceOne(txnAvailable, p, i);
        txnAvailable := txnAvailable[last := Some(p[i].tx)];
      }
      return true;
    }

    /** The table of short IDs. The slots that are not prefilled go to the IDs in order; the search for the
        next one never leaves the list of slots. */
    method TableIds(ids: seq<nat>, ghost e: seq<nat>) returns (m: map<nat, nat>)
      requires |e| == |ids| && EmptySlots(txnAvailable, e) && |txnAvailable| <= 0xffff
      ensures Tabled(m, ids, e, |ids|)
    {
      m := map[];
      var offset: UInt16 := 0;
      for i := 0 to |ids|
        invariant i + offset == if i == 0 then 0 else e[i - 1] + 1
        invariant Tabled(m, ids, e, i)
      {
        assert i > 0 ==> e[i - 1] < e[i];
        offset := NextSlot(i, offset, e);
        TableOne(m, ids, e, i);
        m := m[ids[i] := i + offset];
      }
    }

    method NextSlot(i: nat, offset: UInt16, ghost e: seq<nat>) returns (r: UInt16)
      requires EmptySlots(txnAvailable, e) && |txnAvailable| <= 0xffff && i < |e|
      requires i + offset <= e[i] && (i > 0 ==> e[i - 1] < i + offset)
      ensures i + r == e[i]
    {
      r := offset;
      while txnAvailable[i + r].Some?
        invariant offset <= r && i + r <= e[i]
        decreases e[i] - (i + r)
      {
        r := r + 1;
      }
      if i + r < e[i] {
        GapFilled(txnAvailable, e, i, i + r);
      }
    }

    /** Look through a list of transactions for ones that have a short ID of the block. The search ends
        when mempoolCount equals the number of IDs, which is right if it started from 0: then all slots are
        filled, and the rest of the list counts as seen. */
    method Scan(src: seq<Entry>, short: nat -> nat, m: map<nat, nat>, compare: bool, have: seq<bool>, ghost a0: Slots,
                ghost e: seq<nat>, ghost ids: seq<nat>, ghost all: seq<Entry>, ghost looked: seq<Entry>,
                ghost stale: nat)
      returns (have': seq<bool>, ghost n: nat, ghost seen: nat)
      requires (forall j :: 0 <= j < |src| ==> src[j] in all) && Filled(a0, |a0|) + |e| == |a0|
      requires Held(Now(have), m, a0, e, ids, short, all, looked, stale) && Fits(Now(have), m)
      modifies this`txnAvailable, this`mempoolCount, this`extraCount
      ensures seen <= |src| && Held(Now(have'), m, a0, e, ids, short, all, looked + src[..seen], stale)
      ensures EndsAfter(old(Now(have)), m, short, compare, src, n)
      ensures Now(have') == Steps(old(Now(have)), m, short, compare, src, n)
      ensures seen == if stale == 0 || stale > |ids| then |src| else n
    {
      have' := have;
      ghost var s0 := Now(have);
      assert looked + src[..0] == looked;
      for i := 0 to |src|
        invariant Held(Now(have'), m, a0, e, ids, short, all, looked + src[..i], stale)
        invariant Going(s0, m, short, compare, src, i, Now(have'))
      {
        ghost var s := Now(have');
        have' := Look(src[i], short, m, compare, have', a0, e, ids, all, looked + src[..i], stale);
        TakeNext(looked, src, i);
        GoOn(s0, m, short, compare, src, i, s, Now(have'));
        if mempoolCount == |m| {
          n, seen := i + 1, if stale == 0 then |src| else i + 1;
          if stale == 0 {
            HeldToTheEnd(Now(have'), m, a0, e, ids, short, all, looked, src, n);
          }
          return;
        }
      }
      n, seen := |src|, |src|;
    }

    /** Look at one transaction. */
    method Look(entry: Entry, short: nat -> nat, m: map<nat, nat>, compare: bool, have: seq<bool>, ghost a0: Slots,
                ghost e: seq<nat>, ghost ids: seq<nat>, ghost all: seq<Entry>, ghost looked: seq<Entry>,
                ghost stale: nat)
      returns (have': seq<bool>)
      requires Held(Now(have), m, a0, e, ids, short, all, looked, stale) && Fits(Now(have), m) && entry in all
      modifies this`txnAvailable, this`mempoolCount, this`extraCount
      ensures Held(Now(have'), m, a0, e, ids, short, all, looked + [entry], stale)
      ensures Now(have') == Step(old(Now(have)), m, short, compare, entry)
    {
      have' := have;
      var id := short(entry.0);
      if id in m {
        have' := Offer(m[id], entry.1, compare, have, a0, e, ids, short, all, entry, stale);
      }
      SearchOne(old(txnAvailable), have, txnAvailable, have', e, ids, short, looked, entry);
    }

    method Offer(slot: nat, tx: Tx, compare: bool, have: seq<bool>, ghost a0: Slots, ghost e: seq<nat>,
                 ghost ids: seq<nat>, ghost short: nat -> nat, ghost all: seq<Entry>, ghost entry: Entry,
                 ghost stale: nat)
      returns (have': seq<bool>)
      requires |txnAvailable| == |a0| == |have| && SlotsFor(e, ids, a0) && stale <= mempoolCount
      requires exists k :: 0 <= k < |ids| && ids[k] == short(entry.0) && slot == e[k]
      requires entry in all && entry.1 == tx
      requires Matched(a0, txnAvailable, have, e, ids, short, all, mempoolCount - stale)
      modifies this`txnAvailable, this`mempoolCount, this`extraCount
      ensures |txnAvailable| == |have'| == |a0| && stale <= mempoolCount
      ensures Matched(a0, txnAvailable, have', e, ids, short, all, mempoolCount - stale)
      ensures Offered(old(txnAvailable), have, txnAvailable, have', slot, tx)
      ensures Now(have') == OfferTo(old(Now(have)), slot, tx, compare)
    {
      ghost var k :| 0 <= k < |ids| && ids[k] == short(entry.0) && slot == e[k];
      assert SlotOk(txnAvailable, have, e, ids, short, all, k);
      have' := have;
      if !have[slot] {
        MatchOne(a0, txnAvailable, have, e, ids, short, all, mempoolCount - stale, k, Some(tx));
        txnAvailable, have', mempoolCount := txnAvailable[slot := Some(tx)], have[slot := true], mempoolCount + 1;
        extraCount := Plus(extraCount, if compare then 1 else 0);
      } else if txnAvailable[slot].Some? && !(compare && txnAvailable[slot].value.witnessHash == tx.witnessHash) {
        MatchOne(a0, txnAvailable, have, e, ids, short, all, mempoolCount - stale, k, None);
        assert have[slot := true] == have;
        txnAvailable, mempoolCount := txnAvailable[slot := None], mempoolCount - 1;
        extraCount := Plus(extraCount, if compare then -1 else 0);
      }
    }

    /** Reconstruction on a new object. A malformed announcement, or an object in use, is INVALID; short IDs
        that collide, or that the bucket heuristic objects to, are FAILED. Otherwise the prefilled
        transactions are in their slots, every other filled slot holds a transaction with its short ID, and
        mempoolCount has grown by their number. The search went through the pool and then the extra
        transactions, each up to the first source after which mempoolCount equals the number of IDs. */
    method InitData(c: CompactBlock, extra: seq<Entry>, short: nat -> nat, uneven: bool)
      returns (status: ReadStatus, ghost t: Trace)
      requires |c.ids| + |c.prefilled| <= 0xffff
      modifies this
      ensures status == INVALID <==> old(Refuses(c)) || !GoodPrefill(c.prefilled, |c.ids|)
      ensures status == FAILED <==> status != INVALID && (uneven || !Distinct(c.ids))
      ensures status != CHECKBLOCK_FAILED
      ensures old(Refuses(c)) ==> unchanged(this)
      ensures !old(Refuses(c)) ==> header == c.header && mweb == c.mweb && |txnAvailable| == |c.ids| + |c.prefilled|
      ensures status != OK ==> mempoolCount == old(mempoolCount) && extraCount == old(extraCount)
      ensures status == OK ==> old(mempoolCount) <= mempoolCount
      ensures status == OK ==> Reconstructed(c, pool + extra, Looked(pool, extra, old(mempoolCount), |c.ids|, t), short,
                                             t.a0, t.e, t.have, txnAvailable, mempoolCount - old(mempoolCount))
      ensures status == OK ==> TableOk(t.m, c.ids, t.e, t.a0)
      ensures status == OK ==> Ran(t, old(mempoolCount), old(extraCount), short, pool, extra, Now(t.have))
    {
      t := Trace([], [], map[], [], Now([]), 0, 0);
      var ok := Accept(c);
      if !ok {
        return INVALID, t;
      }
      status, t := MatchIds(c.ids, extra, short, uneven, Empties(txnAvailable, |txnAvailable|));
      if status == OK {
        FoundIsReconstructed(c, t, short, pool, extra, old(mempoolCount), txnAvailable, mempoolCount);
      }
    }

    /** The tests of an announcement, and its prefilled transactions. */
    method Accept(c: CompactBlock) returns (ok: bool)
      requires |c.ids| + |c.prefilled| <= 0xffff
      modifies this`header, this`mweb, this`txnAvailable
      ensures ok <==> !old(Refuses(c)) && GoodPrefill(c.prefilled, |c.ids|)
      ensures old(Refuses(c)) ==> unchanged(this)
      ensures !old(Refuses(c)) ==> header == c.header && mweb == c.mweb && |txnAvailable| == |c.ids| + |c.prefilled|
      ensures ok ==> Placed(txnAvailable, c.prefilled, |c.prefilled|)
      ensures ok ==> EmptySlots(txnAvailable, Empties(txnAvailable, |txnAvailable|))
      ensures ok ==> |Empties(txnAvailable, |txnAvailable|)| == |c.ids|
      ensures ok ==> Filled(txnAvailable, |txnAvailable|) + |c.ids| == |txnAvailable|
    {
      if c.header.None? || (c.ids == [] && c.prefilled == []) {
        return false;
      }
      if |c.ids| + |c.prefilled| > maxTransactions {
        return false;
      }
      if header.Some? || txnAvailable != [] {
        return false;
      }
      header, mweb := c.header, c.mweb;
      txnAvailable := seq(|c.ids| + |c.prefilled|, _ => None);
      NoneFilled(txnAvailable, |txnAvailable|);
      ok := Prefill(c);
      EmptiesAre(txnAvailable, |txnAvailable|);
    }

    /** The announcement is empty or too long, or the object is in use. */
    ghost predicate Refuses(c: CompactBlock)
      reads this
    {
      || c.header.None? || (c.ids == [] && c.prefilled == []) || |c.ids| + |c.prefilled| > maxTransactions
      || header.Some? || txnAvailable != []
    }

    /** Table the short IDs and look for their transactions. */
    method MatchIds(ids: seq<nat>, extra: seq<Entry>, short: nat -> nat, uneven: bool, ghost e: seq<nat>)
      returns (status: ReadStatus, ghost t: Trace)
      requires |e| == |ids| && EmptySlots(txnAvailable, e) && |txnAvailable| <= 0xffff
      requires Filled(txnAvailable, |txnAvailable|) + |e| == |txnAvailable|
      modifies this`txnAvailable, this`mempoolCount, this`extraCount
      ensures status == if uneven || !Distinct(ids) then FAILED else OK
      ensures |txnAvailable| == |old(txnAvailable)|
      ensures status != OK ==> mempoolCount == old(mempoolCount) && extraCount == old(extraCount)
      ensures status == OK ==> t.a0 == old(txnAvailable) && t.e == e && TableOk(t.m, ids, e, t.a0)
      ensures status == OK ==> FoundIn(t, ids, short, pool, extra, old(mempoolCount), txnAvailable, mempoolCount)
      ensures status == OK ==> Ran(t, old(mempoolCount), old(extraCount), short, pool, extra, Now(t.have))
    {
      t := Trace([], [], map[], [], Now([]), 0, 0);
      var m := TableIds(ids, e);
      if uneven {
        return FAILED, t;
      }
      assert ids[..|ids|] == ids;
      if |m| != |ids| {
        return FAILED, t;
      }
      TableExact(m, ids, e);
      t := Search(m, extra, short, e, ids);
      return OK, t;
    }

    /** Look through the pool, then through the extra transactions. */
    method Search(m: map<nat, nat>, extra: seq<Entry>, short: nat -> nat, ghost e: seq<nat>, ghost ids: seq<nat>)
      returns (ghost t: Trace)
      requires TableOk(m, ids, e, txnAvailable)
      requires Filled(txnAvailable, |txnAvailable|) + |e| == |txnAvailable|
      modifies this`txnAvailable, this`mempoolCount, this`extraCount
      ensures |txnAvailable| == |old(txnAvailable)| && t.a0 == old(txnAvailable) && t.e == e && t.m == m
      ensures FoundIn(t, ids, short, pool, extra, old(mempoolCount), txnAvailable, mempoolCount)
      ensures Ran(t, old(mempoolCount), old(extraCount), short, pool, extra, Now(t.have))
    {
      ghost var a0, all, stale := txnAvailable, pool + extra, mempoolCount;
      var have := seq(|txnAvailable|, _ => false);
      StartSearch(a0, have, e, ids, short, all);
      HeldFits(Now(have), m, a0, e, ids, short, all, [], stale);
      ghost var n1, seen1, n2, seen2;
      have, n1, seen1 := Scan(pool, short, m, false, have, a0, e, ids, all, [], stale);
      assert [] + pool[..seen1] == pool[..seen1];
      ghost var mid := Now(have);
      have, n2, seen2 := Scan(extra, short, m, true, have, a0, e, ids, all, pool[..seen1], stale);
      t := Trace(a0, e, m, have, mid, n1, n2);
      LookedIs(pool, extra, stale, |ids|, t, seen1, seen2);
    }

    /** Complete the block with the missing transactions, in slot order. The slots can be used once. */
    method FillBlock(missing: seq<Tx>, verdict: ReadStatus) returns (status: ReadStatus, block: Block)
      requires verdict != INVALID
      modifies this`header, this`txnAvailable
      ensures old(header) == None ==> status == INVALID && txnAvailable == old(txnAvailable) && header == None
      ensures old(header).Some? && |missing| < |old(txnAvailable)| - Filled(old(txnAvailable), |old(txnAvailable)|) ==>
                && status == INVALID && header == old(header) && mweb == old(mweb)
                && var stuck := Empties(old(txnAvailable), |old(txnAvailable)|)[|missing|];
                txnAvailable == seq(|old(txnAvailable)|, j requires 0 <= j < |old(txnAvailable)| =>
                                      if j < stuck then None else old(txnAvailable)[j])
      ensures old(header).Some? && |missing| >= |old(txnAvailable)| - Filled(old(txnAvailable), |old(txnAvailable)|) ==>
                header == None && txnAvailable == []
                && block.header == old(header).value && block.mweb == old(mweb)
                   && Rebuilt(old(txnAvailable), missing, block.vtx)
                && status == if |missing| == |old(txnAvailable)| - Filled(old(txnAvailable), |old(txnAvailable)|)
                   then verdict else INVALID
    {
      block := Block(0, [], false);
      if header.None? {
        return INVALID, block;
      }
      ghost var a := txnAvailable;
      var vtx, offset := [], 0;
      for i := 0 to |txnAvailable|
        invariant |txnAvailable| == |a| && forall j :: 0 <= j < |a| ==> txnAvailable[j] == if j < i then None else a[j]
        invariant header == old(header) && mweb == old(mweb) && |vtx| == i
        invariant offset == i - Filled(a, i) <= |missing|
        invariant forall j {:trigger RebuiltAt(a, missing, j, vtx[j])} :: 0 <= j < i ==>
                    RebuiltAt(a, missing, j, vtx[j])
      {
        if txnAvailable[i].None? {
          if |missing| <= offset {
            MoreMissing(a, i);
            EmptyRank(a, |a|, i);
            return INVALID, block;
          }
          vtx, offset := vtx + [missing[offset]], offset + 1;
        } else {
          vtx := vtx + [txnAvailable[i].value];
          txnAvailable := txnAvailable[i := None];
        }
      }
      block := Block(header.value, vtx, mweb);
      assert Rebuilt(a, missing, vtx);
      header, txnAvailable := None, [];
      if |missing| != offset {
        return INVALID, block;
      }
      return verdict, block;
    }
  }

  ghost predicate Reconstructed(c: CompactBlock, src: seq<Entry>, looked: seq<Entry>, short: nat -> nat, a0: Slots,
                                e: seq<nat>, have: seq<bool>, a: Slots, count: nat)
  {
    && |a| == |a0| == |have| == |c.ids| + |c.prefilled| && |e| == |c.ids|
    && Placed(a0, c.prefilled, |c.prefilled|) && EmptySlots(a0, e)
    && Matched(a0, a, have, e, c.ids, short, src, count) && Searched(a, have, e, c.ids, short, looked)
  }

  lemma {:induction false} FoundIsReconstructed(c: CompactBlock, t: Trace, short: nat -> nat, pool: seq<Entry>,
                                                extra: seq<Entry>, stale: nat, a: Slots, count: nat)
    requires |a| == |c.ids| + |c.prefilled| && Placed(t.a0, c.prefilled, |c.prefilled|) && EmptySlots(t.a0, t.e)
    requires FoundIn(t, c.ids, short, pool, extra, stale, a, count)
    ensures Reconstructed(c, pool + extra, Looked(pool, extra, stale, |c.ids|, t), short, t.a0, t.e, t.have, a,
                          count - stale)
  {
  }

  lemma {:induction false} NoneFilled(a: Slots, n: nat)
    requires n <= |a| && forall i :: 0 <= i < |a| ==> a[i].None?
    ensures Filled(a, n) == 0
  {
    if n > 0 {
      NoneFilled(a, n - 1);
    }
  }

  lemma {:induction false} MoreMissing(a: Slots, i: nat)
    requires i < |a| && a[i].None?
    ensures |a| - Filled(a, |a|) > i - Filled(a, i)
  {
    FilledGrows(a, i + 1, |a|);
  }

  lemma {:induction false} FilledGrows(a: Slots, i: nat, n: nat)
    requires i <= n <= |a|
    ensures Filled(a, n) - Filled(a, i) <= n - i
  {
    if i < n {
      FilledGrows(a, i, n - 1);
    }
  }

  /** Slot `i` of the completed block holds its own transaction, or the missing one whose turn it is. */
  ghost predicate RebuiltAt(a: Slots, missing: seq<Tx>, i: nat, tx: Tx)
    requires i < |a|
  {
    if a[i].Some? then tx == a[i].value else i - Filled(a, i) < |missing| && tx == missing[i - Filled(a, i)]
  }

  ghost predicate Rebuilt(a: Slots, missing: seq<Tx>, vtx: seq<Tx>) {
    |vtx| == |a| && forall i {:trigger RebuiltAt(a, missing, i, vtx[i])} :: 0 <= i < |a| ==>
      RebuiltAt(a, missing, i, vtx[i])
  }

  // ---------------------------------------------------------------- round trip

  /** No transaction of the sources has the short ID of a different transaction of the block. */
  ghost predicate OwnOnly(b: Block, id: Tx -> nat, short: nat -> nat, src: seq<Entry>) {
    forall j, i :: 0 <= j < |src| && 0 < i < |b.vtx| && !b.vtx[i].isHogEx && short(src[j].0) == id(b.vtx[i]) ==>
      src[j].1 == b.vtx[i]
  }

  lemma {:induction false} AnnouncedIds(b: Block, id: Tx -> nat, k: nat)
    requires HogExLast(b)
    ensures |IdsUpTo(b.vtx, id, |b.vtx|)| == |b.vtx| - 1 - if b.mweb then 1 else 0
    ensures k < |IdsUpTo(b.vtx, id, |b.vtx|)| ==> IdsUpTo(b.vtx, id, |b.vtx|)[k] == id(b.vtx[k + 1])
  {
    var n := |b.vtx|;
    if b.mweb {
      IdsAt(b, id, n - 1);
      assert IdsUpTo(b.vtx, id, n) == IdsUpTo(b.vtx, id, n - 1);
    } else {
      IdsAt(b, id, n);
    }
  }

  lemma {:induction false} AnnouncedPositions(b: Block, id: Tx -> nat, c: CompactBlock)
    requires HogExLast(b) && |b.vtx| <= 0xffff && IsAnnouncement(b, id, c)
    ensures |c.prefilled| == 1 + if b.mweb then 1 else 0
    ensures Position(c.prefilled, 0) == 0 && c.prefilled[0].tx == b.vtx[0]
    ensures b.mweb ==> Position(c.prefilled, 1) == |b.vtx| - 1 && c.prefilled[1].tx == b.vtx[|b.vtx| - 1]
  {
    assert c.prefilled[0] == Prefilled(0, b.vtx[0]);
    if b.mweb {
      assert (|b.vtx| - 2) % 0x1_0000 == |b.vtx| - 2;
      assert c.prefilled[1] == Prefilled(|b.vtx| - 2, b.vtx[|b.vtx| - 1]);
    }
  }

  /** The sizes and positions of an announcement. */
  lemma {:induction false} AnnouncementShape(b: Block, id: Tx -> nat, c: CompactBlock)
    requires HogExLast(b) && |b.vtx| <= 0xffff && IsAnnouncement(b, id, c)
    ensures |c.ids| + |c.prefilled| == |b.vtx|
    ensures forall k :: 0 <= k < |c.ids| ==> k + 1 < |b.vtx| && !b.vtx[k + 1].isHogEx && c.ids[k] == id(b.vtx[k + 1])
    ensures Position(c.prefilled, 0) == 0 && c.prefilled[0].tx == b.vtx[0]
    ensures b.mweb ==>
              |c.prefilled| == 2 && Position(c.prefilled, 1) == |b.vtx| - 1 && c.prefilled[1].tx == b.vtx[|b.vtx| - 1]
    ensures (forall i :: 0 <= i < |b.vtx| ==> !b.vtx[i].isNull) ==> GoodPrefill(c.prefilled, |c.ids|)
  {
    AnnouncedPositions(b, id, c);
    AnnouncedIds(b, id, 0);
    forall k: nat | k < |c.ids|
      ensures k + 1 < |b.vtx| && !b.vtx[k + 1].isHogEx && c.ids[k] == id(b.vtx[k + 1])
    {
      AnnouncedIds(b, id, k);
    }
    if forall i :: 0 <= i < |b.vtx| ==> !b.vtx[i].isNull {
      forall k: nat | k < |c.prefilled|
        ensures GoodEntry(c.prefilled, |c.ids|, k)
      {
        assert k == 0 || k == 1;
      }
    }
  }

  /** The slots that are left for the short IDs are those from the second on. */
  lemma {:induction false} AnnouncedSlots(b: Block, id: Tx -> nat, c: CompactBlock, a0: Slots, e: seq<nat>, k: nat)
    requires HogExLast(b) && |b.vtx| <= 0xffff && IsAnnouncement(b, id, c)
    requires |a0| == |b.vtx| && |e| == |c.ids| && k < |e|
    requires Placed(a0, c.prefilled, |c.prefilled|) && EmptySlots(a0, e)
    ensures e[k] == k + 1
  {
    AnnouncementShape(b, id, c);
    var p := c.prefilled;
    assert PlacedAt(a0, p, 0);
    if k > 0 {
      AnnouncedSlots(b, id, c, a0, e, k - 1);
    }
    forall j | 0 <= j < |p| ensures Position(p, j) != k + 1 {
      assert j == 0 || (b.mweb && j == 1);
    }
    assert e[k] != 0;
    if k + 1 < e[k] {
      GapFilled(a0, e, k, k + 1);
    }
  }

  /** Whatever the pool and the extra transactions filled in is right. */
  lemma {:induction false} FilledRight(b: Block, id: Tx -> nat, c: CompactBlock, src: seq<Entry>, looked: seq<Entry>,
                                       short: nat -> nat, a0: Slots, e: seq<nat>, have: seq<bool>, a: Slots,
                                       count: nat, i: nat)
    requires HogExLast(b) && |b.vtx| <= 0xffff && IsAnnouncement(b, id, c) && OwnOnly(b, id, short, src)
    requires Reconstructed(c, src, looked, short, a0, e, have, a, count) && i < |a| && a[i].Some?
    ensures i < |b.vtx| && a[i].value == b.vtx[i]
  {
    AnnouncementShape(b, id, c);
    var p := c.prefilled;
    if i in e {
      var k :| 0 <= k < |e| && e[k] == i;
      AnnouncedSlots(b, id, c, a0, e, k);
      assert SlotOk(a, have, e, c.ids, short, src, k);
      var j :| 0 <= j < |src| && src[j].1 == a[i].value && short(src[j].0) == c.ids[k];
    } else {
      assert a[i] == a0[i];
      var j :| 0 <= j < |p| && Position(p, j) == i;
      assert PlacedAt(a0, p, j);
    }
  }

  /** Nothing is missing if every transaction announced by its short ID is the only one of the sources that has it. */
  lemma {:induction false} NothingMissing(b: Block, id: Tx -> nat, c: CompactBlock, src: seq<Entry>,
                                          looked: seq<Entry>, short: nat -> nat, a0: Slots, e: seq<nat>,
                                          have: seq<bool>, a: Slots, count: nat, i: nat)
    requires |b.vtx| > 0 && IsAnnouncement(b, id, c) && Reconstructed(c, src, looked, short, a0, e, have, a, count)
             && i < |a|
    requires forall k :: 0 <= k < |c.ids| ==> OnlyOne(looked, short, c.ids[k])
    ensures a[i].Some?
  {
    if i in e {
      var k: nat :| k < |e| && e[k] == i;
      assert OnlyOne(looked, short, c.ids[k]);
      var j :| IsOnly(looked, short, c.ids[k], j);
      UniqueFound(a, have, e, c.ids, short, looked, k, j);
    } else {
      assert a0[i].Some?;
    }
  }

  ghost predicate OnlyOne(src: seq<Entry>, short: nat -> nat, id: nat) {
    exists j :: IsOnly(src, short, id, j)
  }

  ghost predicate IsOnly(src: seq<Entry>, short: nat -> nat, id: nat, j: nat) {
    j < |src| && forall x :: 0 <= x < |src| ==> (short(src[x].0) == id <==> x == j)
  }

  lemma {:induction false} EmptyRank(a: Slots, n: nat, i: nat)
    requires i < n <= |a| && a[i].None?
    ensures i - Filled(a, i) < |Empties(a, n)| && Empties(a, n)[i - Filled(a, i)] == i
  {
    if i < n - 1 {
      EmptyRank(a, n - 1, i);
    }
  }

  /** Completing with the block's own transactions for the empty slots, in slot order, gives the block back. */
  lemma {:induction false} BlockRebuilt(b: Block, id: Tx -> nat, c: CompactBlock, src: seq<Entry>, looked: seq<Entry>,
                                        short: nat -> nat, a0: Slots, e: seq<nat>, have: seq<bool>, a: Slots,
                                        count: nat, missing: seq<Tx>, vtx: seq<Tx>)
    requires HogExLast(b) && |b.vtx| <= 0xffff && IsAnnouncement(b, id, c) && OwnOnly(b, id, short, src)
    requires Reconstructed(c, src, looked, short, a0, e, have, a, count) && Rebuilt(a, missing, vtx)
    requires |missing| == |Empties(a, |a|)|
    requires forall k :: 0 <= k < |missing| ==> Empties(a, |a|)[k] < |b.vtx| && missing[k] == b.vtx[Empties(a, |a|)[k]]
    ensures vtx == b.vtx
  {
    AnnouncementShape(b, id, c);
    forall i | 0 <= i < |a| ensures vtx[i] == b.vtx[i] {
      assert RebuiltAt(a, missing, i, vtx[i]);
      if a[i].Some? {
        FilledRight(b, id, c, src, looked, short, a0, e, have, a, count, i);
      } else {
        EmptyRank(a, |a|, i);
      }
    }
  }

  /** The transactions of the empty slots, in slot order, as a peer sends them. */
  method MissingOf(vtx: seq<Tx>, a: Slots) returns (missing: seq<Tx>)
    requires |vtx| == |a|
    ensures |missing| == |Empties(a, |a|)|
    ensures forall k :: 0 <= k < |missing| ==> Empties(a, |a|)[k] < |vtx| && missing[k] == vtx[Empties(a, |a|)[k]]
  {
    missing := [];
    for i := 0 to |a|
      invariant |missing| == |Empties(a, i)|
      invariant forall k :: 0 <= k < |missing| ==> Empties(a, i)[k] < |vtx| && missing[k] == vtx[Empties(a, i)[k]]
    {
      if a[i].None? {
        missing := missing + [vtx[i]];
      }
    }
  }

  /** Announcing a block, reconstructing it from any pool and completing it gives the same block. */
  method Relay(b: Block, id: Tx -> nat, pool: seq<Entry>, extra: seq<Entry>, short: nat -> nat, maxTransactions: nat)
    returns (status: ReadStatus, block: Block)
    requires HogExLast(b) && |b.vtx| <= 0xffff && |b.vtx| <= maxTransactions
    requires forall i :: 0 <= i < |b.vtx| ==> !b.vtx[i].isNull
    requires OwnOnly(b, id, short, pool + extra) && Distinct(IdsUpTo(b.vtx, id, |b.vtx|))
    ensures status == OK && block == b
  {
    var c := Announce(b, id);
    AnnouncementShape(b, id, c);
    var peer := new PartiallyDownloadedBlock(pool, maxTransactions);
    var init, t := peer.InitData(c, extra, short, false);
    ghost var a, count := peer.txnAvailable, peer.mempoolCount;
    var missing := MissingOf(b.vtx, peer.txnAvailable);
    status, block := peer.FillBlock(missing, OK);
    BlockRebuilt(b, id, c, pool + extra, pool + extra, short, t.a0, t.e, t.have, a, count, missing, block.vtx);
  }
}
