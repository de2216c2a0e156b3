/**
 Where the selection of packages (src/miner.cpp) does not do what its
 comments say, with mempools that show it, and what holds instead.
 */
module MinerCases {
  import opened Collections
  import opened Miner
  import opened MinerScore
  import opened Numbers

  function Plain(size: nat, fee: int, modFee: int, hash: nat, parents: set<TxId>, cached: Figures, count: nat): Tx {
    Tx(size, 4 * size, 0, 0, fee, modFee, hash, false, false, false, true, parents, cached, count)
  }

  function Plus(f: Figures, m: Mempool, a: TxId): Figures {
    Figures(f.size + Val(m, Size, a), f.modFees + Val(m, ModFee, a), f.sigOps + Val(m, SigOps, a),
            f.mwebWeight + Val(m, MwebWeight, a))
  }

  lemma {:induction false} FiguresPlus(m: Mempool, s: set<TxId>, a: TxId)
    requires a !in s
    ensures PackageFigures(m, s + {a}) == Plus(PackageFigures(m, s), m, a)
  {
    SumInsert(m, Size, s, a);
    SumInsert(m, ModFee, s, a);
    SumInsert(m, SigOps, s, a);
    SumInsert(m, MwebWeight, s, a);
  }

  lemma {:induction false} FiguresOfOne(m: Mempool, a: TxId)
    ensures PackageFigures(m, {a}) == Plus(Figures(0, 0, 0, 0), m, a)
  {
    FiguresPlus(m, {}, a);
    assert {} + {a} == {a};
  }

  ghost predicate IsPlain(m: Mempool, t: TxId)
    requires t in m.tx
  {
    m.tx[t].weight == 4 * m.tx[t].size && m.tx[t].hash == t
  }

  lemma {:induction false} ExactFrom(m: Mempool)
    requires m.IsDag() && forall t :: t in m.tx ==> m.Cached(t)
    requires forall t :: t in m.tx ==> IsPlain(m, t)
    ensures m.Ok()
  {
    forall t | t in m.tx
      ensures m.UniqueHash(t)
    {
      assert IsPlain(m, t);
    }
    forall t | t in m.tx
      ensures m.Weighed(t)
    {
      assert IsPlain(m, t);
    }
  }

  // ---------------------------------------------------------------- the recorded fee

  /** A child `c` of two parents, of which the second has been prioritised by 1000. */
  function TwoParents(a: TxId, b: TxId, c: TxId): (m: Mempool)
    requires a < b < c
    ensures m.tx.Keys == m.anc.Keys == {a, b, c}
  {
    Mempool(map[a := Plain(100, 10, 10, a, {}, Figures(100, 10, 0, 0), 1),
                b := Plain(100, 10, 1010, b, {}, Figures(100, 1010, 0, 0), 1),
                c := Plain(100, 10, 10, c, {a, b}, Figures(300, 1030, 0, 0), 3)],
            map[a := {}, b := {}, c := {a, b}])
  }

  lemma {:induction false} TwoParentsDag(a: TxId, b: TxId, c: TxId)
    requires a < b < c
    ensures TwoParents(a, b, c).IsDag()
  {
    var m := TwoParents(a, b, c);
    assert m.Generated(a) && m.Generated(b) && m.Generated(c);
  }

  lemma {:induction false} TwoParentsCached(a: TxId, b: TxId, c: TxId)
    requires a < b < c
    ensures var m := TwoParents(a, b, c); forall t :: t in m.tx ==> m.Cached(t)
  {
    var m := TwoParents(a, b, c);
    FiguresOfOne(m, a);
    FiguresOfOne(m, b);
    FiguresPlus(m, {a}, b);
    FiguresPlus(m, {a, b}, c);
    assert {} + {a} == {a} && {} + {b} == {b} && {a} + {b} == {a, b};
    assert m.Cached(a) && m.Cached(b) && m.Cached(c);
  }

  lemma {:induction false} TwoParentsOk(a: TxId, b: TxId, c: TxId)
    requires a < b < c
    ensures TwoParents(a, b, c).Ok()
  {
    TwoParentsDag(a, b, c);
    TwoParentsCached(a, b, c);
    TwoParentsPlain(a, b, c);
    ExactFrom(TwoParents(a, b, c));
  }

  lemma {:induction false} TwoParentsPlain(a: TxId, b: TxId, c: TxId)
    requires a < b < c
    ensures var m := TwoParents(a, b, c); forall t :: t in m.tx ==> IsPlain(m, t)
  {
  }

  /**
   After both parents are included, the second of them reported second, the child is
   recorded with a fee of 1010 where its package, the child alone, has 10.
   */
  lemma {:induction false} RecordedFeeIsOff(a: TxId, b: TxId, c: TxId) returns (e: Figures)
    requires a < b < c
    ensures TwoParents(a, b, c).Ok() && EntryOk(TwoParents(a, b, c), c, e, Note({a, b}, a))
    ensures e.modFees == 1010 && Sum(TwoParents(a, b, c), ModFee, Package(TwoParents(a, b, c), {a, b}, c)) == 10
  {
    var m := TwoParents(a, b, c);
    TwoParentsOk(a, b, c);
    FirstReduction(m, c, a);
    var first := ReduceFor(m.tx[c].withAncestors, 100, 10, 0, 0);
    NextReduction(m, c, first, Note({a}, a), b);
    e := ReduceFor(first, 100, 10, 0, 0);
    assert {a} + {b} == {a, b};
    FiguresOfOne(m, c);
    assert Package(m, {a, b}, c) == {c};
  }

  // ---------------------------------------------------------------- transactions without ancestors

  datatype Own = Own(size: nat, mwebWeight: nat, fee: nat, modFee: int)

  function Alone(o: Own, hash: nat): Tx {
    Tx(o.size, 4 * o.size, 0, o.mwebWeight, o.fee, o.modFee, hash, o.mwebWeight > 0, o.size == 0, false, true, {},
       Figures(o.size, o.modFee, 0, o.mwebWeight), 1)
  }

  function Unrelated(own: map<TxId, Own>): Mempool {
    Mempool(map t | t in own :: Alone(own[t], t), map t | t in own :: {})
  }

  lemma {:induction false} UnrelatedOk(own: map<TxId, Own>)
    ensures Unrelated(own).Ok()
  {
    var m := Unrelated(own);
    forall t | t in m.tx
      ensures m.Generated(t)
    {
    }
    forall t | t in m.tx
      ensures m.Cached(t)
    {
      FiguresOfOne(m, t);
      assert {} + {t} == {t};
    }
    forall t | t in m.tx
      ensures IsPlain(m, t)
    {
    }
    ExactFrom(m);
  }

  // ---------------------------------------------------------------- a cycle in the score

  /**
   The comparator orders no mempool with the transactions `p` and `q`, of no size, and `n`
   between them, when the fee of `q` has been lowered below nothing and its hash is the
   smallest: `p` comes before `n`, `n` before `q` and `q` before `p`.
   */
  lemma {:induction false} ScoreMayCycle(q: TxId, p: TxId, n: TxId)
    requires q < p < n
    ensures var m := Unrelated(map[q := Own(0, 10, 1000, -1000), p := Own(0, 10, 1000, 1000),
                                   n := Own(100, 0, 100, 100)]);
            && m.Ok()
            && ScoreOf(m)(m.tx[p].withAncestors, p, m.tx[n].withAncestors, n)
            && ScoreOf(m)(m.tx[n].withAncestors, n, m.tx[q].withAncestors, q)
            && ScoreOf(m)(m.tx[q].withAncestors, q, m.tx[p].withAncestors, p)
  {
    UnrelatedOk(map[q := Own(0, 10, 1000, -1000), p := Own(0, 10, 1000, 1000), n := Own(100, 0, 100, 100)]);
  }

  // ---------------------------------------------------------------- stopping at a fee that is too low

  ghost predicate AllScored(m: Mempool) {
    forall t :: t in m.tx ==> m.tx[t].size > 0 || m.tx[t].modFee > 0
  }

  /** Nothing walked, included or turned down. */
  ghost const AT_START := End({}, map[], {}, Log(map[], map[], [], map[]))

  ghost function FirstCandidate(m: Mempool, t: TxId): Candidate
    requires t in m.tx
  {
    Candidate(t, m.tx[t].withAncestors, {}, {})
  }

  /** The assembler works on the mempool with the comparator and the minimum fee of the code. */
  ghost predicate RunsAt(assembler: BlockAssembler, m: Mempool, perK: int) {
    && assembler.m == m && assembler.better == ScoreOf(m)
    && forall size, mwebWeight :: assembler.minTotalFee(size, mwebWeight) == GetTotalFee(perK, size, mwebWeight)
  }

  /** Still in the shadow index, or not walked past. */
  ghost predicate Left(m: Mempool, left: End, u: TxId, figs: Figures) {
    || (u in left.modified && figs == left.modified[u])
    || (u in m.tx && u !in left.walked && figs == m.tx[u].withAncestors)
  }

  /**
   When a run stops at a candidate without MWEB weight, whatever it leaves that is not poorer
   than its package is below the minimum rate and pays no more than its minimum.
   */
  lemma {:induction false} StopIsRight(assembler: BlockAssembler, perK: int, c: Candidate, left: End, u: TxId,
                                       figs: Figures)
    requires assembler.Valid() && RunsAt(assembler, assembler.m, perK) && assembler.InScoreOrder()
    requires assembler.StopsAt(c, left) && c.figs.size > 0 && c.figs.mwebWeight == 0
    requires Left(assembler.m, left, u, figs) && HasScore(assembler.m, figs, u) && figs.mwebWeight >= 0
    requires NotPoorer(EntryOf(assembler.m, figs, u))
    ensures Below(perK, EntryOf(assembler.m, figs, u)) && PaysNoMore(perK, EntryOf(assembler.m, figs, u))
  {
    var m := assembler.m;
    OwnSize(m, c.t, m.anc[c.t] + {c.t} - c.acc);
    assert !assembler.better(figs, u, c.figs, c.t);
    StopLeaves(EntryOf(m, c.figs, c.t), EntryOf(m, figs, u), perK);
  }

  /** The cached figures are those of the package over an empty block. */
  lemma {:induction false} CachedRecord(m: Mempool, w: TxId)
    requires m.Ok() && w in m.tx
    ensures RecordOk(m, w, m.tx[w].withAncestors, {}, {}) && ExactRecord(m, w, m.tx[w].withAncestors, {}, {})
  {
    assert m.Cached(w);
    assert m.anc[w] + {w} - {} == m.anc[w] + {w} == Package(m, {}, w);
  }

  /** In score order nothing precedes the first of the walk. */
  lemma {:induction false} FirstIsBest(assembler: BlockAssembler, w: TxId)
    requires assembler.Valid() && assembler.InScoreOrder() && assembler.scoreOrder != []
    requires w == assembler.scoreOrder[0] && w in assembler.m.tx
    ensures assembler.NoneBetter(w, assembler.m.tx[w].withAncestors, map[], {})
  {
    var figs := assembler.m.tx[w].withAncestors;
    assembler.CachedScored(w);
    assert Asymmetric(assembler.better, figs, w, figs, w);
    assembler.RestOfWalk(0, w, figs);
    assert Elements(assembler.scoreOrder[..0]) == {};
  }

  lemma {:induction false} FirstStops(assembler: BlockAssembler)
    requires assembler.Valid() && assembler.inBlock == {} && assembler.LowAt(0)
    ensures assembler.StopsAt(FirstCandidate(assembler.m, assembler.scoreOrder[0]), AT_START)
  {
    var m, w := assembler.m, assembler.scoreOrder[0];
    CachedRecord(m, w);
    assert Elements(assembler.scoreOrder[..0]) == {} && {} - Unreported([]) == {};
    assert assembler.NextInWalk(FirstCandidate(m, w), {}, 0);
    if assembler.InScoreOrder() {
      FirstIsBest(assembler, w);
    }
  }

  /**
   A run of the selection with the comparator and the minimum fee of the code, on a mempool
   whose first transaction in score order is too cheap.  It stops at that transaction
   with an empty block.
   */
  method StopAtFirst(m: ExactMempool, walk: Walk, perK: nat) returns (assembler: BlockAssembler)
    requires Elements(walk) == m.tx.Keys && walk != [] && walk[0] in m.tx
    requires AllScored(m) && ScoreSorted(m, ScoreOf(m), walk)
    requires TooCheap(perK, EntryOf(m, m.tx[walk[0]].withAncestors, walk[0]))
    ensures RunsAt(assembler, m, perK) && assembler.InScoreOrder() && assembler.order == []
    ensures assembler.StopsAt(FirstCandidate(m, walk[0]), AT_START)
  {
    var minTotalFee := (size, mwebWeight) => GetTotalFee(perK, size, mwebWeight);
    assembler := new BlockAssembler(m, walk, ScoreOf(m), 2000000, true, true, minTotalFee, (offered, t) => true);
    ghost var stopped, left := assembler.AddPackageTxs();
    ScoreIsWeakOrder(m);
    FirstStops(assembler);
  }

  /** Two transactions `b` and `c` share a parent without a fee, and `d` spends both. */
  function Diamond(a: TxId, b: TxId, c: TxId, d: TxId): (m: Mempool)
    requires a < b < c < d
    ensures m.tx.Keys == m.anc.Keys == {a, b, c, d}
  {
    Mempool(map[a := Plain(100, 0, 0, a, {}, Figures(100, 0, 0, 0), 1),
                b := Plain(100, 190, 190, b, {a}, Figures(200, 190, 0, 0), 2),
                c := Plain(100, 190, 190, c, {a}, Figures(200, 190, 0, 0), 2),
                d := Plain(100, 90, 90, d, {b, c}, Figures(400, 470, 0, 0), 4)],
            map[a := {}, b := {a}, c := {a}, d := {a, b, c}])
  }

  lemma {:induction false} DiamondDag(a: TxId, b: TxId, c: TxId, d: TxId)
    requires a < b < c < d
    ensures Diamond(a, b, c, d).IsDag()
  {
    var m := Diamond(a, b, c, d);
    assert m.Generated(a) && m.Generated(b) && m.Generated(c);
    assert m.Generated(d) by {
      assert b in m.tx[d].parents && a in m.anc[b];
    }
  }

  lemma {:induction false} DiamondSums(a: TxId, b: TxId, c: TxId, d: TxId)
    requires a < b < c < d
    ensures var m := Diamond(a, b, c, d);
            && PackageFigures(m, {a}) == Figures(100, 0, 0, 0)
            && PackageFigures(m, {a} + {b}) == PackageFigures(m, {a} + {c}) == Figures(200, 190, 0, 0)
            && PackageFigures(m, {a, b, c} + {d}) == Figures(400, 470, 0, 0)
  {
    var m := Diamond(a, b, c, d);
    FiguresOfOne(m, a);
    FiguresPlus(m, {a}, b);
    FiguresPlus(m, {a}, c);
    FiguresPlus(m, {a, b}, c);
    FiguresPlus(m, {a, b, c}, d);
    assert {a} + {b} == {a, b} && {a, b} + {c} == {a, b, c};
  }

  lemma {:induction false} DiamondCached(a: TxId, b: TxId, c: TxId, d: TxId)
    requires a < b < c < d
    ensures var m := Diamond(a, b, c, d); forall t :: t in m.tx ==> m.Cached(t)
  {
    var m := Diamond(a, b, c, d);
    DiamondSums(a, b, c, d);
    assert {} + {a} == {a};
    assert m.Cached(a) && m.Cached(b) && m.Cached(c) && m.Cached(d);
  }

  lemma {:induction false} DiamondPlain(a: TxId, b: TxId, c: TxId, d: TxId)
    requires a < b < c < d
    ensures var m := Diamond(a, b, c, d); forall t :: t in m.tx ==> IsPlain(m, t)
  {
  }

  lemma {:induction false} DiamondOk(a: TxId, b: TxId, c: TxId, d: TxId)
    requires a < b < c < d
    ensures Diamond(a, b, c, d).Ok()
  {
    DiamondDag(a, b, c, d);
    DiamondCached(a, b, c, d);
    DiamondPlain(a, b, c, d);
    ExactFrom(Diamond(a, b, c, d));
  }

  /**
   A transaction poorer than its package: at 1 per byte the first candidate is `b`, whose
   package has 190 for 200 bytes, so the selection stops with an empty block; the package
   of `d` has 470 for 400 bytes.
   */
  method RestMayBeDearer(a: TxId, b: TxId, c: TxId, d: TxId) returns (assembler: BlockAssembler)
    requires a < b < c < d
    ensures var m := Diamond(a, b, c, d);
            && m.Ok() && RunsAt(assembler, m, 1000) && assembler.InScoreOrder() && assembler.order == []
            && assembler.StopsAt(FirstCandidate(m, b), AT_START)
            && m.tx[b].withAncestors.modFees < m.tx[b].withAncestors.size
            && m.tx[d].withAncestors.modFees >= m.tx[d].withAncestors.size
            && !TooCheap(1000, EntryOf(m, m.tx[d].withAncestors, d))
            && !NotPoorer(EntryOf(m, m.tx[d].withAncestors, d))
  {
    DiamondOk(a, b, c, d);
    var m := Diamond(a, b, c, d);
    var walk := [b, c, d, a];
    DiamondSorted(a, b, c, d);
    assembler := StopAtFirst(m, walk, 1000);
  }

  lemma {:induction false} DiamondSorted(a: TxId, b: TxId, c: TxId, d: TxId)
    requires a < b < c < d
    ensures Elements([b, c, d, a]) == Diamond(a, b, c, d).tx.Keys
    ensures ScoreSorted(Diamond(a, b, c, d), ScoreOf(Diamond(a, b, c, d)), [b, c, d, a])
  {
    var m, walk := Diamond(a, b, c, d), [b, c, d, a];
    var better := ScoreOf(m);
    assert b == walk[0] && c == walk[1] && d == walk[2] && a == walk[3];
    assert Elements(walk) == m.tx.Keys;
    assert NotBefore(m, better, walk, 0, 1) && NotBefore(m, better, walk, 0, 2) && NotBefore(m, better, walk, 0, 3);
    assert NotBefore(m, better, walk, 1, 2) && NotBefore(m, better, walk, 1, 3) && NotBefore(m, better, walk, 2, 3);
  }

  lemma {:induction false} TwoSorted(m: Mempool, a: TxId, b: TxId)
    requires a != b && m.tx.Keys == {a, b}
    requires !ScoreOf(m)(m.tx[b].withAncestors, b, m.tx[a].withAncestors, a)
    ensures Elements([a, b]) == m.tx.Keys && ScoreSorted(m, ScoreOf(m), [a, b])
  {
    var walk := [a, b];
    assert a == walk[0] && b == walk[1];
    assert NotBefore(m, ScoreOf(m), walk, 0, 1);
  }

  /**
   The fee for MWEB weight: at 2 per byte `a` has to pay 200 for its size and 1000 for its
   weight.  It has 1100 and comes first, so the selection stops; `b` pays 900 for 200.
   */
  method RestMayNeedLess(a: TxId, b: TxId) returns (assembler: BlockAssembler)
    requires a < b
    ensures var m := Unrelated(map[a := Own(100, 10, 1100, 1100), b := Own(100, 0, 900, 900)]);
            && m.Ok() && RunsAt(assembler, m, 2000) && assembler.InScoreOrder() && assembler.order == []
            && assembler.StopsAt(FirstCandidate(m, a), AT_START)
            && !PaysNoMore(2000, EntryOf(m, m.tx[b].withAncestors, b))
            && NotPoorer(EntryOf(m, m.tx[b].withAncestors, b))
  {
    var own := map[a := Own(100, 10, 1100, 1100), b := Own(100, 0, 900, 900)];
    var m := Unrelated(own);
    UnrelatedOk(own);
    TwoSorted(m, a, b);
    assembler := StopAtFirst(m, [a, b], 2000);
  }

  /** The rounding: at 1005 per 1000 bytes `a` pays 200 and needs 201, while `b` pays 100 and needs 100. */
  method RestMayMeetItsMinimum(a: TxId, b: TxId) returns (assembler: BlockAssembler)
    requires a < b
    ensures var m := Unrelated(map[a := Own(200, 0, 200, 200), b := Own(100, 0, 100, 100)]);
            && m.Ok() && RunsAt(assembler, m, 1005) && assembler.InScoreOrder() && assembler.order == []
            && assembler.StopsAt(FirstCandidate(m, a), AT_START)
            && !TooCheap(1005, EntryOf(m, m.tx[b].withAncestors, b))
            && NotPoorer(EntryOf(m, m.tx[b].withAncestors, b))
  {
    var own := map[a := Own(200, 0, 200, 200), b := Own(100, 0, 100, 100)];
    var m := Unrelated(own);
    UnrelatedOk(own);
    TwoSorted(m, a, b);
    assembler := StopAtFirst(m, [a, b], 1005);
  }

  // ---------------------------------------------------------------- after a refusal

  /** A large transaction with two small children, one of them with MWEB data. */
  function Fork(a: TxId, b: TxId, c: TxId): (m: Mempool)
    requires a < b < c
    ensures m.tx.Keys == m.anc.Keys == {a, b, c}
  {
    Mempool(map[a := Plain(60000, 60000, 60000, a, {}, Figures(60000, 60000, 0, 0), 1),
                b := Plain(100, 200, 200, b, {a}, Figures(60100, 60200, 0, 0), 2).(hasMweb := true),
                c := Plain(100, 100, 100, c, {a}, Figures(60100, 60100, 0, 0), 2)],
            map[a := {}, b := {a}, c := {a}])
  }

  lemma {:induction false} ForkDag(a: TxId, b: TxId, c: TxId)
    requires a < b < c
    ensures Fork(a, b, c).IsDag()
  {
    var m := Fork(a, b, c);
    assert m.Generated(a) && m.Generated(b) && m.Generated(c);
  }

  lemma {:induction false} ForkCached(a: TxId, b: TxId, c: TxId)
    requires a < b < c
    ensures var m := Fork(a, b, c); forall t :: t in m.tx ==> m.Cached(t)
  {
    var m := Fork(a, b, c);
    FiguresOfOne(m, a);
    FiguresPlus(m, {a}, b);
    FiguresPlus(m, {a}, c);
    assert {} + {a} == {a};
    assert m.Cached(a) && m.Cached(b) && m.Cached(c);
  }

  lemma {:induction false} ForkPlain(a: TxId, b: TxId, c: TxId)
    requires a < b < c
    ensures var m := Fork(a, b, c); forall t :: t in m.tx ==> IsPlain(m, t)
  {
  }

  lemma {:induction false} ForkOk(a: TxId, b: TxId, c: TxId)
    requires a < b < c
    ensures Fork(a, b, c).Ok()
  {
    ForkDag(a, b, c);
    ForkCached(a, b, c);
    ForkPlain(a, b, c);
    ExactFrom(Fork(a, b, c));
  }

  function Never(offered: seq<TxId>, t: TxId): bool {
    false
  }

  /** When the MWEB miner takes nothing, no MWEB transaction is in the block. */
  lemma {:induction false} NoneTaken(m: Mempool, order: seq<TxId>, offered: seq<TxId>, t: TxId)
    requires Answered(m, Never, order, offered) && t in m.tx && m.tx[t].hasMweb
    ensures t !in order
  {
    TakesNothing(offered);
    NoMweb(m, order, t);
  }

  lemma {:induction false} TakesNothing(offered: seq<TxId>)
    ensures Taken(Never, offered) == []
  {
    if offered != [] {
      TakesNothing(offered[..|offered| - 1]);
    }
  }

  lemma {:induction false} NoMweb(m: Mempool, order: seq<TxId>, t: TxId)
    requires MwebOf(m, order) == [] && t in m.tx && m.tx[t].hasMweb
    ensures t !in order
  {
    if order != [] {
      NoMweb(m, order[..|order| - 1], t);
      assert order == order[..|order| - 1] + [order[|order| - 1]];
    }
  }

  lemma {:induction false} ForkOrder(a: TxId, b: TxId, c: TxId, sorted: seq<TxId>, k: nat, i: nat)
    requires a < b < c && SortedByCount(Fork(a, b, c), sorted) && Distinct(sorted)
    requires k < |sorted| && i < |sorted| && sorted[k] == b && sorted[i] in {a, b}
    ensures sorted[i] == if i < k then a else b
  {
  }

  /** The only transaction that can be refused is `b`, and `a` went in before it. */
  lemma {:induction false} ForkRefusal(a: TxId, b: TxId, c: TxId, r: Rules, run: Run, x: Refusal)
    requires a < b < c && Fork(a, b, c).IsDag() && RefusalOk(Fork(a, b, c), r, run, x) && x.t == b && x.at == 0
    ensures Elements(x.added) == {a} && Elements(x.rest) == {b}
  {
    var m := Fork(a, b, c);
    assert run.order[..0] == [] && Elements([]) == {} && Package(m, {}, b) == {a, b};
    ForkParts(a, b, c, x.added, x.rest);
  }

  lemma {:induction false} ForkParts(a: TxId, b: TxId, c: TxId, added: seq<TxId>, rest: seq<TxId>)
    requires a < b < c && SortedByCount(Fork(a, b, c), added + rest) && Elements(added + rest) == {a, b}
    requires rest != [] && rest[0] == b
    ensures Elements(added) == {a} && Elements(rest) == {b}
  {
    var sorted := added + rest;
    SortedDistinct(Fork(a, b, c), sorted);
    forall i | 0 <= i < |sorted|
      ensures sorted[i] == if i < |added| then a else b
    {
      assert sorted[i] in Elements(sorted);
      ForkOrder(a, b, c, sorted, |added|, i);
    }
    assert forall i :: 0 <= i < |added| ==> added[i] == sorted[i] == a;
    assert forall i :: 0 <= i < |rest| ==> rest[i] == sorted[|added| + i] == b;
    assert a in Elements(sorted);
    var i :| 0 <= i < |sorted| && sorted[i] == a;
    assert added[i] == a;
  }

  ghost predicate ForkSetup(assembler: BlockAssembler, a: TxId, b: TxId, c: TxId)
    requires a < b < c
    reads assembler
  {
    && assembler.Valid() && assembler.WithinLimits() && assembler.m == Fork(a, b, c)
    && assembler.nBlockMaxWeight == 400000 && assembler.fIncludeWitness && assembler.fIncludeMWEB
    && assembler.mwebAnswers == Never && (forall size, weight :: assembler.minTotalFee(size, weight) == 0)
  }

  lemma {:induction false} ForkClean(a: TxId, b: TxId, c: TxId, r: Rules, p: set<TxId>)
    requires a < b < c && r.segwit && r.mweb && p <= {a, b, c}
    ensures Clean(Fork(a, b, c), r, p, {})
  {
  }

  /** The package of `b` is refused, and leaves `a` in the block. */
  method RefuseFork(assembler: BlockAssembler, a: TxId, b: TxId, c: TxId)
      returns (modified: map<TxId, Figures>, failedTx: set<TxId>, ghost notes: map<TxId, Note>,
               ghost refusals: seq<Refusal>)
    requires a < b < c && ForkSetup(assembler, a, b, c) && assembler.order == [] && assembler.inBlock == {}
    modifies assembler
    ensures ForkSetup(assembler, a, b, c) && assembler.inBlock == {a}
    ensures modified == map[] && failedTx == {b} && Unreported(refusals) == {a}
    ensures Tracks(assembler.m, modified, notes, {a}, failedTx, {})
  {
    modified, notes := assembler.FirstIndex();
    ghost var verdict, acc, off;
    var stop, n;
    assert {} - Unreported([]) == {};
    stop, modified, failedTx, n, verdict, notes, refusals, acc, off :=
      assembler.Consider(b, false, modified, {}, 0, notes, [], 0);
    ForkClean(a, b, c, assembler.RulesOf(), Package(assembler.m, {}, b));
    NoneTaken(assembler.m, assembler.order, assembler.offered, b);
    AfterFork(assembler, a, b, c, modified, failedTx, refusals);
  }

  lemma {:induction false} AfterFork(assembler: BlockAssembler, a: TxId, b: TxId, c: TxId,
                                     modified: map<TxId, Figures>, failedTx: set<TxId>, refusals: seq<Refusal>)
    requires a < b < c && ForkSetup(assembler, a, b, c) && refusals != []
    requires WasRefused(assembler.m, assembler.RulesOf(), b, {}, modified.Keys, {}, failedTx, Run([], [], [], 0),
                        assembler.Now(refusals, 0), refusals[|refusals| - 1])
    ensures assembler.inBlock == {a} && modified == map[] && failedTx == {b} && Unreported(refusals) == {a}
    ensures assembler.Known(refusals) == {}
  {
    var x := refusals[|refusals| - 1];
    ForkRefusal(a, b, c, assembler.RulesOf(), assembler.Now(refusals, 0), x);
    UnreportedNext([], x);
    assert refusals == [] + [x] && [] + x.added == assembler.order;
  }

  /**
   Then there is no room for `c`, which is judged with its parent once more, although `c` alone would fit.
   */
  method RefusalTakesRoom(a: TxId, b: TxId, c: TxId) returns (assembler: BlockAssembler, ghost verdict: Verdict)
    requires a < b < c
    ensures ForkSetup(assembler, a, b, c) && assembler.inBlock == {a} && verdict == Full && assembler.Eligible(c)
    ensures Fits(assembler.m, assembler.nBlockMaxWeight, {a}, Package(assembler.m, {a}, c))
  {
    ForkOk(a, b, c);
    var m := Fork(a, b, c);
    assembler := new BlockAssembler(m, [b, c, a], ScoreOf(m), 400000, true, true, (size, weight) => 0, Never);
    var modified, failedTx;
    ghost var notes, refusals;
    modified, failedTx, notes, refusals := RefuseFork(assembler, a, b, c);
    ForkRoom(a, b, c);
    var stop, n;
    ghost var acc, off;
    assert {a} - Unreported(refusals) == {};
    stop, modified, failedTx, n, verdict, notes, refusals, acc, off :=
      assembler.Consider(c, false, modified, failedTx, 0, notes, refusals, 0);
  }

  lemma {:induction false} ForkRoom(a: TxId, b: TxId, c: TxId)
    requires a < b < c && Fork(a, b, c).IsDag()
    ensures var m := Fork(a, b, c); Sum(m, Weight, {a}) == 240000 && Fits(m, 400000, {a}, Package(m, {a}, c))
  {
    var m := Fork(a, b, c);
    assert Package(m, {a}, c) == {c};
    SumInsert(m, Weight, {}, a);
    SumInsert(m, SigOps, {}, a);
    SumInsert(m, MwebWeight, {}, a);
    FiguresOfOne(m, c);
    assert {} + {a} == {a};
  }
}
