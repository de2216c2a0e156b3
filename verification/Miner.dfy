/**
 Block assembly: greedy selection of ancestor packages from the mempool
 (src/miner.cpp, src/miner.h).

 The mempool is an input: a finite DAG of transactions whose cached ancestor
 sums are exact.  The order in which packages are considered (the
 `ancestor_score` indexes) and the answers of the MWEB miner, which may depend on
 all it was offered before, are arbitrary, so everything below holds for every fee
 market and every pattern of MWEB refusals.
 */
module Miner {
  import opened Collections

  type TxId = nat

  /** The figures kept for a package: CTxMemPoolModifiedEntry, and the cached ones of CTxMemPoolEntry. */
  datatype Figures = Figures(size: int, modFees: int, sigOps: int, mwebWeight: int)

  datatype Tx = Tx(
    size: nat, weight: nat, sigOps: nat, mwebWeight: nat, fee: int, modFee: int,
    hash: nat, hasMweb: bool, mwebOnly: bool, hasWitness: bool, isFinal: bool,
    parents: set<TxId>, withAncestors: Figures, countWithAncestors: nat)

  /** `anc` is the strict ancestor relation generated by the parent links. */
  datatype Mempool = Mempool(tx: map<TxId, Tx>, anc: map<TxId, set<TxId>>) {

    /** The ancestors of `t` are its parents and their ancestors. */
    ghost predicate Generated(t: TxId) {
      && anc.Keys == tx.Keys
      && t in tx
      && tx[t].parents <= tx.Keys
      && forall a :: a in anc[t] <==> a in tx[t].parents || exists p :: p in tx[t].parents && a in anc[p]
    }

    ghost predicate IsDag() {
      && anc.Keys == tx.Keys
      && (forall t :: t in anc ==> anc[t] <= tx.Keys && t !in anc[t])
      && forall t {:trigger Generated(t)} :: t in tx ==> Generated(t)
    }

    /** The cached ancestor state of `t` is exact. */
    ghost predicate Cached(t: TxId)
      requires t in tx && t in anc
    {
      && tx[t].countWithAncestors == |anc[t]| + 1
      && tx[t].withAncestors == PackageFigures(this, anc[t] + {t})
    }

    ghost predicate UniqueHash(t: TxId)
      requires t in tx
    {
      forall u :: u in tx && tx[u].hash == tx[t].hash ==> u == t
    }

    ghost predicate Weighed(t: TxId)
      requires t in tx
    {
      tx[t].weight <= WITNESS_SCALE_FACTOR * tx[t].size
    }

    /** Cached state is exact, a transaction weighs at most four times its virtual size, hashes are unique. */
    ghost predicate Exact()
      requires IsDag()
    {
      && (forall t {:trigger Cached(t)} :: t in tx ==> Cached(t))
      && (forall t {:trigger Weighed(t)} :: t in tx ==> Weighed(t))
      && forall t {:trigger UniqueHash(t)} :: t in tx ==> UniqueHash(t)
    }

    ghost predicate Ok() {
      IsDag() && Exact()
    }
  }

  /** Whether the first entry, with its figures, comes before the second in an `ancestor_score` index. */
  type Score = (Figures, TxId, Figures, TxId) -> bool

  /** An entry has a fee rate if it has a size; without one it has the highest if it has a fee. */
  ghost predicate HasScore(m: Mempool, e: Figures, t: TxId) {
    t in m.tx && m.tx[t].size <= e.size && (m.tx[t].size > 0 || m.tx[t].modFee > 0)
  }

  /** A score that orders all entries that have one. */
  ghost predicate WeakOrder(m: Mempool, f: Score) {
    && (forall a, s, b, t {:trigger Asymmetric(f, a, s, b, t)} ::
          HasScore(m, a, s) && HasScore(m, b, t) ==> Asymmetric(f, a, s, b, t))
    && (forall a, s, b, t, c, u {:trigger Ranks(f, a, s, b, t, c, u)} ::
          HasScore(m, a, s) && HasScore(m, b, t) && HasScore(m, c, u) ==> Ranks(f, a, s, b, t, c, u))
  }

  ghost predicate Asymmetric(f: Score, a: Figures, s: TxId, b: Figures, t: TxId) {
    !f(a, s, b, t) || !f(b, t, a, s)
  }

  /** Whatever comes before the last of three entries comes before the middle one, or that comes before the last. */
  ghost predicate Ranks(f: Score, a: Figures, s: TxId, b: Figures, t: TxId, c: Figures, u: TxId) {
    f(a, s, c, u) ==> f(a, s, b, t) || f(b, t, c, u)
  }

  type ExactMempool = m: Mempool | m.Ok() witness Mempool(map[], map[])

  /** The entries of an index, each of them once. */
  type Walk = s: seq<TxId> | Distinct(s) witness []

  const WITNESS_SCALE_FACTOR := 4
  const MAX_BLOCK_WEIGHT := 4000000
  const MAX_BLOCK_SIGOPS_COST := 80000
  const MAX_MINE_WEIGHT := 20000
  const MAX_CONSECUTIVE_FAILURES := 1000

  // ---------------------------------------------------------------- sums over sets of transactions

  datatype Field = Size | SigOps | MwebWeight | Weight | Fee | ModFee

  function Val(m: Mempool, k: Field, t: TxId): int {
    if t !in m.tx then 0 else
    match k
    case Size => m.tx[t].size
    case SigOps => m.tx[t].sigOps
    case MwebWeight => m.tx[t].mwebWeight
    case Weight => m.tx[t].weight
    case Fee => m.tx[t].fee
    case ModFee => m.tx[t].modFee
  }

  ghost function Sum(m: Mempool, k: Field, s: set<TxId>): int {
    if s == {} then 0 else
    var t :| t in s;
    Val(m, k, t) + Sum(m, k, s - {t})
  }

  ghost function PackageFigures(m: Mempool, s: set<TxId>): Figures {
    Figures(Sum(m, Size, s), Sum(m, ModFee, s), Sum(m, SigOps, s), Sum(m, MwebWeight, s))
  }

  lemma {:induction false} SumRemove(m: Mempool, k: Field, s: set<TxId>, x: TxId)
    requires x in s
    ensures Sum(m, k, s) == Val(m, k, x) + Sum(m, k, s - {x})
    decreases s
  {
    var t :| t in s && Sum(m, k, s) == Val(m, k, t) + Sum(m, k, s - {t});
    if t != x {
      SumRemove(m, k, s - {t}, x);
      SumRemove(m, k, s - {x}, t);
      assert s - {t} - {x} == s - {x} - {t};
    }
  }

  lemma {:induction false} SumInsert(m: Mempool, k: Field, s: set<TxId>, x: TxId)
    requires x !in s
    ensures Sum(m, k, s + {x}) == Sum(m, k, s) + Val(m, k, x)
  {
    SumRemove(m, k, s + {x}, x);
    assert s + {x} - {x} == s;
  }

  lemma {:induction false} SumUnion(m: Mempool, k: Field, s: set<TxId>, u: set<TxId>)
    requires s !! u
    ensures Sum(m, k, s + u) == Sum(m, k, s) + Sum(m, k, u)
    decreases u
  {
    if u == {} {
      assert s + u == s;
    } else {
      var x :| x in u;
      SumUnion(m, k, s, u - {x});
      SumRemove(m, k, u, x);
      SumInsert(m, k, s + (u - {x}), x);
      assert s + u == s + (u - {x}) + {x};
    }
  }

  lemma {:induction false} SumMonotone(m: Mempool, k: Field, s: set<TxId>, u: set<TxId>)
    requires s <= u
    requires k in {Size, SigOps, MwebWeight, Weight}
    ensures 0 <= Sum(m, k, s) <= Sum(m, k, u)
    decreases u
  {
    if u != {} {
      var x :| x in u;
      SumRemove(m, k, u, x);
      SumMonotone(m, k, s - {x}, u - {x});
      if x in s {
        SumRemove(m, k, s, x);
      } else {
        assert s - {x} == s;
      }
    }
  }

  lemma {:induction false} WeightBound(m: Mempool, s: set<TxId>)
    requires m.Ok()
    ensures Sum(m, Weight, s) <= WITNESS_SCALE_FACTOR * Sum(m, Size, s)
    decreases s
  {
    if s != {} {
      var x :| x in s;
      SumRemove(m, Weight, s, x);
      SumRemove(m, Size, s, x);
      WeightBound(m, s - {x});
      if x in m.tx {
        assert m.Weighed(x);
      }
    }
  }

  // ---------------------------------------------------------------- ancestors

  lemma {:induction false} ParentAncestors(m: Mempool, t: TxId, p: TxId)
    requires m.IsDag() && t in m.tx && p in m.tx[t].parents
    ensures p in m.anc[t] && m.anc[p] <= m.anc[t]
  {
    assert m.Generated(t);
  }

  /** The relation generated from the parents is transitive. */
  lemma {:induction false} AncestorsTransitive(m: Mempool, t: TxId, a: TxId)
    requires m.IsDag() && t in m.tx && a in m.anc[t]
    ensures m.anc[a] <= m.anc[t]
    decreases m.anc[t]
  {
    assert m.Generated(t);
    if a in m.tx[t].parents {
      ParentAncestors(m, t, a);
    } else {
      var p :| p in m.tx[t].parents && a in m.anc[p];
      ParentAncestors(m, t, p);
      assert p !in m.anc[p];
      AncestorsTransitive(m, p, a);
    }
  }

  /** Sorting by ancestor count is a topological order: an ancestor always has a smaller count. */
  lemma {:induction false} AncestorCountsLess(m: Mempool, t: TxId, a: TxId)
    requires m.Ok() && t in m.tx && a in m.anc[t]
    ensures m.tx[a].countWithAncestors < m.tx[t].countWithAncestors
  {
    AncestorsTransitive(m, t, a);
    assert a !in m.anc[a] && m.Cached(a) && m.Cached(t);
    ProperSubsetSize(m.anc[a], m.anc[t]);
  }

  ghost predicate AncestorClosed(m: Mempool, s: set<TxId>)
    requires m.IsDag()
  {
    s <= m.tx.Keys && forall t :: t in s ==> m.anc[t] <= s
  }

  function Elements(s: seq<TxId>): set<TxId> {
    set t | t in s
  }

  lemma {:induction false} SomeElement(s: seq<TxId>)
    requires s != []
    ensures Elements(s) != {}
  {
    assert s[0] in Elements(s);
  }

  lemma {:induction false} ElementsAppend(s: seq<TxId>, u: seq<TxId>)
    ensures Elements(s + u) == Elements(s) + Elements(u)
  {
  }

  lemma {:induction false} ElementsSplit(s: seq<TxId>, i: nat)
    requires i <= |s|
    ensures Elements(s) == Elements(s[..i]) + Elements(s[i..])
    ensures i < |s| ==> s[..i + 1] == s[..i] + [s[i]] && Elements(s[..i + 1]) == Elements(s[..i]) + {s[i]}
    ensures i == |s| ==> s[..i] == s
  {
    assert s == s[..i] + s[i..];
    assert i < |s| ==> s[..i + 1] == s[..i] + [s[i]];
  }

  lemma {:induction false} TakeOneMore(done: seq<TxId>, s: seq<TxId>, i: nat, modified: map<TxId, Figures>)
    requires i < |s|
    ensures done + s[..i] + [s[i]] == done + s[..i + 1]
    ensures modified - Elements(s[..i]) - {s[i]} == modified - Elements(s[..i + 1])
    ensures Elements(s[..i + 1]) == Elements(s[..i]) + {s[i]}
  {
    ElementsSplit(s, i);
  }

  lemma {:induction false} DropBoth(s: seq<TxId>, i: nat, modified: map<TxId, Figures>)
    requires i <= |s|
    ensures modified - Elements(s[..i]) - Elements(s[i..]) == modified - Elements(s)
  {
    ElementsSplit(s, i);
  }

  /** The `i`-th transaction is new and comes after all of its mempool ancestors. */
  ghost predicate Follows(m: Mempool, order: seq<TxId>, i: nat)
    requires i < |order|
  {
    order[i] in m.anc && order[i] !in order[..i] && m.anc[order[i]] <= Elements(order[..i])
  }

  ghost predicate Ordered(m: Mempool, order: seq<TxId>) {
    && Elements(order) <= m.tx.Keys
    && forall i {:trigger Follows(m, order, i)} :: 0 <= i < |order| ==> Follows(m, order, i)
  }

  /** An ordered block holds each transaction once and contains all ancestors of what it contains. */
  lemma {:induction false} OrderedIsClosed(m: Mempool, order: seq<TxId>)
    requires m.IsDag() && Ordered(m, order)
    ensures AncestorClosed(m, Elements(order))
    ensures forall i, j :: 0 <= i < j < |order| ==> order[i] != order[j]
  {
    forall t, a | t in Elements(order) && a in m.anc[t]
      ensures a in Elements(order)
    {
      var i :| 0 <= i < |order| && order[i] == t;
      assert Follows(m, order, i);
      assert a in order[..i];
    }
    forall i, j | 0 <= i < j < |order|
      ensures order[i] != order[j]
    {
      assert Follows(m, order, j);
      assert order[i] in order[..j];
    }
  }

  lemma {:induction false} OrderedAppend(m: Mempool, order: seq<TxId>, t: TxId)
    requires m.IsDag() && Ordered(m, order)
    requires t in m.tx && t !in order && m.anc[t] <= Elements(order)
    ensures Ordered(m, order + [t]) && Elements(order + [t]) == Elements(order) + {t}
  {
    var o := order + [t];
    forall i: nat | i < |o|
      ensures Follows(m, o, i)
    {
      if i < |order| {
        assert Follows(m, order, i);
        assert o[..i] == order[..i];
      } else {
        assert o[..i] == order;
      }
    }
  }

  // ---------------------------------------------------------------- the shadow index of modified sums

  /** The unconfirmed package of `t`: itself and its ancestors not yet in the block. */
  ghost function Package(m: Mempool, inBlock: set<TxId>, t: TxId): set<TxId>
    requires m.IsDag() && t in m.tx
  {
    m.anc[t] - inBlock + {t}
  }

  /** Which ancestors have been counted out of an entry, and which of them first. */
  datatype Note = Note(acc: set<TxId>, lead: TxId)

  /**
   The entry `e` of transaction `t` has been reduced for exactly the ancestors
   `n.acc`, of which `n.lead` was the first.  The first reduction subtracts the
   modified fee and later ones the base fee, so the fee figure is off by the fee
   deltas of all of `n.acc` but `n.lead`.
   */
  ghost predicate EntryOk(m: Mempool, t: TxId, e: Figures, n: Note)
    requires m.IsDag() && t in m.tx
  {
    var rest := m.anc[t] + {t} - n.acc;
    && n.acc <= m.anc[t]
    && n.lead in n.acc
    && e.size == Sum(m, Size, rest)
    && e.sigOps == Sum(m, SigOps, rest)
    && e.mwebWeight == Sum(m, MwebWeight, rest)
    && e.modFees == Sum(m, ModFee, rest) + (Sum(m, ModFee, n.acc - {n.lead}) - Sum(m, Fee, n.acc - {n.lead}))
  }

  /**
   What the shadow index knows about `t` once the transactions `accounted` have
   been reported to it: an entry never counts an ancestor out that was not
   reported; the entry of a transaction that has not failed counts out all of
   them; and with no entry the cached figures are still good.
   */
  ghost predicate TrackedAt(m: Mempool, modified: map<TxId, Figures>, notes: map<TxId, Note>, failedTx: set<TxId>,
                            accounted: set<TxId>, t: TxId)
    requires m.IsDag() && t in m.tx
  {
    && (t in modified ==>
          && t in notes
          && EntryOk(m, t, modified[t], notes[t])
          && notes[t].acc <= accounted
          && (t !in failedTx ==> notes[t].acc == m.anc[t] * accounted))
    && (t !in modified && t !in failedTx ==> m.anc[t] !! accounted)
  }

  ghost predicate Tracks(m: Mempool, modified: map<TxId, Figures>, notes: map<TxId, Note>, inBlock: set<TxId>,
                         failedTx: set<TxId>, accounted: set<TxId>)
    requires m.IsDag()
  {
    && modified.Keys <= m.tx.Keys - inBlock
    && accounted <= inBlock
    && forall t {:trigger TrackedAt(m, modified, notes, failedTx, accounted, t)} :: t in m.tx && t !in inBlock ==>
         TrackedAt(m, modified, notes, failedTx, accounted, t)
  }

  /** Reducing an entry for one more included ancestor (update_for_parent_inclusion). */
  function ReduceFor(e: Figures, size: int, fee: int, sigOps: int, mwebWeight: int): Figures {
    Figures(e.size - size, e.modFees - fee, e.sigOps - sigOps, e.mwebWeight - mwebWeight)
  }

  lemma {:induction false} FirstReduction(m: Mempool, t: TxId, it: TxId)
    requires m.Ok() && t in m.tx && it in m.anc[t]
    ensures EntryOk(m, t,
                    ReduceFor(m.tx[t].withAncestors, m.tx[it].size, m.tx[it].modFee, m.tx[it].sigOps,
                              m.tx[it].mwebWeight),
                    Note({it}, it))
  {
    var all := m.anc[t] + {t};
    assert m.Cached(t);
    SumRemove(m, Size, all, it);
    SumRemove(m, ModFee, all, it);
    SumRemove(m, SigOps, all, it);
    SumRemove(m, MwebWeight, all, it);
    assert {it} - {it} == {};
  }

  lemma {:induction false} NextReduction(m: Mempool, t: TxId, e: Figures, n: Note, it: TxId)
    requires m.Ok() && t in m.tx && EntryOk(m, t, e, n)
    requires it in m.anc[t] && it !in n.acc
    ensures EntryOk(m, t,
                    ReduceFor(e, m.tx[it].size, m.tx[it].fee, m.tx[it].sigOps, m.tx[it].mwebWeight),
                    n.(acc := n.acc + {it}))
  {
    var Note(acc, lead) := n;
    var rest := m.anc[t] + {t} - acc;
    SumRemove(m, Size, rest, it);
    SumRemove(m, ModFee, rest, it);
    SumRemove(m, SigOps, rest, it);
    SumRemove(m, MwebWeight, rest, it);
    assert m.anc[t] + {t} - (acc + {it}) == rest - {it};
    SumInsert(m, ModFee, acc - {lead}, it);
    SumInsert(m, Fee, acc - {lead}, it);
    assert acc + {it} - {lead} == acc - {lead} + {it};
  }

  /** Figures for `t` that leave out the ancestors `acc`, with the fee off by the fee deltas of `off`. */
  ghost predicate RecordOk(m: Mempool, t: TxId, e: Figures, acc: set<TxId>, off: set<TxId>)
    requires m.IsDag() && t in m.tx
  {
    var rest := m.anc[t] + {t} - acc;
    && off <= acc <= m.anc[t]
    && Matches(m, e, rest)
    && e.modFees == Sum(m, ModFee, rest) + (Sum(m, ModFee, off) - Sum(m, Fee, off))
  }

  /** The recorded fee is exact if and only if the fee deltas of the ancestors reported after the first cancel out. */
  lemma {:induction false} RecordedFee(m: Mempool, t: TxId, e: Figures, n: Note)
    requires m.IsDag() && t in m.tx && EntryOk(m, t, e, n)
    ensures RecordOk(m, t, e, n.acc, n.acc - {n.lead})
    ensures e.modFees == Sum(m, ModFee, m.anc[t] + {t} - n.acc)
       <==> Sum(m, ModFee, n.acc - {n.lead}) == Sum(m, Fee, n.acc - {n.lead})
  {
  }

  /** Without fee deltas the two sums of fees are the same. */
  lemma {:induction false} NoDeltas(m: Mempool, s: set<TxId>)
    requires forall a :: a in s && a in m.tx ==> m.tx[a].fee == m.tx[a].modFee
    ensures Sum(m, ModFee, s) == Sum(m, Fee, s)
    decreases s
  {
    if s != {} {
      var a :| a in s;
      SumRemove(m, ModFee, s, a);
      SumRemove(m, Fee, s, a);
      NoDeltas(m, s - {a});
    }
  }

  lemma {:induction false} EqualDeltas(m: Mempool, s: set<TxId>, d: int)
    requires forall a :: a in s ==> a in m.tx && m.tx[a].modFee - m.tx[a].fee == d
    ensures Sum(m, ModFee, s) - Sum(m, Fee, s) == |s| * d
    decreases s
  {
    if s != {} {
      var a :| a in s;
      SumRemove(m, ModFee, s, a);
      SumRemove(m, Fee, s, a);
      EqualDeltas(m, s - {a}, d);
      assert |s| * d == |s - {a}| * d + d;
    }
  }

  /** The recorded fee of `t` is exact whichever of the ancestors `acc` was reported first. */
  ghost predicate ExactInAnyOrder(m: Mempool, acc: set<TxId>) {
    forall lead :: lead in acc ==> Sum(m, ModFee, acc - {lead}) == Sum(m, Fee, acc - {lead})
  }

  /**
   What a caller can look up beforehand: the fee recorded once the ancestors `acc` are
   included is exact in every order of reporting if and only if there is at most one of
   them or none of them has a fee delta.
   */
  lemma {:induction false} FeeExactIff(m: Mempool, acc: set<TxId>)
    requires acc <= m.tx.Keys
    ensures ExactInAnyOrder(m, acc) <==> |acc| <= 1 || forall a :: a in acc ==> m.tx[a].fee == m.tx[a].modFee
  {
    if ExactInAnyOrder(m, acc) && |acc| > 1 {
      AllDeltasZero(m, acc);
    }
    if forall a :: a in acc ==> m.tx[a].fee == m.tx[a].modFee {
      forall lead | lead in acc
        ensures Sum(m, ModFee, acc - {lead}) == Sum(m, Fee, acc - {lead})
      {
        NoDeltas(m, acc - {lead});
      }
    } else if |acc| <= 1 {
      OneReport(m, acc);
    }
  }

  lemma {:induction false} OneReport(m: Mempool, acc: set<TxId>)
    requires |acc| <= 1
    ensures ExactInAnyOrder(m, acc)
  {
    forall lead | lead in acc
      ensures acc - {lead} == {}
    {
      assert |acc - {lead}| == |acc| - 1;
    }
  }

  lemma {:induction false} AllDeltasZero(m: Mempool, acc: set<TxId>)
    requires acc <= m.tx.Keys && ExactInAnyOrder(m, acc) && |acc| > 1
    ensures forall a :: a in acc ==> m.tx[a].fee == m.tx[a].modFee
  {
    var delta := Sum(m, ModFee, acc) - Sum(m, Fee, acc);
    forall a | a in acc
      ensures m.tx[a].modFee - m.tx[a].fee == delta
    {
      SumRemove(m, ModFee, acc, a);
      SumRemove(m, Fee, acc, a);
    }
    EqualDeltas(m, acc, delta);
    OnlyZero(|acc|, delta);
  }

  lemma {:induction false} OnlyZero(n: nat, d: int)
    requires n > 1 && d == n * d
    ensures d == 0
  {
    assert (n - 1) * d == 0;
  }

  /** A report about a transaction that is no ancestor of `t` leaves its record right. */
  lemma {:induction false} UnrelatedReport(m: Mempool, modified: map<TxId, Figures>, notes: map<TxId, Note>,
                                           failedTx: set<TxId>, accounted: set<TxId>, t: TxId, it: TxId)
    requires m.IsDag() && t in m.tx && it !in m.anc[t]
    requires TrackedAt(m, modified, notes, failedTx, accounted, t)
    ensures TrackedAt(m, modified, notes, failedTx, accounted + {it}, t)
  {
    assert m.anc[t] * (accounted + {it}) == m.anc[t] * accounted;
  }

  /** The record of `t` consists of its own entry and note. */
  lemma {:induction false} SameRecord(m: Mempool, modified: map<TxId, Figures>, notes: map<TxId, Note>,
                                      failedTx: set<TxId>, accounted: set<TxId>, t: TxId, d: TxId, e: Figures, n: Note)
    requires m.IsDag() && t in m.tx && t != d
    ensures TrackedAt(m, modified[d := e], notes[d := n], failedTx, accounted, t)
       <==> TrackedAt(m, modified, notes, failedTx, accounted, t)
  {
  }

  /**
   The figures are those of the package of `t` still to be added; the fee is exact if and
   only if the fee deltas of the included ancestors `off` cancel out.
   */
  ghost predicate ExactRecord(m: Mempool, t: TxId, e: Figures, off: set<TxId>, inBlock: set<TxId>)
    requires m.IsDag() && t in m.tx
  {
    var p := Package(m, inBlock, t);
    && off <= m.anc[t] * inBlock
    && Matches(m, e, p)
    && (e.modFees == Sum(m, ModFee, p) <==> Sum(m, ModFee, off) == Sum(m, Fee, off))
  }

  /**
   Whichever record is used, it never understates what is left to add, and is exact when it leaves
   out the whole block.
   */
  lemma {:induction false} FiguresBoundPackage(m: Mempool, t: TxId, e: Figures, acc: set<TxId>, off: set<TxId>,
                                               inBlock: set<TxId>)
    requires m.IsDag() && t in m.tx && t !in inBlock && RecordOk(m, t, e, acc, off) && acc <= inBlock
    ensures Covers(m, e, Package(m, inBlock, t))
    ensures acc == m.anc[t] * inBlock ==> ExactRecord(m, t, e, off, inBlock)
  {
    var rest := m.anc[t] + {t} - acc;
    var p := Package(m, inBlock, t);
    SumMonotone(m, Size, p, rest);
    SumMonotone(m, SigOps, p, rest);
    SumMonotone(m, MwebWeight, p, rest);
    if acc == m.anc[t] * inBlock {
      assert p == rest;
    }
  }

  /** A package is judged by what is still to be added if and only if none of its ancestors went in unreported. */
  lemma {:induction false} JudgedByPackageIff(m: Mempool, t: TxId, inBlock: set<TxId>, unreported: set<TxId>)
    requires m.IsDag() && t in m.tx && t !in inBlock && unreported <= inBlock
    ensures Package(m, inBlock - unreported, t) == Package(m, inBlock, t) <==> m.anc[t] !! unreported
  {
    if a :| a in m.anc[t] && a in unreported {
      assert a in Package(m, inBlock - unreported, t) && a !in Package(m, inBlock, t);
    } else {
      assert Package(m, inBlock - unreported, t) == Package(m, inBlock, t);
    }
  }

  /** With no fee deltas among the included ancestors the fee is that of the package, in every run. */
  lemma {:induction false} FeeIsExact(m: Mempool, t: TxId, e: Figures, off: set<TxId>, inBlock: set<TxId>)
    requires m.IsDag() && t in m.tx && ExactRecord(m, t, e, off, inBlock)
    requires forall a :: a in m.anc[t] * inBlock ==> m.tx[a].fee == m.tx[a].modFee
    ensures e.modFees == Sum(m, ModFee, Package(m, inBlock, t))
  {
    NoDeltas(m, off);
  }

  ghost predicate Covers(m: Mempool, e: Figures, s: set<TxId>) {
    e.size >= Sum(m, Size, s) && e.sigOps >= Sum(m, SigOps, s) && e.mwebWeight >= Sum(m, MwebWeight, s)
  }

  ghost predicate Matches(m: Mempool, e: Figures, s: set<TxId>) {
    e.size == Sum(m, Size, s) && e.sigOps == Sum(m, SigOps, s) && e.mwebWeight == Sum(m, MwebWeight, s)
  }

  /** Dropping transactions from the index is sound once they are included or recorded as failed. */
  lemma {:induction false} TracksDrop(m: Mempool, modified: map<TxId, Figures>, notes: map<TxId, Note>,
                                      inBlock: set<TxId>, failedTx: set<TxId>, accounted: set<TxId>, gone: set<TxId>,
                                      inBlock': set<TxId>, failedTx': set<TxId>)
    requires m.IsDag() && Tracks(m, modified, notes, inBlock, failedTx, accounted)
    requires inBlock <= inBlock' <= inBlock + gone && failedTx <= failedTx'
    requires gone <= inBlock' + failedTx'
    ensures Tracks(m, modified - gone, notes, inBlock', failedTx', accounted)
  {
    forall t | t in m.tx && t !in inBlock'
      ensures TrackedAt(m, modified - gone, notes, failedTx', accounted, t)
    {
      assert TrackedAt(m, modified, notes, failedTx, accounted, t);
    }
  }

  /** A part of a package that passed the size test fits in the block. */
  lemma {:induction false} PartFits(m: Mempool, figs: Figures, package: set<TxId>, part: set<TxId>, inBlock: set<TxId>)
    requires m.Ok() && part <= package && part !! inBlock && Covers(m, figs, package)
    ensures Sum(m, Weight, inBlock + part) <= Sum(m, Weight, inBlock) + WITNESS_SCALE_FACTOR * figs.size
    ensures Sum(m, SigOps, inBlock + part) <= Sum(m, SigOps, inBlock) + figs.sigOps
    ensures Sum(m, MwebWeight, inBlock + part) <= Sum(m, MwebWeight, inBlock) + figs.mwebWeight
  {
    SumUnion(m, Weight, inBlock, part);
    SumUnion(m, SigOps, inBlock, part);
    SumUnion(m, MwebWeight, inBlock, part);
    WeightBound(m, part);
    SumMonotone(m, Size, part, package);
    SumMonotone(m, SigOps, part, package);
    SumMonotone(m, MwebWeight, part, package);
  }

  /** CompareTxIterByAncestorCount. */
  predicate SortsBefore(m: Mempool, a: TxId, b: TxId)
    requires a in m.tx && b in m.tx
  {
    if m.tx[a].countWithAncestors != m.tx[b].countWithAncestors
    then m.tx[a].countWithAncestors < m.tx[b].countWithAncestors
    else m.tx[a].hash < m.tx[b].hash
  }

  ghost predicate SortedByCount(m: Mempool, r: seq<TxId>) {
    && Elements(r) <= m.tx.Keys
    && forall i, j :: 0 <= i < j < |r| ==> SortsBefore(m, r[i], r[j])
  }

  /** The `i`-th of the transactions `r` can be appended to a block once those before it are in. */
  ghost predicate Ready(m: Mempool, inBlock: set<TxId>, r: seq<TxId>, i: nat)
    requires i < |r|
  {
    && r[i] in m.anc
    && r[i] !in inBlock
    && r[i] !in r[..i]
    && m.anc[r[i]] <= inBlock + Elements(r[..i])
  }

  /** In a sorted unconfirmed package every ancestor of an entry is in the block already or sorted before it. */
  lemma {:induction false} SortedPackageFollows(m: Mempool, inBlock: set<TxId>, t: TxId, r: seq<TxId>, i: nat)
    requires m.Ok() && t in m.tx && SortedByCount(m, r) && Elements(r) == Package(m, inBlock, t) && i < |r|
    requires t !in inBlock
    ensures Ready(m, inBlock, r, i)
  {
    assert r[i] in Package(m, inBlock, t);
    assert forall j :: 0 <= j < i ==> r[j] != r[i];
    forall a | a in m.anc[r[i]] && a !in inBlock
      ensures a in r[..i]
    {
      if r[i] != t {
        AncestorsTransitive(m, t, r[i]);
      }
      assert a in Elements(r);
      var j :| 0 <= j < |r| && r[j] == a;
      AncestorCountsLess(m, r[i], a);
      assert j < i;
      assert r[..i][j] == a;
    }
  }

  function NonMwebOnly(m: Mempool, order: seq<TxId>): seq<TxId> {
    if order == [] then [] else
    var t := order[|order| - 1];
    NonMwebOnly(m, order[..|order| - 1]) + (if t in m.tx && m.tx[t].mwebOnly then [] else [t])
  }

  /** The included transactions with MWEB data. */
  function MwebOf(m: Mempool, order: seq<TxId>): seq<TxId> {
    if order == [] then [] else
    var t := order[|order| - 1];
    MwebOf(m, order[..|order| - 1]) + (if t in m.tx && m.tx[t].hasMweb then [t] else [])
  }

  /** The answers of the MWEB miner, which may depend on everything it was offered before. */
  type Answers = (seq<TxId>, TxId) -> bool

  /** What the MWEB miner took of what it was offered. */
  function Taken(answers: Answers, offered: seq<TxId>): seq<TxId> {
    if offered == [] then [] else
    var before, t := offered[..|offered| - 1], offered[|offered| - 1];
    Taken(answers, before) + (if answers(before, t) then [t] else [])
  }

  /** Exactly the MWEB transactions that the MWEB miner took are in the block, in the same order. */
  ghost predicate Answered(m: Mempool, answers: Answers, order: seq<TxId>, offered: seq<TxId>) {
    && MwebOf(m, order) == Taken(answers, offered)
    && forall t :: t in offered ==> t in m.tx && m.tx[t].hasMweb
  }

  lemma {:induction false} AnsweredNext(m: Mempool, answers: Answers, order: seq<TxId>, offered: seq<TxId>, t: TxId)
    requires t in m.tx && Answered(m, answers, order, offered)
    ensures !m.tx[t].hasMweb ==> Answered(m, answers, order + [t], offered)
    ensures m.tx[t].hasMweb ==>
              Answered(m, answers, if answers(offered, t) then order + [t] else order, offered + [t])
  {
    assert (order + [t])[..|order|] == order && (offered + [t])[..|offered|] == offered;
  }

  /** Final, and without witness or MWEB data where those are switched off. */
  ghost predicate MayInclude(m: Mempool, segwit: bool, mweb: bool, t: TxId) {
    t in m.tx && m.tx[t].isFinal && (segwit || !m.tx[t].hasWitness) && (mweb || !m.tx[t].hasMweb)
  }

  ghost predicate Included(m: Mempool, order: seq<TxId>, inBlock: set<TxId>, segwit: bool, mweb: bool)
    requires m.IsDag()
  {
    && Ordered(m, order)
    && inBlock == Elements(order)
    && forall t :: t in inBlock ==> MayInclude(m, segwit, mweb, t)
  }

  lemma {:induction false} IncludedAppend(m: Mempool, order: seq<TxId>, inBlock: set<TxId>, segwit: bool, mweb: bool,
                                          t: TxId)
    requires m.IsDag() && Included(m, order, inBlock, segwit, mweb)
    requires MayInclude(m, segwit, mweb, t) && t !in inBlock && m.anc[t] <= inBlock
    ensures Included(m, order + [t], inBlock + {t}, segwit, mweb)
  {
    OrderedAppend(m, order, t);
  }

  /** The running totals are those of the included transactions plus the space reserved for the coinbase. */
  ghost predicate Counted(m: Mempool, inBlock: set<TxId>, weight: int, sigOps: int, mwebWeight: int, fees: int) {
    && weight == 4000 + Sum(m, Weight, inBlock)
    && sigOps == 400 + Sum(m, SigOps, inBlock)
    && mwebWeight == Sum(m, MwebWeight, inBlock)
    && fees == Sum(m, Fee, inBlock)
  }

  lemma {:induction false} CountedAppend(m: Mempool, inBlock: set<TxId>, weight: int, sigOps: int, mwebWeight: int,
                                         fees: int, t: TxId)
    requires t in m.tx && t !in inBlock && Counted(m, inBlock, weight, sigOps, mwebWeight, fees)
    ensures Counted(m, inBlock + {t}, weight + m.tx[t].weight, sigOps + m.tx[t].sigOps,
                    mwebWeight + m.tx[t].mwebWeight, fees + m.tx[t].fee)
  {
    SumInsert(m, Weight, inBlock, t);
    SumInsert(m, SigOps, inBlock, t);
    SumInsert(m, MwebWeight, inBlock, t);
    SumInsert(m, Fee, inBlock, t);
  }

  /** The template lists what was included, without the MWEB-only transactions, each with its fee and sigop cost. */
  ghost predicate Listed(m: Mempool, order: seq<TxId>, vtx: seq<TxId>, fees: seq<int>, sigOps: seq<int>) {
    && vtx == NonMwebOnly(m, order)
    && |vtx| == |fees| == |sigOps|
    && forall i :: 0 <= i < |vtx| ==> vtx[i] in m.tx && fees[i] == m.tx[vtx[i]].fee && sigOps[i] == m.tx[vtx[i]].sigOps
  }

  lemma {:induction false} ListedAppend(m: Mempool, order: seq<TxId>, vtx: seq<TxId>, fees: seq<int>, sigOps: seq<int>,
                                        t: TxId)
    requires t in m.tx && Listed(m, order, vtx, fees, sigOps)
    ensures m.tx[t].mwebOnly ==> Listed(m, order + [t], vtx, fees, sigOps)
    ensures !m.tx[t].mwebOnly ==> Listed(m, order + [t], vtx + [t], fees + [m.tx[t].fee], sigOps + [m.tx[t].sigOps])
  {
    assert (order + [t])[..|order|] == order;
  }

  /**
   What became of a candidate: fee too low, no room, barred by the transaction checks, added,
   refused by the MWEB miner.
   */
  datatype Verdict = Low | Full | Barred | Added | Refused

  datatype Rules = Rules(maxWeight: nat, segwit: bool, mweb: bool, answers: Answers)

  /** The package `p` may be put on top of a block holding `s`. */
  ghost predicate Fits(m: Mempool, maxWeight: nat, s: set<TxId>, p: set<TxId>) {
    && 4000 + Sum(m, Weight, s) + WITNESS_SCALE_FACTOR * Sum(m, Size, p) < maxWeight
    && 400 + Sum(m, SigOps, s) + Sum(m, SigOps, p) < MAX_BLOCK_SIGOPS_COST
    && Sum(m, MwebWeight, s) + Sum(m, MwebWeight, p) < MAX_MINE_WEIGHT
  }

  ghost predicate Clean(m: Mempool, r: Rules, p: set<TxId>, failed: set<TxId>) {
    (forall a :: a in p ==> MayInclude(m, r.segwit, r.mweb, a)) && p !! failed
  }

  /**
   The package of `t`, sorted, was to be added to the first `at` transactions of the block.  It went
   in up to the first of `rest`, which the MWEB miner refused when it was offered as number `offer`.
   */
  datatype Refusal = Refusal(t: TxId, at: nat, added: seq<TxId>, rest: seq<TxId>, offer: nat)

  /** A run that began with a block of `start` transactions: what was included, offered and refused. */
  datatype Run = Run(order: seq<TxId>, offered: seq<TxId>, refusals: seq<Refusal>, start: nat)

  /** What went in before a refusal, and so was never reported to the shadow index. */
  ghost function Unreported(refusals: seq<Refusal>): set<TxId> {
    if refusals == [] then {} else
    Unreported(refusals[..|refusals| - 1]) + Elements(refusals[|refusals| - 1].added)
  }

  lemma {:induction false} UnreportedNext(refusals: seq<Refusal>, x: Refusal)
    ensures Unreported(refusals + [x]) == Unreported(refusals) + Elements(x.added)
  {
    assert (refusals + [x])[..|refusals|] == refusals;
  }

  /** Of the first `n` transactions included, those that the shadow index knows of. */
  ghost function Reported(run: Run, n: nat): set<TxId>
    requires n <= |run.order|
  {
    Elements(run.order[..n]) - Unreported(run.refusals)
  }

  ghost predicate RefusedAt(m: Mempool, answers: Answers, offered: seq<TxId>, n: nat, t: TxId) {
    n < |offered| && offered[n] == t && t in m.tx && m.tx[t].hasMweb && !answers(offered[..n], t)
  }

  /**
   The refused package was the package of `x.t`, it had passed the two tests, and what is
   said to have gone in did.
   */
  ghost predicate RefusalOk(m: Mempool, r: Rules, run: Run, x: Refusal)
    requires m.IsDag()
  {
    && run.start <= x.at && x.at + |x.added| <= |run.order| && x.t in m.tx && x.t !in run.order[..x.at]
    && run.order[x.at..x.at + |x.added|] == x.added
    && SortedPackage(m, Elements(run.order[..x.at]), x.t, x.added + x.rest)
    && (forall a :: a in x.added + x.rest ==> MayInclude(m, r.segwit, r.mweb, a))
    && Fits(m, r.maxWeight, Elements(run.order[..x.at]), Package(m, Reported(run, x.at), x.t))
    && x.rest != [] && RefusedAt(m, r.answers, run.offered, x.offer, x.rest[0])
  }

  ghost predicate SortedPackage(m: Mempool, s: set<TxId>, t: TxId, sorted: seq<TxId>)
    requires m.IsDag() && t in m.tx
  {
    SortedByCount(m, sorted) && Elements(sorted) == Package(m, s, t)
  }

  ghost predicate RefusalsOk(m: Mempool, r: Rules, run: Run)
    requires m.IsDag()
  {
    forall x :: x in run.refusals ==> RefusalOk(m, r, run, x)
  }

  /** In the rest of a package of which the MWEB miner refused the first one not added. */
  ghost predicate InRest(refusals: seq<Refusal>, t: TxId) {
    exists x :: x in refusals && t in x.rest
  }

  /**
   At the moment the block held its first `n` transactions, the package of `t` held an ineligible
   transaction or a failed ancestor; or there was no room for `t` with the ancestors not
   reported to be in the block.
   */
  ghost predicate Reason(m: Mempool, r: Rules, t: TxId, n: nat, failed: set<TxId>, run: Run)
    requires m.IsDag() && t in m.tx && n <= |run.order|
  {
    var s := Elements(run.order[..n]);
    && t !in s
    && (!Clean(m, r, Package(m, s, t), failed - {t}) || !Fits(m, r.maxWeight, s, Package(m, Reported(run, n), t)))
  }

  /**
   A transaction was turned down for a reason, at a moment not before the start of the run, or it
   was in the rest of a refused package.
   */
  ghost predicate ReasonAt(m: Mempool, r: Rules, t: TxId, moments: map<TxId, nat>, failed: set<TxId>, run: Run)
    requires m.IsDag() && t in m.tx
  {
    || InRest(run.refusals, t)
    || (t in moments && run.start <= moments[t] <= |run.order| && Reason(m, r, t, moments[t], failed, run))
  }

  /**
   Of the walked and the failed transactions, whatever is neither included nor still in the index
   was turned down for a reason.
   */
  ghost predicate Explained(m: Mempool, r: Rules, walked: set<TxId>, modified: set<TxId>, failed: set<TxId>,
                            moments: map<TxId, nat>, run: Run)
    requires m.IsDag()
  {
    && run.start <= |run.order| && failed !! Elements(run.order) && RefusalsOk(m, r, run)
    && forall t {:trigger ReasonAt(m, r, t, moments, failed, run)} ::
         t in m.tx && t !in run.order && (t in failed || (t in walked && t !in modified)) ==>
           ReasonAt(m, r, t, moments, failed, run)
  }

  /** The package of `t` went in, and nothing else. */
  ghost predicate WentIn(m: Mempool, t: TxId, modified: set<TxId>, modified': set<TxId>, run: Run, run': Run)
    requires m.IsDag() && t in m.tx
  {
    var package := Package(m, Elements(run.order), t);
    && run.order <= run'.order && run.offered <= run'.offered && run'.start == run.start
    && run'.refusals == run.refusals
    && Elements(run'.order) == Elements(run.order) + package && modified - package <= modified'
  }

  /** The MWEB miner refused a transaction of the package of `t`: what comes before it went in, the rest failed. */
  ghost predicate WasRefused(m: Mempool, r: Rules, t: TxId, modified: set<TxId>, modified': set<TxId>,
                             failed: set<TxId>, failed': set<TxId>, run: Run, run': Run, x: Refusal)
    requires m.IsDag() && t in m.tx
  {
    && x.t == t && x.at == |run.order| && run'.refusals == run.refusals + [x] && RefusalOk(m, r, run', x)
    && run'.order == run.order + x.added && run.offered <= run'.offered && run'.start == run.start
    && modified' == modified - Package(m, Elements(run.order), t) && failed' == failed + Elements(x.rest)
  }

  /**
   What a verdict on the candidate `t` means and does: only an added candidate brings its package
   in, and what is turned down out of the index fails.
   */
  ghost predicate Judged(m: Mempool, r: Rules, t: TxId, verdict: Verdict, modified: set<TxId>, modified': set<TxId>,
                         failed: set<TxId>, failed': set<TxId>, run: Run, run': Run)
    requires m.IsDag() && t in m.tx
  {
    var inBlock := Elements(run.order);
    var package := Package(m, inBlock, t);
    match verdict
    case Low => run' == run && modified' == modified && failed' == failed
    case Full =>
      && run' == run && modified' == modified - {t} && failed' == failed + modified * {t}
      && (t !in failed ==> !Fits(m, r.maxWeight, inBlock, Package(m, Reported(run, |run.order|), t)))
    case Barred =>
      && run' == run && modified' == modified - {t} && failed' == failed + modified * {t}
      && !Clean(m, r, package, failed)
    case Added => WentIn(m, t, modified, modified', run, run') && failed' == failed && Clean(m, r, package, failed)
    case Refused =>
      && Clean(m, r, package, failed)
      && |run'.refusals| > 0
      && WasRefused(m, r, t, modified, modified', failed, failed', run, run', run'.refusals[|run'.refusals| - 1])
  }

  /**
   A round that judges the candidate `t`, from the index or from position `mi` of the walk, keeps
   everything explained.
   */
  lemma {:induction false} JudgedExplained(m: Mempool, r: Rules, t: TxId, verdict: Verdict, modified: set<TxId>,
                                           modified': set<TxId>, failed: set<TxId>, failed': set<TxId>,
                                           walk: seq<TxId>, mi: nat, mi': nat, moments: map<TxId, nat>,
                                           run: Run, run': Run)
      returns (moments': map<TxId, nat>)
    requires m.IsDag() && t in m.tx && t !in run.order && verdict != Low
    requires Judged(m, r, t, verdict, modified, modified', failed, failed', run, run')
    requires mi <= |walk| && ((mi' == mi && t in modified) || (mi < |walk| && mi' == mi + 1 && t == walk[mi]))
    requires Explained(m, r, Elements(walk[..mi]), modified, failed, moments, run)
    ensures Explained(m, r, Elements(walk[..mi']), modified', failed', moments', run')
  {
    var walked := Elements(walk[..mi]);
    ElementsSplit(walk, mi);
    moments' := moments;
    match verdict
    case Added =>
      PackageAdded(m, r, walked, modified, failed, moments, run, t, run', modified');
    case Refused =>
      PackageRefused(m, r, walked, modified, failed, moments, run, t, run', modified', failed',
                     run'.refusals[|run'.refusals| - 1]);
    case Full | Barred =>
      assert run.order[..|run.order|] == run.order && (t !in failed ==> failed - {t} == failed);
      moments' := TurnedDown(m, r, walked, modified, failed, moments, run, t, failed');
    FewerWalked(m, r, walked + {t}, Elements(walk[..mi']), modified', failed', moments', run');
  }

  /** The run has gone on; none of what it had included was called unreported since. */
  ghost predicate GoesOn(run: Run, run': Run) {
    && run.order <= run'.order && run.offered <= run'.offered && run.refusals <= run'.refusals
    && run'.start == run.start
    && Unreported(run'.refusals) * Elements(run.order) == Unreported(run.refusals) * Elements(run.order)
  }

  lemma {:induction false} SameMoment(run: Run, run': Run, n: nat)
    requires GoesOn(run, run') && n <= |run.order|
    ensures run'.order[..n] == run.order[..n] && Reported(run', n) == Reported(run, n)
  {
    var s := Elements(run.order[..n]);
    assert run'.order[..n] == run.order[..n];
    forall a | a in s
      ensures a in Unreported(run'.refusals) <==> a in Unreported(run.refusals)
    {
      assert a in Elements(run.order);
      assert a in Unreported(run'.refusals) * Elements(run.order) <==> a in Unreported(run'.refusals);
      assert a in Unreported(run.refusals) * Elements(run.order) <==> a in Unreported(run.refusals);
    }
  }

  lemma {:induction false} RefusalKept(m: Mempool, r: Rules, run: Run, run': Run, x: Refusal)
    requires m.IsDag() && GoesOn(run, run') && RefusalOk(m, r, run, x)
    ensures RefusalOk(m, r, run', x)
  {
    var end := x.at + |x.added|;
    SameMoment(run, run', x.at);
    assert run'.order[x.at..end] == run.order[x.at..end];
    assert run'.offered[..x.offer] == run.offered[..x.offer];
  }

  /** Reasons stay reasons while the run goes on. */
  lemma {:induction false} ReasonKept(m: Mempool, r: Rules, t: TxId, moments: map<TxId, nat>, failed: set<TxId>,
                                      failed': set<TxId>, run: Run, run': Run)
    requires m.IsDag() && t in m.tx && GoesOn(run, run') && failed <= failed'
    requires ReasonAt(m, r, t, moments, failed, run)
    ensures ReasonAt(m, r, t, moments, failed', run')
  {
    if InRest(run.refusals, t) {
      var x :| x in run.refusals && t in x.rest;
      assert x in run'.refusals;
    } else {
      SameMoment(run, run', moments[t]);
      MoreFailed(m, r, t, moments[t], failed, failed', run);
    }
  }

  lemma {:induction false} MoreFailed(m: Mempool, r: Rules, t: TxId, n: nat, failed: set<TxId>, failed': set<TxId>,
                                      run: Run)
    requires m.IsDag() && t in m.tx && n <= |run.order| && Reason(m, r, t, n, failed, run) && failed <= failed'
    ensures Reason(m, r, t, n, failed', run)
  {
    var p := Package(m, Elements(run.order[..n]), t);
    if Clean(m, r, p, failed' - {t}) {
      assert p !! failed - {t};
    }
  }

  /** What was explained stays explained while the run goes on. */
  lemma {:induction false} ExplainedOn(m: Mempool, r: Rules, walked: set<TxId>, modified: set<TxId>, failed: set<TxId>,
                                       moments: map<TxId, nat>, run: Run, walked': set<TxId>, modified': set<TxId>,
                                       failed': set<TxId>, run': Run)
    requires m.IsDag() && Explained(m, r, walked, modified, failed, moments, run) && GoesOn(run, run')
    requires failed <= failed' && failed' !! Elements(run'.order)
    requires forall x :: x in run'.refusals && x !in run.refusals ==> RefusalOk(m, r, run', x)
    requires forall u :: (u in failed' || (u in walked' && u !in modified')) && u !in run'.order ==>
               u in failed || (u in walked && u !in modified) || InRest(run'.refusals, u)
    ensures Explained(m, r, walked', modified', failed', moments, run')
  {
    forall x | x in run'.refusals
      ensures RefusalOk(m, r, run', x)
    {
      if x in run.refusals {
        RefusalKept(m, r, run, run', x);
      }
    }
    forall u | u in m.tx && u !in run'.order && (u in failed' || (u in walked' && u !in modified'))
      ensures ReasonAt(m, r, u, moments, failed', run')
    {
      if !InRest(run'.refusals, u) {
        assert u !in run.order;
        assert ReasonAt(m, r, u, moments, failed, run);
        ReasonKept(m, r, u, moments, failed, failed', run, run');
      }
    }
  }

  lemma {:induction false} FewerWalked(m: Mempool, r: Rules, walked: set<TxId>, fewer: set<TxId>, modified: set<TxId>,
                                       failed: set<TxId>, moments: map<TxId, nat>, run: Run)
    requires m.IsDag() && fewer <= walked && Explained(m, r, walked, modified, failed, moments, run)
    ensures Explained(m, r, fewer, modified, failed, moments, run)
  {
    forall t | t in m.tx && t !in run.order && (t in failed || (t in fewer && t !in modified))
      ensures ReasonAt(m, r, t, moments, failed, run)
    {
    }
  }

  /** A candidate is turned down. */
  lemma {:induction false} TurnedDown(m: Mempool, r: Rules, walked: set<TxId>, modified: set<TxId>, failed: set<TxId>,
                                      moments: map<TxId, nat>, run: Run, t: TxId, failed': set<TxId>)
      returns (moments': map<TxId, nat>)
    requires m.IsDag() && Explained(m, r, walked, modified, failed, moments, run)
    requires t in m.tx && t !in run.order && failed <= failed' <= failed + {t}
    requires t !in failed ==> Reason(m, r, t, |run.order|, failed, run)
    ensures Explained(m, r, walked + {t}, modified - {t}, failed', moments', run)
  {
    moments' := if t in failed then moments else moments[t := |run.order|];
    forall u | u in m.tx && u !in run.order && (u in failed' || (u in walked + {t} && u !in modified - {t}))
      ensures ReasonAt(m, r, u, moments', failed', run)
    {
      if u == t && t !in failed {
        MoreFailed(m, r, t, |run.order|, failed, failed', run);
      } else {
        assert ReasonAt(m, r, u, moments, failed, run);
        ReasonKept(m, r, u, moments, failed, failed', run, run);
      }
    }
  }

  /** A package is added. */
  lemma {:induction false} PackageAdded(m: Mempool, r: Rules, walked: set<TxId>, modified: set<TxId>,
                                        failed: set<TxId>, moments: map<TxId, nat>, run: Run, t: TxId, run': Run,
                                        modified': set<TxId>)
    requires m.IsDag() && t in m.tx && Explained(m, r, walked, modified, failed, moments, run)
    requires WentIn(m, t, modified, modified', run, run') && Clean(m, r, Package(m, Elements(run.order), t), failed)
    ensures Explained(m, r, walked + {t}, modified', failed, moments, run')
  {
    assert t in Elements(run'.order);
    ExplainedOn(m, r, walked, modified, failed, moments, run, walked + {t}, modified', failed, run');
  }

  /** A package is refused. */
  lemma {:induction false} PackageRefused(m: Mempool, r: Rules, walked: set<TxId>, modified: set<TxId>,
                                          failed: set<TxId>, moments: map<TxId, nat>, run: Run, t: TxId, run': Run,
                                          modified': set<TxId>, failed': set<TxId>, x: Refusal)
    requires m.IsDag() && t in m.tx && t !in run.order && Explained(m, r, walked, modified, failed, moments, run)
    requires Clean(m, r, Package(m, Elements(run.order), t), failed)
    requires WasRefused(m, r, t, modified, modified', failed, failed', run, run', x)
    ensures Explained(m, r, walked + {t}, modified', failed', moments, run')
  {
    var sorted, package := x.added + x.rest, Package(m, Elements(run.order), t);
    assert run'.order[..x.at] == run.order;
    RefusalGoesOn(m, r, run, run', x);
    RestApart(m, r, run, run', x);
    assert x in run'.refusals;
    forall u | u in package && u !in run'.order
      ensures InRest(run'.refusals, u)
    {
      assert u in sorted;
    }
    ExplainedOn(m, r, walked, modified, failed, moments, run, walked + {t}, modified', failed', run');
  }

  lemma {:induction false} RefusalGoesOn(m: Mempool, r: Rules, run: Run, run': Run, x: Refusal)
    requires m.IsDag() && RefusalOk(m, r, run', x) && run'.refusals == run.refusals + [x] && x.at == |run.order|
    requires run.order <= run'.order && run.offered <= run'.offered && run'.start == run.start
    ensures GoesOn(run, run')
  {
    UnreportedNext(run.refusals, x);
    assert run'.order[..x.at] == run.order;
    forall a | a in x.added
      ensures a !in run.order
    {
      assert a in Elements(x.added + x.rest);
    }
  }

  lemma {:induction false} SortedDistinct(m: Mempool, sorted: seq<TxId>)
    requires SortedByCount(m, sorted)
    ensures Distinct(sorted)
  {
    forall i, j | 0 <= i < j < |sorted|
      ensures sorted[i] != sorted[j]
    {
      assert SortsBefore(m, sorted[i], sorted[j]);
    }
  }

  /** What failed with the package is not in the block. */
  lemma {:induction false} RestApart(m: Mempool, r: Rules, run: Run, run': Run, x: Refusal)
    requires m.IsDag() && RefusalOk(m, r, run', x) && run'.order == run.order + x.added && x.at == |run.order|
    ensures Elements(x.rest) !! Elements(run'.order)
  {
    var sorted := x.added + x.rest;
    SortedDistinct(m, sorted);
    assert run'.order[..x.at] == run.order;
    forall a | a in x.rest
      ensures a !in run'.order
    {
      var j :| 0 <= j < |x.rest| && x.rest[j] == a;
      assert sorted[|x.added| + j] == a && a in Elements(sorted);
      assert forall i :: 0 <= i < |x.added| ==> x.added[i] == sorted[i] != a;
    }
  }

  /**
   Behind everything left out is an ineligible transaction, one that there was no room for at
   some moment of the run, or one in the rest of a refused package.
   */
  lemma {:induction false} LeftOutRoot(m: Mempool, r: Rules, failed: set<TxId>, moments: map<TxId, nat>, run: Run,
                                       t: TxId)
      returns (a: TxId)
    requires m.IsDag() && Explained(m, r, m.tx.Keys, {}, failed, moments, run)
    requires t in m.tx && t !in run.order
    ensures a in m.anc[t] + {t} && a in m.tx
    ensures !MayInclude(m, r.segwit, r.mweb, a) || NoRoomAt(m, r, moments, run, a) || InRest(run.refusals, a)
    decreases m.anc[t]
  {
    assert ReasonAt(m, r, t, moments, failed, run);
    if InRest(run.refusals, t) {
      return t;
    }
    var s := Elements(run.order[..moments[t]]);
    var p := Package(m, s, t);
    if !Fits(m, r.maxWeight, s, Package(m, Reported(run, moments[t]), t)) {
      a := t;
    } else if b :| b in p && !MayInclude(m, r.segwit, r.mweb, b) {
      a := b;
    } else {
      var f :| f in p && f in failed - {t};
      AncestorsTransitive(m, t, f);
      assert f !in m.anc[f];
      a := LeftOutRoot(m, r, failed, moments, run, f);
    }
  }

  /**
   When the block held the first `moments[a]` transactions there was no room for `a` with the ancestors
   that were not reported to be in it.
   */
  ghost predicate NoRoomAt(m: Mempool, r: Rules, moments: map<TxId, nat>, run: Run, a: TxId)
    requires m.IsDag() && a in m.tx
  {
    && a in moments && run.start <= moments[a] <= |run.order|
    && var s := Elements(run.order[..moments[a]]);
       a !in s && !Fits(m, r.maxWeight, s, Package(m, Reported(run, moments[a]), a))
  }

  /** The whole mempool would fit in one block. */
  ghost predicate AllFit(m: Mempool, maxWeight: nat) {
    && 4000 + WITNESS_SCALE_FACTOR * Sum(m, Size, m.tx.Keys) < maxWeight
    && 400 + Sum(m, SigOps, m.tx.Keys) < MAX_BLOCK_SIGOPS_COST
    && Sum(m, MwebWeight, m.tx.Keys) < MAX_MINE_WEIGHT
  }

  /** Then every package fits on top of every part of the mempool. */
  lemma {:induction false} PartsFit(m: Mempool, maxWeight: nat, s: set<TxId>, p: set<TxId>)
    requires m.Ok() && AllFit(m, maxWeight) && s <= m.tx.Keys && p <= m.tx.Keys && s !! p
    ensures Fits(m, maxWeight, s, p)
  {
    WeightBound(m, s);
    forall k | k in {Size, SigOps, MwebWeight}
      ensures Sum(m, k, s) + Sum(m, k, p) <= Sum(m, k, m.tx.Keys)
    {
      SumUnion(m, k, s, p);
      SumMonotone(m, k, s + p, m.tx.Keys);
    }
  }

  /** In the rest of a refused package, or with an ancestor that went in before a refusal. */
  ghost predicate HitByRefusal(m: Mempool, refusals: seq<Refusal>, a: TxId)
    requires m.IsDag() && a in m.tx
  {
    InRest(refusals, a) || m.anc[a] * Unreported(refusals) != {}
  }

  /** Something of `t` and its ancestors was hit by a refusal. */
  ghost predicate LostToRefusal(m: Mempool, refusals: seq<Refusal>, t: TxId)
    requires m.IsDag() && t in m.tx
  {
    exists a :: a in m.anc[t] + {t} && a in m.tx && HitByRefusal(m, refusals, a)
  }

  /**
   When everything is eligible and the block has room for everything, whatever is left out was lost
   to a refusal.
   */
  lemma {:induction false} NothingLeftOut(m: Mempool, r: Rules, failed: set<TxId>, moments: map<TxId, nat>, run: Run,
                                          t: TxId)
    requires m.Ok() && Elements(run.order) <= m.tx.Keys
    requires Explained(m, r, m.tx.Keys, {}, failed, moments, run)
    requires AllFit(m, r.maxWeight) && forall t :: t in m.tx ==> MayInclude(m, r.segwit, r.mweb, t)
    requires t in m.tx && t !in run.order
    ensures LostToRefusal(m, run.refusals, t)
  {
    var a := LeftOutRoot(m, r, failed, moments, run, t);
    if !HitByRefusal(m, run.refusals, a) {
      var s := Elements(run.order[..moments[a]]);
      assert Package(m, Reported(run, moments[a]), a) == Package(m, s, a);
      PartsFit(m, r.maxWeight, s, Package(m, s, a));
    }
  }

  /** The MWEB miner takes every transaction, whatever it was offered before. */
  ghost predicate AllTaken(m: Mempool, answers: Answers) {
    forall offered, t :: t in m.tx && m.tx[t].hasMweb ==> answers(offered, t)
  }

  /** Then nothing is refused, and nothing lost; so too when there is no MWEB transaction. */
  lemma {:induction false} NothingRefused(m: Mempool, r: Rules, run: Run)
    requires m.IsDag() && RefusalsOk(m, r, run) && AllTaken(m, r.answers)
    ensures run.refusals == [] && forall t :: t in m.tx ==> !LostToRefusal(m, run.refusals, t)
  {
    if run.refusals != [] {
      SomeRefused(m, r, run);
    }
  }

  lemma {:induction false} SomeRefused(m: Mempool, r: Rules, run: Run)
    requires m.IsDag() && RefusalsOk(m, r, run) && run.refusals != []
    ensures !AllTaken(m, r.answers)
  {
    assert RefusalOk(m, r, run, run.refusals[0]);
  }

  /** A candidate with its figures, the ancestors they leave out, and those whose fee deltas they have. */
  datatype Candidate = Candidate(t: TxId, figs: Figures, acc: set<TxId>, off: set<TxId>)

  /**
   What is recorded of a run: which ancestors each entry of the index leaves out, when things were
   turned down, what was refused, and what there has been no room for since the last package.
   */
  datatype Log = Log(notes: map<TxId, Note>, moments: map<TxId, nat>, refusals: seq<Refusal>,
                     full: map<TxId, Candidate>)

  /** Where the selection ended: how far the walk had got, what was in the index and what had failed. */
  datatype End = End(walked: set<TxId>, modified: map<TxId, Figures>, failed: set<TxId>, log: Log)

  /** No entry of the walk comes before an earlier one. */
  ghost predicate ScoreSorted(m: Mempool, better: Score, walk: seq<TxId>) {
    && Elements(walk) <= m.tx.Keys
    && forall i, j {:trigger NotBefore(m, better, walk, i, j)} :: 0 <= i < j < |walk| ==>
         NotBefore(m, better, walk, i, j)
  }

  ghost predicate NotBefore(m: Mempool, better: Score, walk: seq<TxId>, i: nat, j: nat)
    requires i < |walk| && j < |walk| && walk[i] in m.tx && walk[j] in m.tx
  {
    !better(m.tx[walk[j]].withAncestors, walk[j], m.tx[walk[i]].withAncestors, walk[i])
  }

  /** Every entry of a shadow index has a score, if every transaction of the mempool has a size or a fee. */
  lemma {:induction false} IndexScored(m: Mempool, modified: map<TxId, Figures>, notes: map<TxId, Note>,
                                       inBlock: set<TxId>, failedTx: set<TxId>, accounted: set<TxId>)
    requires m.IsDag() && Tracks(m, modified, notes, inBlock, failedTx, accounted)
    requires forall t :: t in m.tx ==> m.tx[t].size > 0 || m.tx[t].modFee > 0
    ensures forall u :: u in modified ==> HasScore(m, modified[u], u)
  {
    forall u | u in modified
      ensures HasScore(m, modified[u], u)
    {
      assert TrackedAt(m, modified, notes, failedTx, accounted, u);
      OwnSize(m, u, m.anc[u] + {u} - notes[u].acc);
    }
  }

  lemma {:induction false} OwnSize(m: Mempool, t: TxId, rest: set<TxId>)
    requires t in m.tx && t in rest
    ensures m.tx[t].size <= Sum(m, Size, rest)
  {
    SumRemove(m, Size, rest, t);
    SumMonotone(m, Size, {}, rest - {t});
  }

  /** With nothing included the shadow index is empty. */
  lemma {:induction false} EmptyIndex(m: Mempool, modified: map<TxId, Figures>, notes: map<TxId, Note>,
                                      failedTx: set<TxId>)
    requires m.IsDag() && Tracks(m, modified, notes, {}, failedTx, {})
    ensures modified == map[]
  {
    if u :| u in modified {
      EntryReported(m, modified, notes, {}, failedTx, {}, u);
    }
    assert modified.Keys == {};
  }

  lemma {:induction false} EntryReported(m: Mempool, modified: map<TxId, Figures>, notes: map<TxId, Note>,
                                         inBlock: set<TxId>, failedTx: set<TxId>, accounted: set<TxId>, u: TxId)
    requires m.IsDag() && Tracks(m, modified, notes, inBlock, failedTx, accounted) && u in modified
    ensures u in notes && notes[u].lead in accounted
  {
    assert TrackedAt(m, modified, notes, failedTx, accounted, u);
  }

  /** What goes in unreported changes nothing of what is reported. */
  lemma {:induction false} StillReported(s: set<TxId>, unreported: set<TxId>, added: set<TxId>)
    requires added !! s && unreported <= s
    ensures s + added - (unreported + added) == s - unreported && unreported + added <= s + added
  {
  }

  /** The record of a refusal, made from the sorted package. */
  lemma {:induction false} RefusalHolds(m: Mempool, r: Rules, run: Run, run': Run, x: Refusal, sorted: seq<TxId>)
    requires m.IsDag() && x.t in m.tx && x.t !in run.order && x.at == |run.order| && run.start <= x.at
    requires sorted == x.added + x.rest && SortedPackage(m, Elements(run.order), x.t, sorted) && x.rest != []
    requires run'.order == run.order + x.added && run'.refusals == run.refusals + [x] && run'.start == run.start
    requires forall a :: a in Elements(sorted) ==> MayInclude(m, r.segwit, r.mweb, a)
    requires Fits(m, r.maxWeight, Elements(run.order),
                  Package(m, Elements(run.order) - Unreported(run.refusals), x.t))
    requires RefusedAt(m, r.answers, run'.offered, x.offer, x.rest[0])
    ensures RefusalOk(m, r, run', x)
    ensures Unreported(run'.refusals) == Unreported(run.refusals) + Elements(x.added)
    ensures Elements(x.added) !! Elements(run.order)
  {
    assert run'.order[..x.at] == run.order && run'.order[x.at..x.at + |x.added|] == x.added;
    UnreportedNext(run.refusals, x);
    forall a | a in x.added
      ensures a !in run.order
    {
      assert a in Elements(sorted);
    }
    assert Reported(run', x.at) == Elements(run.order) - Unreported(run.refusals);
  }

  lemma {:induction false} OneMore(full: map<TxId, Candidate>, t: TxId, c: Candidate)
    requires t !in full
    ensures full[t := c].Keys == full.Keys + {t} && |full[t := c]| == |full| + 1
  {
    var more := full[t := c];
    assert more.Keys == full.Keys + {t};
    assert |more.Keys| == |full.Keys| + 1;
  }

  class BlockAssembler {
    const m: ExactMempool
    /** mapTx in `ancestor_score` order. */
    const scoreOrder: Walk
    const nBlockMaxWeight: nat
    const fIncludeWitness: bool
    const fIncludeMWEB: bool
    /** CompareTxMemPoolEntryByAncestorFee */
    const better: Score
    /** blockMinFeeRate.GetTotalFee */
    const minTotalFee: (int, int) -> int
    const mwebAnswers: Answers

    var nBlockWeight: int
    var nBlockSigOpsCost: int
    var nBlockMWEBWeight: int
    var nBlockTx: nat
    var nFees: int
    var inBlock: set<TxId>
    /** The transactions of the template after the coinbase, with their fees and sigop costs. */
    var vtx: seq<TxId>
    var vTxFees: seq<int>
    var vTxSigOpsCost: seq<int>

    /** What was offered to the MWEB miner. */
    var offered: seq<TxId>

    /** Everything included, MWEB-only transactions too, in the order of inclusion. */
    ghost var order: seq<TxId>

    ghost predicate Eligible(t: TxId) {
      MayInclude(m, fIncludeWitness, fIncludeMWEB, t)
    }

    ghost predicate Valid()
      reads this
    {
      && Elements(scoreOrder) == m.tx.Keys && 4000 <= nBlockMaxWeight
      && Booked()
      && Answered(m, mwebAnswers, order, offered)
    }

    /** The block, its totals and the template agree. */
    ghost predicate Booked()
      reads this
    {
      && Included(m, order, inBlock, fIncludeWitness, fIncludeMWEB)
      && Counted(m, inBlock, nBlockWeight, nBlockSigOpsCost, nBlockMWEBWeight, nFees)
      && nBlockTx == |vtx|
      && Listed(m, order, vtx, vTxFees, vTxSigOpsCost)
    }

    /** The block is within its limits; only the reserved coinbase space can touch the weight limit. */
    ghost predicate WithinLimits()
      reads this
    {
      && nBlockWeight <= nBlockMaxWeight
      && (order != [] ==> nBlockWeight < nBlockMaxWeight)
      && nBlockSigOpsCost < MAX_BLOCK_SIGOPS_COST
      && nBlockMWEBWeight < MAX_MINE_WEIGHT
    }

    /** Close enough to the weight limit for the selection to give up after many failures. */
    ghost predicate NearFull()
      reads this
    {
      nBlockWeight > nBlockMaxWeight - 4000
    }

    ghost function RulesOf(): Rules {
      Rules(nBlockMaxWeight, fIncludeWitness, fIncludeMWEB, mwebAnswers)
    }

    /** The run so far, from a block of `start` transactions. */
    ghost function Now(refusals: seq<Refusal>, start: nat): Run
      reads this
    {
      Run(order, offered, refusals, start)
    }

    /** An entry of the index, or the next one of the walk. */
    ghost predicate NextUp(c: Candidate, left: End) {
      || (c.t in left.modified && c.figs == left.modified[c.t])
      || exists i :: NextInWalk(c, left.walked, i)
    }

    ghost predicate NextInWalk(c: Candidate, walked: set<TxId>, i: nat) {
      && i < |scoreOrder| && walked == Elements(scoreOrder[..i]) && c.t == scoreOrder[i]
      && c.t in m.tx && c.figs == m.tx[c.t].withAncestors
    }

    /**
     A candidate whose figures fall short of the minimum fee.  They are those of the
     transaction with the ancestors not reported to be in the block, unless it had failed
     before; and where the scores order the entries, nothing in the index or still to be
     walked comes before it.
     */
    ghost predicate StopsAt(c: Candidate, left: End)
      reads this
    {
      && c.t in m.tx && c.t !in inBlock && c.figs.modFees < minTotalFee(c.figs.size, c.figs.mwebWeight)
      && NextUp(c, left) && RecordOk(m, c.t, c.figs, c.acc, c.off) && c.acc <= inBlock
      && (c.t !in left.failed ==> ExactRecord(m, c.t, c.figs, c.off, inBlock - Unreported(left.log.refusals)))
      && (InScoreOrder() ==> NoneBetter(c.t, c.figs, left.modified, left.walked))
    }

    ghost function EndAt(walked: nat, modified: map<TxId, Figures>, failed: set<TxId>, log: Log): End
      requires walked <= |scoreOrder|
    {
      End(Elements(scoreOrder[..walked]), modified, failed, log)
    }

    /** What was turned down or refused since the block had `start` transactions is explained. */
    ghost predicate Explains(left: End, start: nat)
      reads this
    {
      Explained(m, RulesOf(), left.walked, left.modified.Keys, left.failed, left.log.moments,
                Now(left.log.refusals, start))
    }

    /** The index tracks the block, but for what went in before a refusal. */
    ghost predicate IndexOk(left: End)
      reads this
    {
      Tracks(m, left.modified, left.log.notes, inBlock, left.failed, inBlock - Unreported(left.log.refusals))
    }

    /** The figures recorded for the candidate are too large for what is left of the block. */
    ghost predicate NoRoomNow(c: Candidate)
      reads this
    {
      && c.t in m.tx && c.t !in inBlock && RecordOk(m, c.t, c.figs, c.acc, c.off) && c.acc <= inBlock
      && !TestPackage(c.figs)
    }

    ghost predicate Crowded(full: map<TxId, Candidate>)
      reads this
    {
      forall t :: t in full ==> full[t].t == t && NoRoomNow(full[t])
    }

    /**
     The selection may end at `left`: the block is nearly full and has no room for more than a thousand
     candidates, or the best candidate is too cheap.
     */
    ghost predicate EndsEarly(left: End)
      reads this
    {
      || (NearFull() && |left.log.full| > MAX_CONSECUTIVE_FAILURES && Crowded(left.log.full))
      || exists c :: StopsAt(c, left)
    }

    /** What the shadow index knows to be in the block. */
    ghost function Known(refusals: seq<Refusal>): set<TxId>
      reads this
    {
      inBlock - Unreported(refusals)
    }

    /** The candidates counted as failures since the last package are out of the index. */
    ghost predicate Counts(mi: nat, modified: map<TxId, Figures>, failedTx: set<TxId>, n: nat,
                           full: map<TxId, Candidate>)
      requires mi <= |scoreOrder|
      reads this
    {
      |full| == n && Crowded(full) && forall t :: t in full ==> PassedOver(mi, modified, failedTx, t)
    }

    ghost predicate PassedOver(mi: nat, modified: map<TxId, Figures>, failedTx: set<TxId>, t: TxId)
      requires mi <= |scoreOrder|
    {
      t !in modified && (t in scoreOrder[..mi] || t in failedTx)
    }

    /** What holds whenever the selection looks for a candidate. */
    ghost predicate Keeps(mi: nat, modified: map<TxId, Figures>, failedTx: set<TxId>, n: nat, log: Log, start: nat)
      requires mi <= |scoreOrder|
      reads this
    {
      && Unreported(log.refusals) <= inBlock
      && Tracks(m, modified, log.notes, inBlock, failedTx, Known(log.refusals))
      && Explains(EndAt(mi, modified, failedTx, log), start)
      && Counts(mi, modified, failedTx, n, log.full)
    }

    /** Every transaction has a score, the scores order the entries, and the walk follows them. */
    ghost predicate InScoreOrder() {
      && (forall t :: t in m.tx ==> m.tx[t].size > 0 || m.tx[t].modFee > 0)
      && WeakOrder(m, better) && ScoreSorted(m, better, scoreOrder)
    }

    /** A transaction of the walk, with its ancestors, is below the minimum fee. */
    ghost predicate LowAt(mi: nat) {
      && mi < |scoreOrder| && scoreOrder[mi] in m.tx
      && var figs := m.tx[scoreOrder[mi]].withAncestors; figs.modFees < minTotalFee(figs.size, figs.mwebWeight)
    }

    /** The next candidate is the next transaction of the walk, which is too cheap. */
    ghost predicate StopsAtOnce(mi: nat, modified: map<TxId, Figures>, failedTx: set<TxId>)
      reads this
    {
      LowAt(mi) && modified.Keys == {} && !Stale(scoreOrder[mi], modified, failedTx)
    }

    ghost predicate NoneBetter(t: TxId, figs: Figures, modified: map<TxId, Figures>, walked: set<TxId>) {
      && (forall u :: u in modified ==> !better(modified[u], u, figs, t))
      && (forall u :: u in m.tx && u !in walked ==> !better(m.tx[u].withAncestors, u, figs, t))
    }

    constructor (m: ExactMempool, scoreOrder: Walk, better: Score, maxWeightOption: nat, fIncludeWitness: bool,
                 fIncludeMWEB: bool, minTotalFee: (int, int) -> int, mwebAnswers: Answers)
      requires Elements(scoreOrder) == m.tx.Keys
      ensures Valid() && WithinLimits() && order == [] && inBlock == {} && offered == []
      ensures 4000 <= nBlockMaxWeight <= MAX_BLOCK_WEIGHT - 4000
      ensures 4000 <= maxWeightOption <= MAX_BLOCK_WEIGHT - 4000 ==> nBlockMaxWeight == maxWeightOption
      ensures maxWeightOption < 4000 ==> nBlockMaxWeight == 4000
      ensures maxWeightOption > MAX_BLOCK_WEIGHT - 4000 ==> nBlockMaxWeight == MAX_BLOCK_WEIGHT - 4000
      ensures this.m == m && this.scoreOrder == scoreOrder && this.better == better && this.minTotalFee == minTotalFee
      ensures this.fIncludeWitness == fIncludeWitness && this.fIncludeMWEB == fIncludeMWEB
      ensures this.mwebAnswers == mwebAnswers
    {
      this.m, this.scoreOrder, this.better, this.minTotalFee := m, scoreOrder, better, minTotalFee;
      this.fIncludeWitness, this.fIncludeMWEB, this.mwebAnswers := fIncludeWitness, fIncludeMWEB, mwebAnswers;
      var capped := if maxWeightOption < MAX_BLOCK_WEIGHT - 4000 then maxWeightOption else MAX_BLOCK_WEIGHT - 4000;
      nBlockMaxWeight := if capped < 4000 then 4000 else capped;
      nBlockWeight, nBlockSigOpsCost, nBlockMWEBWeight, nBlockTx, nFees := 4000, 400, 0, 0, 0;
      inBlock, vtx, vTxFees, vTxSigOpsCost, offered, order := {}, [], [], [], [], [];
    }

    method OnlyUnconfirmed(testSet: set<TxId>) returns (r: set<TxId>)
      ensures r == testSet - inBlock
    {
      r := testSet;
      var todo := testSet;
      while todo != {}
        invariant todo <= r <= testSet
        invariant r == testSet - inBlock + todo * inBlock
      {
        var t :| t in todo;
        todo := todo - {t};
        if t in inBlock {
          r := r - {t};
        }
      }
    }

    predicate TestPackage(f: Figures)
      reads this
    {
      && nBlockWeight + WITNESS_SCALE_FACTOR * f.size < nBlockMaxWeight
      && nBlockSigOpsCost + f.sigOps < MAX_BLOCK_SIGOPS_COST
      && nBlockMWEBWeight + f.mwebWeight < MAX_MINE_WEIGHT
    }

    method TestPackageTransactions(package: set<TxId>, failedTxs: set<TxId>) returns (ok: bool)
      requires package <= m.tx.Keys
      ensures ok <==> (forall t :: t in package ==> Eligible(t)) && package !! failedTxs
    {
      var todo := package;
      while todo != {}
        invariant todo <= package
        invariant forall t :: t in package - todo ==> Eligible(t) && t !in failedTxs
      {
        var t :| t in todo;
        if !m.tx[t].isFinal || (!fIncludeWitness && m.tx[t].hasWitness) || (!fIncludeMWEB && m.tx[t].hasMweb)
        || t in failedTxs {
          return false;
        }
        todo := todo - {t};
      }
      return true;
    }

    /** The template part of AddToBlock: MWEB-only transactions are not listed. */
    method AppendToTemplate(t: TxId)
      requires t in m.tx && nBlockTx == |vtx| && Listed(m, order, vtx, vTxFees, vTxSigOpsCost)
      modifies this`vtx, this`vTxFees, this`vTxSigOpsCost, this`nBlockTx
      ensures nBlockTx == |vtx| && Listed(m, order + [t], vtx, vTxFees, vTxSigOpsCost)
    {
      ListedAppend(m, order, vtx, vTxFees, vTxSigOpsCost, t);
      if !m.tx[t].mwebOnly {
        vtx := vtx + [t];
        vTxFees := vTxFees + [m.tx[t].fee];
        vTxSigOpsCost := vTxSigOpsCost + [m.tx[t].sigOps];
        nBlockTx := nBlockTx + 1;
      }
    }

    /** A transaction with MWEB data is offered to the MWEB miner. */
    method Offer(t: TxId) returns (ok: bool)
      requires t in m.tx && Answered(m, mwebAnswers, order, offered)
      modifies this`offered
      ensures offered == old(offered) + if m.tx[t].hasMweb then [t] else []
      ensures ok <==> m.tx[t].hasMweb ==> mwebAnswers(old(offered), t)
      ensures Answered(m, mwebAnswers, if ok then order + [t] else order, offered)
    {
      AnsweredNext(m, mwebAnswers, order, offered, t);
      ok := true;
      if m.tx[t].hasMweb {
        ok := mwebAnswers(offered, t);
        offered := offered + [t];
      }
    }

    /** Adds one transaction, unless it has MWEB data and the MWEB miner refuses it; then nothing else changes. */
    method AddToBlock(t: TxId) returns (ok: bool)
      requires Valid() && Eligible(t) && t !in inBlock && m.anc[t] <= inBlock
      modifies this
      ensures Valid()
      ensures offered == old(offered) + if m.tx[t].hasMweb then [t] else []
      ensures ok <==> m.tx[t].hasMweb ==> mwebAnswers(old(offered), t)
      ensures !ok ==> unchanged(`nBlockWeight, `nBlockSigOpsCost, `nBlockMWEBWeight, `nBlockTx, `nFees, `inBlock, `vtx,
                                `vTxFees, `vTxSigOpsCost, `order)
      ensures ok ==> order == old(order) + [t] && inBlock == old(inBlock) + {t}
    {
      ok := Offer(t);
      if ok {
        Include(t);
      }
    }

    /** The rest of AddToBlock. */
    method Include(t: TxId)
      requires Booked() && Eligible(t) && t !in inBlock && m.anc[t] <= inBlock
      modifies this`nBlockWeight, this`nBlockSigOpsCost, this`nBlockMWEBWeight, this`nBlockTx, this`nFees,
               this`inBlock, this`vtx, this`vTxFees, this`vTxSigOpsCost, this`order
      ensures Booked() && order == old(order) + [t] && inBlock == old(inBlock) + {t}
    {
      IncludedAppend(m, order, inBlock, fIncludeWitness, fIncludeMWEB, t);
      CountedAppend(m, inBlock, nBlockWeight, nBlockSigOpsCost, nBlockMWEBWeight, nFees, t);
      AppendToTemplate(t);
      nBlockWeight := nBlockWeight + m.tx[t].weight;
      nBlockSigOpsCost := nBlockSigOpsCost + m.tx[t].sigOps;
      nBlockMWEBWeight := nBlockMWEBWeight + m.tx[t].mwebWeight;
      nFees := nFees + m.tx[t].fee;
      inBlock := inBlock + {t};
      order := order + [t];
    }

    /**
     Reports the transactions `alreadyAdded`, which are all in the block, to the
     shadow index.  Nothing else of the block may descend from them.
     */
    method UpdatePackagesForAdded(alreadyAdded: set<TxId>, modified0: map<TxId, Figures>,
                                  ghost notes0: map<TxId, Note>, ghost failedTx: set<TxId>, ghost accounted: set<TxId>)
        returns (modified: map<TxId, Figures>, ghost notes: map<TxId, Note>)
      requires inBlock <= m.tx.Keys && alreadyAdded <= inBlock && alreadyAdded !! accounted
      requires forall t :: t in inBlock - alreadyAdded ==> m.anc[t] !! alreadyAdded
      requires Tracks(m, modified0, notes0, inBlock, failedTx, accounted)
      ensures Tracks(m, modified, notes, inBlock, failedTx, accounted + alreadyAdded)
      ensures modified0.Keys <= modified.Keys
    {
      modified, notes := modified0, notes0;
      var todo := alreadyAdded;
      assert accounted + (alreadyAdded - todo) == accounted;
      while todo != {}
        invariant todo <= alreadyAdded
        invariant Tracks(m, modified, notes, inBlock, failedTx, accounted + (alreadyAdded - todo))
        invariant modified0.Keys <= modified.Keys
      {
        var it :| it in todo;
        var descendants := set d | d in m.tx && (d == it || it in m.anc[d]);
        modified, notes := UpdateDescendants(it, descendants, alreadyAdded, modified, notes, failedTx,
                                                 accounted + (alreadyAdded - todo));
        assert accounted + (alreadyAdded - todo) + {it} == accounted + (alreadyAdded - (todo - {it}));
        todo := todo - {it};
      }
      assert alreadyAdded - todo == alreadyAdded;
    }

    /** The inner loop: `it` is counted out of the entry of each of its descendants outside `alreadyAdded`. */
    method UpdateDescendants(it: TxId, descendants: set<TxId>, alreadyAdded: set<TxId>, modified0: map<TxId, Figures>,
                             ghost notes0: map<TxId, Note>, ghost failedTx: set<TxId>, ghost accounted: set<TxId>)
        returns (modified: map<TxId, Figures>, ghost notes: map<TxId, Note>)
      requires inBlock <= m.tx.Keys && alreadyAdded <= inBlock && it in alreadyAdded && it !in accounted
      requires forall t :: t in inBlock - alreadyAdded ==> m.anc[t] !! alreadyAdded
      requires descendants == set d | d in m.tx && (d == it || it in m.anc[d])
      requires Tracks(m, modified0, notes0, inBlock, failedTx, accounted)
      ensures Tracks(m, modified, notes, inBlock, failedTx, accounted + {it})
      ensures modified0.Keys <= modified.Keys
    {
      modified, notes := modified0, notes0;
      var todo := descendants;
      forall t | t in m.tx && t !in inBlock && t !in todo
        ensures TrackedAt(m, modified, notes, failedTx, accounted + {it}, t)
      {
        UnrelatedReport(m, modified, notes, failedTx, accounted, t, it);
      }
      while todo != {}
        invariant todo <= descendants
        invariant modified0.Keys <= modified.Keys <= m.tx.Keys - inBlock
        invariant forall t :: t in m.tx && t !in inBlock && t in todo ==>
                    TrackedAt(m, modified, notes, failedTx, accounted, t)
        invariant forall t :: t in m.tx && t !in inBlock && t !in todo ==>
                    TrackedAt(m, modified, notes, failedTx, accounted + {it}, t)
      {
        var desc :| desc in todo;
        todo := todo - {desc};
        if desc in alreadyAdded {
          continue;
        }
        ghost var before, noted := modified, notes;
        modified, notes := UpdateEntry(it, desc, modified, notes, failedTx, accounted);
        forall t | t in m.tx && t != desc
          ensures forall a :: TrackedAt(m, modified, notes, failedTx, a, t) <==>
                    TrackedAt(m, before, noted, failedTx, a, t)
        {
          forall a {
            SameRecord(m, before, noted, failedTx, a, t, desc, modified[desc], notes[desc]);
          }
        }
      }
    }

    /**
     One descendant: a first reduction of the cached figures, or update_for_parent_inclusion on the
     existing entry.
     */
    method UpdateEntry(it: TxId, desc: TxId, modified0: map<TxId, Figures>, ghost notes0: map<TxId, Note>,
                       ghost failedTx: set<TxId>, ghost accounted: set<TxId>)
        returns (modified: map<TxId, Figures>, ghost notes: map<TxId, Note>)
      requires desc in m.tx && it in m.anc[desc] && it !in accounted
      requires TrackedAt(m, modified0, notes0, failedTx, accounted, desc)
      ensures desc in modified && modified == modified0[desc := modified[desc]]
      ensures desc in notes
      ensures notes == notes0[desc := notes[desc]]
      ensures TrackedAt(m, modified, notes, failedTx, accounted + {it}, desc)
    {
      modified, notes := modified0, notes0;
      if desc !in modified {
        FirstReduction(m, desc, it);
        modified := modified[desc := ReduceFor(m.tx[desc].withAncestors, m.tx[it].size, m.tx[it].modFee,
                                               m.tx[it].sigOps, m.tx[it].mwebWeight)];
        notes := notes[desc := Note({it}, it)];
        assert desc !in failedTx ==> m.anc[desc] * (accounted + {it}) == {it};
      } else {
        NextReduction(m, desc, modified[desc], notes[desc], it);
        modified := modified[desc := ReduceFor(modified[desc], m.tx[it].size, m.tx[it].fee,
                                               m.tx[it].sigOps, m.tx[it].mwebWeight)];
        notes := notes[desc := notes[desc].(acc := notes[desc].acc + {it})];
        assert desc !in failedTx ==> m.anc[desc] * (accounted + {it}) == notes[desc].acc;
      }
    }

    method FirstByCount(s: set<TxId>) returns (first: TxId)
      requires s != {} && s <= m.tx.Keys
      ensures first in s && forall t :: t in s && t != first ==> SortsBefore(m, first, t)
    {
      first :| first in s;
      var todo := s - {first};
      while todo != {}
        invariant todo <= s - {first} && first in s
        invariant forall t :: t in s && t !in todo && t != first ==> SortsBefore(m, first, t)
      {
        var t :| t in todo;
        assert m.UniqueHash(first);
        assert SortsBefore(m, t, first) || SortsBefore(m, first, t);
        todo := todo - {t};
        if SortsBefore(m, t, first) {
          first := t;
        }
      }
    }

    method SortForBlock(package: set<TxId>) returns (sorted: seq<TxId>)
      requires package <= m.tx.Keys
      ensures Elements(sorted) == package && SortedByCount(m, sorted)
    {
      sorted := [];
      var todo := package;
      while todo != {}
        invariant todo <= package
        invariant SortedByCount(m, sorted)
        invariant Elements(sorted) == package - todo
        invariant forall i, t :: 0 <= i < |sorted| && t in todo ==> SortsBefore(m, sorted[i], t)
      {
        var first := FirstByCount(todo);
        ghost var before := sorted;
        sorted := sorted + [first];
        todo := todo - {first};
        assert Elements(sorted) == Elements(before) + {first};
      }
    }

    method MarkFailed(sorted: seq<TxId>, i: nat, modified0: map<TxId, Figures>, failedTx0: set<TxId>)
        returns (modified: map<TxId, Figures>, failedTx: set<TxId>)
      requires i <= |sorted|
      ensures failedTx == failedTx0 + Elements(sorted[i..])
      ensures modified == modified0 - Elements(sorted[i..])
    {
      modified, failedTx := modified0, failedTx0;
      for j := i to |sorted|
        invariant failedTx == failedTx0 + Elements(sorted[i..j])
        invariant modified == modified0 - Elements(sorted[i..j])
      {
        assert sorted[i..j + 1] == sorted[i..j] + [sorted[j]];
        failedTx := failedTx + {sorted[j]};
        modified := modified - {sorted[j]};
      }
      assert sorted[i..|sorted|] == sorted[i..];
    }

    /** Adds the `i`-th transaction of a sorted package to those before it. */
    method AddNext(sorted: seq<TxId>, i: nat, ghost order0: seq<TxId>, ghost inBlock0: set<TxId>)
        returns (ok: bool, ghost offer: nat)
      requires Valid() && i < |sorted| && Ready(m, inBlock0, sorted, i) && Eligible(sorted[i])
      requires order == order0 + sorted[..i] && inBlock == inBlock0 + Elements(sorted[..i])
      modifies this
      ensures Valid() && old(offered) <= offered
      ensures ok ==> order == order0 + sorted[..i + 1] && inBlock == inBlock0 + Elements(sorted[..i + 1])
      ensures !ok ==>
                order == old(order) && inBlock == old(inBlock) && RefusedAt(m, mwebAnswers, offered, offer, sorted[i])
    {
      TakeOneMore(order0, sorted, i, map[]);
      offer := |offered|;
      ok := AddToBlock(sorted[i]);
    }

    /**
     Adds a sorted package.  If the MWEB miner refuses the `k`-th transaction, those
     before it stay in the block and the rest is recorded as failed.  Either way the
     whole package leaves the shadow index.
     */
    method AddSorted(sorted: seq<TxId>, modified0: map<TxId, Figures>, failedTx0: set<TxId>)
        returns (failed: bool, modified: map<TxId, Figures>, failedTx: set<TxId>, ghost k: nat, ghost offer: nat)
      requires Valid()
      requires forall i {:trigger Ready(m, inBlock, sorted, i)} :: 0 <= i < |sorted| ==>
                 Ready(m, inBlock, sorted, i) && Eligible(sorted[i])
      modifies this
      ensures Valid()
      ensures modified == modified0 - Elements(sorted)
      ensures k <= |sorted| && order == old(order) + sorted[..k] && inBlock == old(inBlock) + Elements(sorted[..k])
      ensures old(offered) <= offered
      ensures if failed
              then k < |sorted| && failedTx == failedTx0 + Elements(sorted[k..])
                   && RefusedAt(m, mwebAnswers, offered, offer, sorted[k])
              else k == |sorted| && failedTx == failedTx0
    {
      modified, failedTx, failed := modified0, failedTx0, false;
      var i := 0;
      offer := 0;
      while i < |sorted|
        invariant i <= |sorted| && !failed
        invariant Valid()
        invariant modified == modified0 - Elements(sorted[..i])
        invariant order == old(order) + sorted[..i] && inBlock == old(inBlock) + Elements(sorted[..i])
        invariant old(offered) <= offered
      {
        TakeOneMore(old(order), sorted, i, modified0);
        var ok;
        ok, offer := AddNext(sorted, i, old(order), old(inBlock));
        if !ok {
          failed := true;
          break;
        }
        modified := modified - {sorted[i]};
        i := i + 1;
      }
      k := i;
      if failed {
        modified, failedTx := MarkFailed(sorted, i, modified, failedTx);
        DropBoth(sorted, i, modified0);
      } else {
        assert sorted[..i] == sorted;
      }
    }

    /**
     The figures a package is judged by.  They never understate what is still to
     be added; for a transaction that has not failed they are those of itself and the
     ancestors not reported to be in the block, the fee if and only if the fee deltas of
     the reported ancestors `off` cancel out.
     */
    method FiguresFor(t: TxId, fUsingModified: bool, modified: map<TxId, Figures>, ghost notes: map<TxId, Note>,
                      ghost failedTx: set<TxId>, ghost accounted: set<TxId>)
        returns (figs: Figures, ghost acc: set<TxId>, ghost off: set<TxId>)
      requires t in m.tx && t !in inBlock
      requires fUsingModified <==> t in modified
      requires !fUsingModified ==> t !in failedTx
      requires Tracks(m, modified, notes, inBlock, failedTx, accounted)
      ensures figs == if fUsingModified then modified[t] else m.tx[t].withAncestors
      ensures RecordOk(m, t, figs, acc, off) && acc <= inBlock
      ensures Covers(m, figs, Package(m, inBlock, t))
      ensures t !in failedTx ==> ExactRecord(m, t, figs, off, accounted)
    {
      assert TrackedAt(m, modified, notes, failedTx, accounted, t);
      figs, acc, off := m.tx[t].withAncestors, {}, {};
      if fUsingModified {
        figs := modified[t];
        acc, off := notes[t].acc, notes[t].acc - {notes[t].lead};
      } else {
        assert m.Cached(t);
        assert m.anc[t] + {t} - acc == m.anc[t] + {t};
      }
      FiguresBoundPackage(m, t, figs, acc, off, inBlock);
      if t !in failedTx {
        assert acc == m.anc[t] * accounted;
        FiguresBoundPackage(m, t, figs, acc, off, accounted);
      }
    }

    /** The transaction-level checks: on failure a package taken from the index is dropped and recorded as failed. */
    method CheckPackage(t: TxId, fUsingModified: bool, modified0: map<TxId, Figures>, failedTx0: set<TxId>,
                        ghost notes: map<TxId, Note>, ghost accounted: set<TxId>)
        returns (passed: bool, package: set<TxId>, modified: map<TxId, Figures>, failedTx: set<TxId>)
      requires t in m.tx && t !in inBlock && (fUsingModified <==> t in modified0)
      requires Tracks(m, modified0, notes, inBlock, failedTx0, accounted)
      ensures package == Package(m, inBlock, t)
      ensures passed <==> Clean(m, RulesOf(), package, failedTx0)
      ensures passed ==> modified == modified0 && failedTx == failedTx0
      ensures !passed ==> modified == modified0 - {t} && failedTx == failedTx0 + modified0.Keys * {t}
      ensures Tracks(m, modified, notes, inBlock, failedTx, accounted)
    {
      modified, failedTx := modified0, failedTx0;
      package := OnlyUnconfirmed(m.anc[t]);
      package := package + {t};
      passed := TestPackageTransactions(package, failedTx);
      if !passed {
        modified, failedTx := TurnDown(t, fUsingModified, modified, failedTx, notes, accounted);
      }
    }

    /** A candidate taken from the index leaves it and is recorded as failed; one from the walk is passed over. */
    method TurnDown(t: TxId, fUsingModified: bool, modified0: map<TxId, Figures>, failedTx0: set<TxId>,
                    ghost notes: map<TxId, Note>, ghost accounted: set<TxId>)
        returns (modified: map<TxId, Figures>, failedTx: set<TxId>)
      requires t in m.tx && t !in inBlock && (fUsingModified <==> t in modified0)
      requires Tracks(m, modified0, notes, inBlock, failedTx0, accounted)
      ensures modified == modified0 - {t} && failedTx == failedTx0 + modified0.Keys * {t}
      ensures Tracks(m, modified, notes, inBlock, failedTx, accounted)
    {
      modified, failedTx := modified0, failedTx0;
      if fUsingModified {
        TracksDrop(m, modified, notes, inBlock, failedTx, accounted, {t}, inBlock, failedTx + {t});
        modified := modified - {t};
        failedTx := failedTx + {t};
        assert modified0.Keys * {t} == {t};
      } else {
        assert modified0.Keys * {t} == {} && modified0 - {t} == modified0;
      }
    }

    /**
     Adds a package that passed the size test and the transaction checks.  The block
     stays within its limits and the index keeps tracking it, also when the MWEB
     miner refuses a transaction in the middle.
     */
    method AddPackage(t: TxId, package: set<TxId>, modified0: map<TxId, Figures>, failedTx0: set<TxId>,
                      ghost notes0: map<TxId, Note>, ghost refusals0: seq<Refusal>, ghost start: nat,
                      ghost figs: Figures)
        returns (failed: bool, modified: map<TxId, Figures>, failedTx: set<TxId>,
                 ghost notes: map<TxId, Note>, ghost refusals: seq<Refusal>)
      requires Valid() && WithinLimits() && t in m.tx && t !in inBlock && start <= |order|
      requires package == Package(m, inBlock, t) && forall a :: a in package ==> Eligible(a)
      requires Unreported(refusals0) <= inBlock
      requires Tracks(m, modified0, notes0, inBlock, failedTx0, Known(refusals0))
      requires TestPackage(figs) && Covers(m, figs, package)
      requires Fits(m, nBlockMaxWeight, inBlock, Package(m, Known(refusals0), t))
      modifies this
      ensures Valid() && WithinLimits() && old(order) <= order && old(inBlock) <= inBlock
      ensures Unreported(refusals) <= inBlock
      ensures Tracks(m, modified, notes, inBlock, failedTx, Known(refusals))
      ensures !failed ==>
                failedTx == failedTx0
                && WentIn(m, t, modified0.Keys, modified.Keys, old(Now(refusals0, start)), Now(refusals, start))
      ensures failed ==>
                refusals != []
                && WasRefused(m, RulesOf(), t, modified0.Keys, modified.Keys, failedTx0, failedTx,
                              old(Now(refusals0, start)), Now(refusals, start), refusals[|refusals| - 1])
      ensures inBlock == old(inBlock) ==> modified == modified0 - package
    {
      var sorted := SortForBlock(package);
      ghost var k, offer;
      failed, modified, failedTx, k, offer := AddInOrder(t, package, sorted, modified0, failedTx0, figs);
      TracksDrop(m, modified0, notes0, old(inBlock), failedTx0, old(Known(refusals0)), package, inBlock, failedTx);
      notes, refusals := notes0, refusals0;
      if failed {
        refusals := Recorded(t, sorted, k, offer, modified0.Keys, failedTx0, old(Now(refusals0, start)));
      } else {
        OrderedIsClosed(m, old(order));
        modified, notes := UpdatePackagesForAdded(package, modified, notes, failedTx, old(Known(refusals0)));
        KnownGrows(old(inBlock), package, refusals);
      }
    }

    /** The sorted package is put in, all of it or up to a refusal; the limits hold for any part. */
    method AddInOrder(t: TxId, package: set<TxId>, sorted: seq<TxId>, modified0: map<TxId, Figures>,
                      failedTx0: set<TxId>, ghost figs: Figures)
        returns (failed: bool, modified: map<TxId, Figures>, failedTx: set<TxId>, ghost k: nat, ghost offer: nat)
      requires Valid() && WithinLimits() && t in m.tx && t !in inBlock
      requires package == Package(m, inBlock, t) && forall a :: a in package ==> Eligible(a)
      requires SortedPackage(m, inBlock, t, sorted) && TestPackage(figs) && Covers(m, figs, package)
      modifies this
      ensures Valid() && WithinLimits() && modified == modified0 - package
      ensures k <= |sorted| && order == old(order) + sorted[..k] && inBlock == old(inBlock) + Elements(sorted[..k])
      ensures old(inBlock) <= inBlock <= old(inBlock) + package && old(offered) <= offered
      ensures package <= inBlock + failedTx && failedTx0 <= failedTx
      ensures if failed
              then k < |sorted| && failedTx == failedTx0 + Elements(sorted[k..])
                   && RefusedAt(m, mwebAnswers, offered, offer, sorted[k])
              else k == |sorted| && inBlock == old(inBlock) + package && failedTx == failedTx0
    {
      forall i: nat | i < |sorted|
        ensures Ready(m, inBlock, sorted, i)
      {
        SortedPackageFollows(m, inBlock, t, sorted, i);
      }
      failed, modified, failedTx, k, offer := AddSorted(sorted, modified0, failedTx0);
      ElementsSplit(sorted, k);
      PartFits(m, figs, package, Elements(sorted[..k]), old(inBlock));
    }

    /** A refusal at the `k`-th transaction of the sorted package is recorded; the index knows no more than before. */
    lemma {:induction false} Recorded(t: TxId, sorted: seq<TxId>, k: nat, offer: nat, modified: set<TxId>,
                                      failed: set<TxId>, run: Run)
        returns (refusals: seq<Refusal>)
      requires inBlock == Elements(order) && t in m.tx && t !in run.order && run.start <= |run.order| && k < |sorted|
      requires order == run.order + sorted[..k] && run.offered <= offered
      requires SortedPackage(m, Elements(run.order), t, sorted) && forall a :: a in Elements(sorted) ==> Eligible(a)
      requires Unreported(run.refusals) <= Elements(run.order)
      requires Fits(m, nBlockMaxWeight, Elements(run.order),
                    Package(m, Elements(run.order) - Unreported(run.refusals), t))
      requires RefusedAt(m, mwebAnswers, offered, offer, sorted[k])
      ensures refusals != []
              && WasRefused(m, RulesOf(), t, modified, modified - Elements(sorted), failed,
                            failed + Elements(sorted[k..]), run, Now(refusals, run.start), refusals[|refusals| - 1])
      ensures Known(refusals) == Elements(run.order) - Unreported(run.refusals) && Unreported(refusals) <= inBlock
    {
      var x := Refusal(t, |run.order|, sorted[..k], sorted[k..], offer);
      refusals := run.refusals + [x];
      assert sorted == x.added + x.rest;
      RefusalHolds(m, RulesOf(), run, Now(refusals, run.start), x, sorted);
      ElementsAppend(run.order, x.added);
      StillReported(Elements(run.order), Unreported(run.refusals), Elements(x.added));
    }

    lemma {:induction false} KnownGrows(before: set<TxId>, package: set<TxId>, refusals: seq<Refusal>)
      requires inBlock == before + package && package !! before && Unreported(refusals) <= before
      ensures Known(refusals) == before - Unreported(refusals) + package
    {
    }

    /**
     One candidate of the selection loop, judged by the figures recorded for it; `stop`
     ends the loop.  The verdict says which test turned the candidate down, or that its
     whole package went in, or that the MWEB miner refused one of it.
     */
    method Consider(t: TxId, fUsingModified: bool, modified0: map<TxId, Figures>, failedTx0: set<TxId>,
                    nConsecutiveFailed0: nat, ghost notes0: map<TxId, Note>, ghost refusals0: seq<Refusal>,
                    ghost start: nat)
        returns (stop: bool, modified: map<TxId, Figures>, failedTx: set<TxId>, nConsecutiveFailed: nat,
                 ghost verdict: Verdict, ghost notes: map<TxId, Note>, ghost refusals: seq<Refusal>,
                 ghost acc: set<TxId>, ghost off: set<TxId>)
      requires Valid() && WithinLimits() && t in m.tx && t !in inBlock && start <= |order|
      requires Unreported(refusals0) <= inBlock
      requires Tracks(m, modified0, notes0, inBlock, failedTx0, Known(refusals0))
      requires fUsingModified <==> t in modified0
      requires !fUsingModified ==> t !in failedTx0
      modifies this
      ensures Valid() && WithinLimits() && old(order) <= order && old(inBlock) <= inBlock
      ensures Unreported(refusals) <= inBlock
      ensures Tracks(m, modified, notes, inBlock, failedTx, Known(refusals))
      ensures verdict in {Low, Full, Barred} ==> unchanged(this) && refusals == refusals0
      ensures inBlock == old(inBlock) && !stop ==> modified.Keys <= modified0.Keys - {t}
      ensures var figs := if fUsingModified then modified0[t] else m.tx[t].withAncestors;
              && (verdict == Low <==> figs.modFees < minTotalFee(figs.size, figs.mwebWeight))
              && (verdict == Full ==> !old(TestPackage(figs)))
              && (verdict in {Barred, Added, Refused} ==> old(TestPackage(figs)))
              && RecordOk(m, t, figs, acc, off) && acc <= old(inBlock)
              && (t !in failedTx0 ==> ExactRecord(m, t, figs, off, old(Known(refusals0))))
      ensures verdict in {Low, Full, Barred} ==> modified == if verdict == Low then modified0 else modified0 - {t}
      ensures Judged(m, RulesOf(), t, verdict, modified0.Keys, modified.Keys, failedTx0, failedTx,
                     old(Now(refusals0, start)), Now(refusals, start))
      ensures nConsecutiveFailed == match verdict
                case Full => nConsecutiveFailed0 + 1
                case Low | Barred => nConsecutiveFailed0
                case Added | Refused => 0
      ensures stop <==>
                verdict == Low || (verdict == Full && nConsecutiveFailed > MAX_CONSECUTIVE_FAILURES && NearFull())
    {
      stop, verdict := false, Low;
      modified, failedTx, notes, refusals := modified0, failedTx0, notes0, refusals0;
      nConsecutiveFailed := nConsecutiveFailed0;
      var figs;
      figs, acc, off := FiguresFor(t, fUsingModified, modified, notes, failedTx, Known(refusals));
      KnownNow(refusals, start);
      if figs.modFees < minTotalFee(figs.size, figs.mwebWeight) {
        stop := true;
        return;
      }
      if !TestPackage(figs) {
        modified, failedTx := TurnDown(t, fUsingModified, modified, failedTx, notes, Known(refusals));
        nConsecutiveFailed := nConsecutiveFailed + 1;
        stop := nConsecutiveFailed > MAX_CONSECUTIVE_FAILURES && nBlockWeight > nBlockMaxWeight - 4000;
        verdict := Full;
        return;
      }
      var passed;
      passed, modified, failedTx, verdict, notes, refusals :=
        Admit(t, fUsingModified, modified, failedTx, notes, refusals, start, figs);
      if passed {
        nConsecutiveFailed := 0;
      }
    }

    lemma {:induction false} KnownNow(refusals: seq<Refusal>, start: nat)
      requires Valid()
      ensures Reported(Now(refusals, start), |order|) == Known(refusals)
    {
      assert order[..|order|] == order;
    }

    /** The second half of the loop body, for a candidate that is dear enough and fits. */
    method Admit(t: TxId, fUsingModified: bool, modified0: map<TxId, Figures>, failedTx0: set<TxId>,
                 ghost notes0: map<TxId, Note>, ghost refusals0: seq<Refusal>, ghost start: nat, ghost figs: Figures)
        returns (passed: bool, modified: map<TxId, Figures>, failedTx: set<TxId>,
                 ghost verdict: Verdict, ghost notes: map<TxId, Note>, ghost refusals: seq<Refusal>)
      requires Valid() && WithinLimits() && t in m.tx && t !in inBlock && (fUsingModified <==> t in modified0)
      requires start <= |order| && Unreported(refusals0) <= inBlock
      requires Tracks(m, modified0, notes0, inBlock, failedTx0, Known(refusals0))
      requires TestPackage(figs) && Covers(m, figs, Package(m, inBlock, t))
      requires t !in failedTx0 ==> Fits(m, nBlockMaxWeight, inBlock, Package(m, Known(refusals0), t))
      modifies this
      ensures Valid() && WithinLimits() && old(order) <= order && old(inBlock) <= inBlock
      ensures Unreported(refusals) <= inBlock
      ensures Tracks(m, modified, notes, inBlock, failedTx, Known(refusals))
      ensures verdict in {Barred, Added, Refused} && (passed <==> verdict != Barred)
      ensures verdict == Barred ==> unchanged(this) && modified == modified0 - {t} && refusals == refusals0
      ensures inBlock == old(inBlock) ==> modified.Keys <= modified0.Keys - {t}
      ensures Judged(m, RulesOf(), t, verdict, modified0.Keys, modified.Keys, failedTx0, failedTx,
                     old(Now(refusals0, start)), Now(refusals, start))
    {
      var package;
      passed, package, modified, failedTx :=
        CheckPackage(t, fUsingModified, modified0, failedTx0, notes0, Known(refusals0));
      verdict, notes, refusals := Barred, notes0, refusals0;
      if passed {
        var failed;
        failed, modified, failedTx, notes, refusals :=
          AddPackage(t, package, modified, failedTx, notes, refusals, start, figs);
        verdict := if failed then Refused else Added;
      }
    }

    /** The first entry of the shadow index. */
    method FirstEntry(modified: map<TxId, Figures>) returns (t: TxId)
      requires modified.Keys != {}
      ensures t in modified
      ensures Comparable(modified) ==> forall u :: u in modified ==> !better(modified[u], u, modified[t], t)
    {
      t :| t in modified.Keys;
      var todo := modified.Keys - {t};
      assert Comparable(modified) ==> HasScore(m, modified[t], t) && Asymmetric(better, modified[t], t, modified[t], t);
      while todo != {}
        invariant t in modified && todo <= modified.Keys
        invariant Comparable(modified) ==>
                    forall u :: u in modified && u !in todo ==> !better(modified[u], u, modified[t], t)
      {
        var u :| u in todo;
        todo := todo - {u};
        if better(modified[u], u, modified[t], t) {
          if Comparable(modified) {
            FirstMoves(modified, todo, t, u);
          }
          t := u;
        }
      }
    }

    /** The scores order the entries of the index. */
    ghost predicate Comparable(modified: map<TxId, Figures>) {
      WeakOrder(m, better) && forall u :: u in modified ==> HasScore(m, modified[u], u)
    }

    lemma {:induction false} FirstMoves(modified: map<TxId, Figures>, todo: set<TxId>, t: TxId, u: TxId)
      requires Comparable(modified) && t in modified && u in modified && better(modified[u], u, modified[t], t)
      requires forall v :: v in modified && v !in todo + {u} ==> !better(modified[v], v, modified[t], t)
      ensures forall v :: v in modified && v !in todo ==> !better(modified[v], v, modified[u], u)
    {
      forall v | v in modified && v !in todo
        ensures !better(modified[v], v, modified[u], u)
      {
        assert HasScore(m, modified[v], v) && HasScore(m, modified[t], t) && HasScore(m, modified[u], u);
        assert Ranks(better, modified[v], v, modified[t], t, modified[u], u);
        assert Asymmetric(better, modified[u], u, modified[t], t)
               && Asymmetric(better, modified[u], u, modified[u], u);
      }
    }

    /** The candidate: the next entry of the walk, or the first of the shadow index if it has the better score. */
    method Choose(mi0: nat, modified: map<TxId, Figures>, ghost notes: map<TxId, Note>, ghost failedTx: set<TxId>,
                  ghost accounted: set<TxId>)
        returns (t: TxId, fUsingModified: bool, mi: nat)
      requires Valid() && mi0 <= |scoreOrder| && (mi0 < |scoreOrder| || modified.Keys != {})
      requires mi0 < |scoreOrder| ==> scoreOrder[mi0] !in modified
      requires Tracks(m, modified, notes, inBlock, failedTx, accounted)
      ensures fUsingModified <==> t in modified
      ensures fUsingModified ==> mi == mi0
      ensures !fUsingModified ==> mi0 < |scoreOrder| && t == scoreOrder[mi0] && mi == mi0 + 1
      ensures t in m.tx || t in modified
      ensures InScoreOrder() ==>
                NoneBetter(t, if t in modified then modified[t] else m.tx[t].withAncestors, modified,
                           Elements(scoreOrder[..mi0]))
    {
      mi := mi0;
      if InScoreOrder() {
        IndexScored(m, modified, notes, inBlock, failedTx, accounted);
      }
      if mi == |scoreOrder| {
        t := FirstEntry(modified);
        fUsingModified := true;
        ElementsSplit(scoreOrder, mi);
      } else {
        t := scoreOrder[mi];
        fUsingModified := false;
        ghost var first := t;
        if modified.Keys != {} {
          var entry := FirstEntry(modified);
          first := entry;
          if better(modified[entry], entry, m.tx[t].withAncestors, t) {
            t, fUsingModified := entry, true;
          }
        }
        if InScoreOrder() {
          ChoiceIsFirst(mi0, modified, first, t);
        }
        if !fUsingModified {
          mi := mi + 1;
        }
      }
    }

    /** The better one of the next entry `w` of the walk and the first entry of the index comes before all others. */
    lemma {:induction false} ChoiceIsFirst(mi: nat, modified: map<TxId, Figures>, first: TxId, t: TxId)
      requires Valid() && InScoreOrder() && Comparable(modified) && mi < |scoreOrder| && scoreOrder[mi] !in modified
      requires modified.Keys != {} ==>
                 first in modified && forall u :: u in modified ==> !better(modified[u], u, modified[first], first)
      requires var w := scoreOrder[mi];
               t == if modified.Keys != {} && better(modified[first], first, m.tx[w].withAncestors, w) then first else w
      ensures NoneBetter(t, if t in modified then modified[t] else m.tx[t].withAncestors, modified,
                         Elements(scoreOrder[..mi]))
    {
      var w := scoreOrder[mi];
      CachedScored(w);
      assert Asymmetric(better, m.tx[w].withAncestors, w, m.tx[w].withAncestors, w);
      if t == w {
        WalkFirst(mi, modified, first);
        RestOfWalk(mi, w, m.tx[w].withAncestors);
      } else {
        assert HasScore(m, modified[first], first);
        assert Asymmetric(better, modified[first], first, m.tx[w].withAncestors, w);
        RestOfWalk(mi, first, modified[first]);
      }
    }

    lemma {:induction false} CachedScored(t: TxId)
      requires t in m.tx && (m.tx[t].size > 0 || m.tx[t].modFee > 0)
      ensures HasScore(m, m.tx[t].withAncestors, t)
    {
      assert m.Cached(t);
      OwnSize(m, t, m.anc[t] + {t});
    }

    /** What does not come after the next entry of the walk does not come after the rest of it. */
    lemma {:induction false} RestOfWalk(mi: nat, t: TxId, figs: Figures)
      requires Valid() && InScoreOrder() && mi < |scoreOrder| && HasScore(m, figs, t)
      requires var w := scoreOrder[mi]; w in m.tx && !better(m.tx[w].withAncestors, w, figs, t)
      ensures forall u :: u in m.tx && u !in Elements(scoreOrder[..mi]) ==> !better(m.tx[u].withAncestors, u, figs, t)
    {
      var w := scoreOrder[mi];
      ElementsSplit(scoreOrder, mi);
      assert Elements(scoreOrder[..mi]) + Elements(scoreOrder[mi..]) == m.tx.Keys;
      forall u | u in m.tx && u !in Elements(scoreOrder[..mi])
        ensures !better(m.tx[u].withAncestors, u, figs, t)
      {
        var j :| 0 <= j < |scoreOrder[mi..]| && scoreOrder[mi..][j] == u;
        assert scoreOrder[mi + j] == u && (0 < j ==> NotBefore(m, better, scoreOrder, mi, mi + j));
        CachedScored(u);
        CachedScored(w);
        assert Ranks(better, m.tx[u].withAncestors, u, m.tx[w].withAncestors, w, figs, t);
      }
    }

    lemma {:induction false} WalkFirst(mi: nat, modified: map<TxId, Figures>, first: TxId)
      requires mi < |scoreOrder| && scoreOrder[mi] in m.tx && Comparable(modified)
      requires HasScore(m, m.tx[scoreOrder[mi]].withAncestors, scoreOrder[mi])
      requires modified.Keys != {} ==>
                 first in modified && forall u :: u in modified ==> !better(modified[u], u, modified[first], first)
      requires var w := scoreOrder[mi]; modified.Keys != {} ==>
                 !better(modified[first], first, m.tx[w].withAncestors, w)
      ensures var w := scoreOrder[mi]; forall u :: u in modified ==> !better(modified[u], u, m.tx[w].withAncestors, w)
    {
      var w := scoreOrder[mi];
      forall u | u in modified
        ensures !better(modified[u], u, m.tx[w].withAncestors, w)
      {
        assert HasScore(m, modified[u], u) && HasScore(m, modified[first], first);
        assert Ranks(better, modified[u], u, modified[first], first, m.tx[w].withAncestors, w);
      }
    }

    /**
     Package selection, for every score and all answers of the MWEB miner.  At the end
     the block is ancestor-closed, in topological order and within its limits; what was in
     it before stays in front.  Whatever was turned down had no room, or an ineligible or
     failed transaction in its package, at a moment of the run, or was in the rest of a
     package that the MWEB miner refused; without an early stop that is everything left
     out.  The selection stops early only at a candidate that is too cheap and that, where
     the scores order the entries, none of the others precedes, or when the block is nearly
     full and there was no room for more than a thousand candidates.  It stops at once when
     the first transaction of the walk is too cheap for an empty block.
     */
    method AddPackageTxs() returns (ghost stopped: bool, ghost left: End)
      requires Valid() && WithinLimits()
      modifies this
      ensures Valid() && WithinLimits()
      ensures old(order) <= order && old(offered) <= offered
      ensures AncestorClosed(m, inBlock)
      ensures IndexOk(left) && Explains(left, |old(order)|)
      ensures AllTaken(m, mwebAnswers) ==> left.log.refusals == []
      ensures !stopped ==> left.walked == m.tx.Keys && left.modified == map[] && LosesOnlyRefused(left.log.refusals)
      ensures stopped ==> EndsEarly(left)
      ensures old(inBlock) == {} && LowAt(0) ==> stopped && order == []
    {
      ghost var notes;
      var modified;
      modified, notes := FirstIndex();
      stopped, left := SelectPackages(modified, notes);
      OrderedIsClosed(m, order);
      RefusedOnly(left, |old(order)|);
    }

    /** The shadow index for what is in the block at the start. */
    method FirstIndex() returns (modified: map<TxId, Figures>, ghost notes: map<TxId, Note>)
      requires Valid()
      ensures Tracks(m, modified, notes, inBlock, {}, inBlock)
      ensures inBlock == {} ==> modified == map[] && order == []
    {
      OrderedIsClosed(m, order);
      modified, notes := UpdatePackagesForAdded(inBlock, map[], map[], {}, {});
      assert {} + inBlock == inBlock;
      if order != [] {
        SomeElement(order);
      }
      if inBlock == {} {
        EmptyIndex(m, modified, notes, {});
      }
    }

    /**
     If everything is eligible and the block has room for everything, whatever is left out was lost
     to a refusal, and nothing is if the MWEB miner takes everything.
     */
    ghost predicate LosesOnlyRefused(refusals: seq<Refusal>)
      reads this
    {
      AllFit(m, nBlockMaxWeight) && (forall t :: t in m.tx ==> Eligible(t)) ==>
        && (forall t :: t in m.tx && t !in inBlock ==> LostToRefusal(m, refusals, t))
        && (AllTaken(m, mwebAnswers) ==> inBlock == m.tx.Keys)
    }

    lemma {:induction false} RefusedOnly(left: End, start: nat)
      requires Valid() && Explains(left, start)
      ensures AllTaken(m, mwebAnswers) ==> left.log.refusals == []
      ensures left.walked == m.tx.Keys && left.modified == map[] ==> LosesOnlyRefused(left.log.refusals)
    {
      var run := Now(left.log.refusals, start);
      if AllTaken(m, mwebAnswers) {
        NothingRefused(m, RulesOf(), run);
      }
      if left.walked == m.tx.Keys && left.modified == map[] && AllFit(m, nBlockMaxWeight)
      && forall t :: t in m.tx ==> Eligible(t) {
        forall t | t in m.tx && t !in inBlock
          ensures LostToRefusal(m, left.log.refusals, t)
        {
          NothingLeftOut(m, RulesOf(), left.failed, left.log.moments, run, t);
        }
      }
    }

    /** SkipMapTxEntry */
    predicate Stale(t: TxId, modified: map<TxId, Figures>, failedTx: set<TxId>)
      reads this
    {
      t in modified || t in inBlock || t in failedTx
    }

    /**
     One round of the loop: skip a stale entry of the walk, or consider a candidate.
     A round that does not stop the loop includes a transaction, or consumes an entry
     of the walk or of the shadow index; what it turns down is explained.
     */
    method Round(mi0: nat, modified0: map<TxId, Figures>, failedTx0: set<TxId>, nConsecutiveFailed0: nat,
                 ghost log0: Log, ghost start: nat)
        returns (stop: bool, mi: nat, modified: map<TxId, Figures>, failedTx: set<TxId>, nConsecutiveFailed: nat,
                 ghost log: Log, ghost walked: nat)
      requires Valid() && WithinLimits()
      requires mi0 <= |scoreOrder| && (mi0 < |scoreOrder| || modified0.Keys != {})
      requires Keeps(mi0, modified0, failedTx0, nConsecutiveFailed0, log0, start)
      modifies this
      ensures Valid() && WithinLimits()
      ensures old(order) <= order && old(offered) <= offered && old(inBlock) <= inBlock
      ensures walked <= mi <= |scoreOrder| && (!stop ==> walked == mi)
      ensures Keeps(walked, modified, failedTx, nConsecutiveFailed, log, start)
      ensures stop ==> EndsEarly(EndAt(walked, modified, failedTx, log))
      ensures inBlock == old(inBlock) || m.tx.Keys - inBlock < m.tx.Keys - old(inBlock)
      ensures inBlock == old(inBlock) && !stop ==> mi0 < mi || (mi0 == mi && modified.Keys < modified0.Keys)
      ensures old(StopsAtOnce(mi0, modified0, failedTx0)) ==> stop && order == old(order)
    {
      stop, mi, log := false, mi0, log0;
      modified, failedTx, nConsecutiveFailed := modified0, failedTx0, nConsecutiveFailed0;
      if mi < |scoreOrder| && Stale(scoreOrder[mi], modified, failedTx) {
        SkipKeeps(mi, modified, failedTx, nConsecutiveFailed, log, start);
        mi := mi + 1;
        walked := mi;
        return;
      }
      stop, mi, modified, failedTx, nConsecutiveFailed, log, walked :=
        Attempt(mi, modified, failedTx, nConsecutiveFailed, log, start);
      LeavesFewer(m.tx.Keys, old(inBlock), inBlock);
    }

    /** Passing over an entry of the walk that is in the block, in the index or failed. */
    lemma {:induction false} SkipKeeps(mi: nat, modified: map<TxId, Figures>, failedTx: set<TxId>, n: nat, log: Log,
                                       start: nat)
      requires Valid() && mi < |scoreOrder| && Keeps(mi, modified, failedTx, n, log, start)
      requires Stale(scoreOrder[mi], modified, failedTx)
      ensures Keeps(mi + 1, modified, failedTx, n, log, start)
    {
      var walked, run := Elements(scoreOrder[..mi]), Now(log.refusals, start);
      ElementsSplit(scoreOrder, mi);
      ExplainedOn(m, RulesOf(), walked, modified.Keys, failedTx, log.moments, run, walked + {scoreOrder[mi]},
                  modified.Keys, failedTx, run);
      SkipCounts(mi, modified, failedTx, n, log.full);
    }

    lemma {:induction false} SkipCounts(mi: nat, modified: map<TxId, Figures>, failedTx: set<TxId>, n: nat,
                                        full: map<TxId, Candidate>)
      requires mi < |scoreOrder| && Counts(mi, modified, failedTx, n, full)
      ensures Counts(mi + 1, modified, failedTx, n, full)
    {
      ElementsSplit(scoreOrder, mi);
      forall u | u in full
        ensures PassedOver(mi + 1, modified, failedTx, u)
      {
        assert PassedOver(mi, modified, failedTx, u);
      }
    }

    /** A round with a candidate. */
    method Attempt(mi0: nat, modified0: map<TxId, Figures>, failedTx0: set<TxId>, nConsecutiveFailed0: nat,
                   ghost log0: Log, ghost start: nat)
        returns (stop: bool, mi: nat, modified: map<TxId, Figures>, failedTx: set<TxId>, nConsecutiveFailed: nat,
                 ghost log: Log, ghost walked: nat)
      requires Valid() && WithinLimits()
      requires mi0 <= |scoreOrder| && (mi0 < |scoreOrder| || modified0.Keys != {})
      requires mi0 < |scoreOrder| ==> !Stale(scoreOrder[mi0], modified0, failedTx0)
      requires Keeps(mi0, modified0, failedTx0, nConsecutiveFailed0, log0, start)
      modifies this
      ensures Valid() && WithinLimits()
      ensures old(order) <= order && old(offered) <= offered && old(inBlock) <= inBlock
      ensures walked <= mi <= |scoreOrder| && (!stop ==> walked == mi)
      ensures Keeps(walked, modified, failedTx, nConsecutiveFailed, log, start)
      ensures stop ==> EndsEarly(EndAt(walked, modified, failedTx, log))
      ensures inBlock == old(inBlock) && !stop ==> mi0 < mi || (mi0 == mi && modified.Keys < modified0.Keys)
      ensures old(StopsAtOnce(mi0, modified0, failedTx0)) ==> stop && order == old(order)
    {
      var t, fUsingModified;
      t, fUsingModified, mi := Choose(mi0, modified0, log0.notes, failedTx0, Known(log0.refusals));
      assert t !in inBlock;  // the assertion of the source
      ghost var figs := if fUsingModified then modified0[t] else m.tx[t].withAncestors;
      ghost var acc, off;
      stop, modified, failedTx, nConsecutiveFailed, log, walked, acc, off :=
        Judge(t, fUsingModified, mi0, mi, modified0, failedTx0, nConsecutiveFailed0, log0, start);
      if figs.modFees < minTotalFee(figs.size, figs.mwebWeight) {
        StopsHere(Candidate(t, figs, acc, off), mi0, modified, failedTx, log);
      }
    }

    lemma {:induction false} StopsHere(c: Candidate, mi: nat, modified: map<TxId, Figures>, failedTx: set<TxId>,
                                       log: Log)
      requires mi <= |scoreOrder| && c.t in m.tx && c.t !in inBlock
      requires if c.t in modified then c.figs == modified[c.t]
               else mi < |scoreOrder| && c.t == scoreOrder[mi] && c.figs == m.tx[c.t].withAncestors
      requires c.figs.modFees < minTotalFee(c.figs.size, c.figs.mwebWeight)
      requires RecordOk(m, c.t, c.figs, c.acc, c.off) && c.acc <= inBlock
      requires c.t !in failedTx ==> ExactRecord(m, c.t, c.figs, c.off, Known(log.refusals))
      requires InScoreOrder() ==> NoneBetter(c.t, c.figs, modified, Elements(scoreOrder[..mi]))
      ensures EndsEarly(EndAt(mi, modified, failedTx, log))
    {
      if c.t !in modified {
        assert NextInWalk(c, Elements(scoreOrder[..mi]), mi);
      }
      assert StopsAt(c, EndAt(mi, modified, failedTx, log));
    }

    /** Consider a candidate, and note why it was turned down if it was. */
    method Judge(t: TxId, fUsingModified: bool, ghost mi0: nat, ghost mi: nat, modified0: map<TxId, Figures>,
                 failedTx0: set<TxId>, nConsecutiveFailed0: nat, ghost log0: Log, ghost start: nat)
        returns (stop: bool, modified: map<TxId, Figures>, failedTx: set<TxId>, nConsecutiveFailed: nat,
                 ghost log: Log, ghost walked: nat, ghost acc: set<TxId>, ghost off: set<TxId>)
      requires Valid() && WithinLimits() && t in m.tx && t !in inBlock && mi0 <= |scoreOrder|
      requires (fUsingModified <==> t in modified0) && (!fUsingModified ==> t !in failedTx0)
      requires if fUsingModified then mi == mi0 else mi0 < |scoreOrder| && t == scoreOrder[mi0] && mi == mi0 + 1
      requires Keeps(mi0, modified0, failedTx0, nConsecutiveFailed0, log0, start)
      modifies this
      ensures Valid() && WithinLimits()
      ensures old(order) <= order && old(offered) <= offered && old(inBlock) <= inBlock
      ensures walked <= |scoreOrder| && Keeps(walked, modified, failedTx, nConsecutiveFailed, log, start)
      ensures inBlock == old(inBlock) && !stop ==> modified.Keys <= modified0.Keys - {t}
      ensures var figs := if fUsingModified then modified0[t] else m.tx[t].withAncestors;
              if figs.modFees < minTotalFee(figs.size, figs.mwebWeight) then
                && stop && order == old(order) && inBlock == old(inBlock) && walked == mi0
                && modified == modified0 && failedTx == failedTx0
                && RecordOk(m, t, figs, acc, off) && acc <= inBlock
                && (t !in failedTx ==> ExactRecord(m, t, figs, off, Known(log.refusals)))
              else walked == mi && (stop ==> NearFull() && nConsecutiveFailed > MAX_CONSECUTIVE_FAILURES)
    {
      ghost var figs := if fUsingModified then modified0[t] else m.tx[t].withAncestors;
      ghost var verdict, notes, refusals;
      assert start <= |order|;
      stop, modified, failedTx, nConsecutiveFailed, verdict, notes, refusals, acc, off :=
        Consider(t, fUsingModified, modified0, failedTx0, nConsecutiveFailed0, log0.notes, log0.refusals, start);
      walked, log := mi0, log0.(notes := notes);
      if verdict != Low {
        walked := mi;
        log := JudgedKeeps(Candidate(t, figs, acc, off), verdict, fUsingModified, mi0, mi, modified0, modified,
                           failedTx0, failedTx, nConsecutiveFailed0, nConsecutiveFailed, log0, notes, refusals, start,
                           old(Now(log0.refusals, start)));
      }
    }

    /** The state after a candidate was judged, from the state `run0` before. */
    lemma {:induction false} JudgedKeeps(c: Candidate, verdict: Verdict, fUsingModified: bool, mi0: nat, mi: nat,
                                         modified0: map<TxId, Figures>, modified: map<TxId, Figures>,
                                         failedTx0: set<TxId>, failedTx: set<TxId>, n0: nat, n: nat, log0: Log,
                                         notes: map<TxId, Note>, refusals: seq<Refusal>, start: nat, run0: Run)
        returns (log: Log)
      requires Valid() && verdict != Low && mi0 <= |scoreOrder| && c.t in m.tx && c.t !in run0.order
      requires (fUsingModified <==> c.t in modified0) && (!fUsingModified ==> c.t !in failedTx0)
      requires if fUsingModified then mi == mi0 else mi0 < |scoreOrder| && c.t == scoreOrder[mi0] && mi == mi0 + 1
      requires Explained(m, RulesOf(), Elements(scoreOrder[..mi0]), modified0.Keys, failedTx0, log0.moments, run0)
      requires Judged(m, RulesOf(), c.t, verdict, modified0.Keys, modified.Keys, failedTx0, failedTx, run0,
                      Now(refusals, start))
      requires Unreported(refusals) <= inBlock && Tracks(m, modified, notes, inBlock, failedTx, Known(refusals))
      requires verdict in {Full, Barred} ==>
                 modified == modified0 - {c.t} && Counts(mi0, modified0, failedTx0, n0, log0.full)
      requires verdict == Full ==> NoRoomNow(c) && n == n0 + 1
      requires verdict == Barred ==> n == n0
      requires verdict in {Added, Refused} ==> n == 0
      ensures log.refusals == refusals && Keeps(mi, modified, failedTx, n, log, start)
    {
      var moments :=
        JudgedExplained(m, RulesOf(), c.t, verdict, modified0.Keys, modified.Keys, failedTx0, failedTx, scoreOrder, mi0,
                        mi, log0.moments, run0, Now(refusals, start));
      var full := map[];
      if verdict == Full {
        full := log0.full[c.t := c];
        FullCounts(c, mi0, mi, modified0, failedTx0, failedTx, n0, log0.full);
      } else if verdict == Barred {
        full := log0.full;
        BarredCounts(c.t, mi0, mi, modified0, failedTx0, failedTx, n0, full);
      }
      log := Log(notes, moments, refusals, full);
    }

    /** A candidate is turned down; what was passed over before still is. */
    lemma {:induction false} StillPassed(mi0: nat, mi: nat, modified0: map<TxId, Figures>, failedTx0: set<TxId>,
                                         failedTx: set<TxId>, t: TxId, u: TxId)
      requires mi0 <= mi <= |scoreOrder| && failedTx0 <= failedTx && PassedOver(mi0, modified0, failedTx0, u)
      ensures PassedOver(mi, modified0 - {t}, failedTx, u)
    {
      if u in scoreOrder[..mi0] {
        var i :| 0 <= i < mi0 && scoreOrder[..mi0][i] == u;
        assert scoreOrder[..mi][i] == u;
      }
    }

    lemma {:induction false} BarredCounts(t: TxId, mi0: nat, mi: nat, modified0: map<TxId, Figures>,
                                          failedTx0: set<TxId>, failedTx: set<TxId>, n: nat,
                                          full: map<TxId, Candidate>)
      requires mi0 <= mi <= |scoreOrder| && Counts(mi0, modified0, failedTx0, n, full) && failedTx0 <= failedTx
      ensures Counts(mi, modified0 - {t}, failedTx, n, full)
    {
      forall u | u in full
        ensures PassedOver(mi, modified0 - {t}, failedTx, u)
      {
        StillPassed(mi0, mi, modified0, failedTx0, failedTx, t, u);
      }
    }

    /** There is no room for a candidate, which was not counted before. */
    lemma {:induction false} FullCounts(c: Candidate, mi0: nat, mi: nat, modified0: map<TxId, Figures>,
                                        failedTx0: set<TxId>, failedTx: set<TxId>, n: nat, full: map<TxId, Candidate>)
      requires mi0 <= mi <= |scoreOrder| && Counts(mi0, modified0, failedTx0, n, full) && failedTx0 <= failedTx
      requires c.t in modified0 || (mi0 < mi && c.t == scoreOrder[mi0] && c.t !in failedTx0)
      requires c.t in modified0 ==> c.t in failedTx
      requires NoRoomNow(c)
      ensures Counts(mi, modified0 - {c.t}, failedTx, n + 1, full[c.t := c])
    {
      NotCounted(c.t, mi0, modified0, failedTx0, n, full);
      OneMore(full, c.t, c);
      BarredCounts(c.t, mi0, mi, modified0, failedTx0, failedTx, n, full);
      assert PassedOver(mi, modified0 - {c.t}, failedTx, c.t) by {
        if c.t !in modified0 {
          assert scoreOrder[..mi][mi0] == c.t;
        }
      }
      CrowdedMore(full, c);
    }

    lemma {:induction false} CrowdedMore(full: map<TxId, Candidate>, c: Candidate)
      requires Crowded(full) && NoRoomNow(c)
      ensures Crowded(full[c.t := c])
    {
    }

    lemma {:induction false} NotCounted(t: TxId, mi: nat, modified: map<TxId, Figures>, failedTx: set<TxId>, n: nat,
                                        full: map<TxId, Candidate>)
      requires mi <= |scoreOrder| && Counts(mi, modified, failedTx, n, full)
      requires t in modified || (mi < |scoreOrder| && t == scoreOrder[mi] && t !in failedTx)
      ensures t !in full
    {
      if t !in modified {
        DistinctNext(scoreOrder, mi);
      }
      assert t in full ==> PassedOver(mi, modified, failedTx, t);
    }

    lemma {:induction false} WalkDone(left: End)
      requires Valid() && left.walked == Elements(scoreOrder[..|scoreOrder|]) && left.modified.Keys == {}
      ensures left.walked == m.tx.Keys && left.modified == map[]
    {
      assert scoreOrder[..|scoreOrder|] == scoreOrder;
    }

    /** The selection, from the shadow index for what is in the block at the start. */
    method SelectPackages(modified0: map<TxId, Figures>, ghost notes0: map<TxId, Note>)
        returns (stopped: bool, ghost left: End)
      requires Valid() && WithinLimits()
      requires Tracks(m, modified0, notes0, inBlock, {}, inBlock)
      modifies this
      ensures Valid() && WithinLimits() && old(order) <= order && old(offered) <= offered
      ensures IndexOk(left) && Explains(left, |old(order)|)
      ensures !stopped ==> left.walked == m.tx.Keys && left.modified == map[]
      ensures stopped ==> EndsEarly(left)
      ensures old(StopsAtOnce(0, modified0, {})) ==> stopped && order == old(order)
    {
      var modified, failedTx, n;
      ghost var log := Log(notes0, map[], [], map[]);
      ghost var walked;
      FirstKeeps(modified0, log);
      stopped, modified, failedTx, n, log, walked := Rounds(modified0, log, |order|);
      left := EndAt(walked, modified, failedTx, log);
      AtEnd(walked, modified, failedTx, n, log, |old(order)|);
      if !stopped {
        WalkDone(left);
      }
    }

    /** The loop: rounds until the walk and the index are used up, or a round stops it. */
    method Rounds(modified0: map<TxId, Figures>, ghost log0: Log, ghost start: nat)
        returns (stopped: bool, modified: map<TxId, Figures>, failedTx: set<TxId>, nConsecutiveFailed: nat,
                 ghost log: Log, ghost walked: nat)
      requires Valid() && WithinLimits() && Keeps(0, modified0, {}, 0, log0, start)
      modifies this
      ensures Valid() && WithinLimits() && old(order) <= order && old(offered) <= offered
      ensures walked <= |scoreOrder| && Keeps(walked, modified, failedTx, nConsecutiveFailed, log, start)
      ensures if stopped then EndsEarly(EndAt(walked, modified, failedTx, log))
              else walked == |scoreOrder| && modified.Keys == {}
      ensures old(StopsAtOnce(0, modified0, {})) ==> stopped && order == old(order)
    {
      modified, failedTx, nConsecutiveFailed := modified0, {}, 0;
      var mi: nat := 0;
      log, walked, stopped := log0, 0, false;
      ghost var atOnce := StopsAtOnce(0, modified0, {});
      while !stopped && (mi < |scoreOrder| || modified.Keys != {})
        invariant walked <= mi <= |scoreOrder| && (!stopped ==> walked == mi)
        invariant Valid() && WithinLimits() && old(order) <= order && old(offered) <= offered
        invariant Keeps(walked, modified, failedTx, nConsecutiveFailed, log, start)
        invariant stopped ==> EndsEarly(EndAt(walked, modified, failedTx, log))
        invariant atOnce ==> order == old(order) && (stopped || StopsAtOnce(mi, modified, failedTx))
        decreases !stopped, m.tx.Keys - inBlock, |scoreOrder| - mi, modified.Keys
      {
        stopped, mi, modified, failedTx, nConsecutiveFailed, log, walked :=
          Round(mi, modified, failedTx, nConsecutiveFailed, log, start);
      }
    }

    lemma {:induction false} AtEnd(mi: nat, modified: map<TxId, Figures>, failedTx: set<TxId>, n: nat, log: Log,
                                   start: nat)
      requires mi <= |scoreOrder| && Keeps(mi, modified, failedTx, n, log, start)
      ensures var left := EndAt(mi, modified, failedTx, log); IndexOk(left) && Explains(left, start)
    {
    }

    lemma {:induction false} FirstKeeps(modified: map<TxId, Figures>, log: Log)
      requires Valid() && Tracks(m, modified, log.notes, inBlock, {}, inBlock)
      requires log.refusals == [] && log.full == map[]
      ensures Keeps(0, modified, {}, 0, log, |order|)
    {
      assert Known(log.refusals) == inBlock;
    }
  }
}
