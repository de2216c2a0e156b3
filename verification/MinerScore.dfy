/**
 The order in which packages are considered (CompareTxMemPoolEntryByAncestorFee,
 src/txmempool.h) and the minimum they have to pay (CFeeRate, src/policy/feerate.cpp):
 where the comparator orders the entries, and what a candidate below the minimum says
 about the entries that come after it.
 */
module MinerScore {
  import opened Miner
  import opened Numbers

  /** A transaction with the figures of its package. */
  datatype Entry = Entry(fee: int, size: nat, hash: nat, figs: Figures)

  /** A fee and a size, compared as the rate of the one per the other. */
  datatype Rate = Rate(fee: int, size: int)

  predicate Higher(x: Rate, y: Rate) {
    x.fee * y.size > y.fee * x.size
  }

  /** GetModFeeAndSize: the lower rate of the transaction and its package. */
  function FeeAndSize(e: Entry): Rate {
    if e.fee * e.figs.size > e.figs.modFees * e.size then Rate(e.figs.modFees, e.figs.size) else Rate(e.fee, e.size)
  }

  /** CompareTxMemPoolEntryByAncestorFee, in exact arithmetic. */
  predicate Outranks(x: Entry, y: Entry) {
    var a, b := FeeAndSize(x), FeeAndSize(y);
    if a.fee * b.size == a.size * b.fee then x.hash < y.hash else a.fee * b.size > a.size * b.fee
  }

  function EntryOf(m: Mempool, e: Figures, t: TxId): Entry
    requires t in m.tx
  {
    Entry(m.tx[t].modFee, m.tx[t].size, m.tx[t].hash, e)
  }

  predicate ScoresHigher(m: Mempool, e: Figures, t: TxId, f: Figures, u: TxId)
    requires t in m.tx && u in m.tx
  {
    Outranks(EntryOf(m, e, t), EntryOf(m, f, u))
  }

  function ScoreOf(m: Mempool): Score {
    (e, t, f, u) => t in m.tx && u in m.tx && ScoresHigher(m, e, t, f, u)
  }

  // ---------------------------------------------------------------- where the comparator is an order

  /** A rate proper, or a fee for nothing. */
  ghost predicate Proper(x: Rate) {
    x.size > 0 || (x.size == 0 && x.fee > 0)
  }

  ghost predicate Scored(e: Entry) {
    e.size <= e.figs.size && (e.size > 0 || e.fee > 0)
  }

  lemma {:induction false} Cancel(x: int, y: int, k: int)
    requires k > 0 && x * k < y * k
    ensures x < y
  {
    if x >= y {
      MulMono(y, x, k);
    }
  }

  lemma {:induction false} ScoredRate(e: Entry)
    requires Scored(e)
    ensures Proper(FeeAndSize(e))
  {
    if e.size == 0 && e.figs.size > 0 {
      MulPos(e.fee, e.figs.size);
    }
  }

  /** Rates that are not higher than the next: x / x.size <= y / y.size <= z / z.size. */
  lemma {:induction false} NotHigherTransitive(x: Rate, y: Rate, z: Rate)
    requires Proper(x) && Proper(y) && Proper(z) && !Higher(x, y) && !Higher(y, z)
    ensures !Higher(x, z)
  {
    if y.size > 0 {
      Chain(x.fee, x.size, y.fee, y.size, z.fee, z.size);
    } else {
      if z.size > 0 {
        MulPos(y.fee, z.size);
      } else {
        MulNat(z.fee, x.size);
      }
    }
  }

  lemma {:induction false} Chain(a: int, b: nat, c: int, d: nat, e: int, f: nat)
    requires d > 0 && a * d <= c * b && c * f <= e * d
    ensures a * f <= e * b
  {
    MulMono(a * d, c * b, f);
    MulMono(c * f, e * d, b);
    assert (a * d) * f == (a * f) * d && (c * b) * f == (c * f) * b && (e * d) * b == (e * b) * d;
    if a * f > e * b {
      MulMono(e * b + 1, a * f, d);
      Distribute(e * b, 1, d);
    }
  }

  /** The comparator is asymmetric between any two entries. */
  lemma {:induction false} OutranksAsymmetric(x: Entry, y: Entry)
    ensures !Outranks(x, y) || !Outranks(y, x)
  {
    var a, b := FeeAndSize(x), FeeAndSize(y);
    assert a.fee * b.size == b.size * a.fee && a.size * b.fee == b.fee * a.size;
  }

  ghost predicate Tied(x: Rate, y: Rate) {
    !Higher(x, y) && !Higher(y, x)
  }

  lemma {:induction false} OutranksMeans(x: Entry, y: Entry)
    ensures var a, b := FeeAndSize(x), FeeAndSize(y);
            Outranks(x, y) <==> Higher(a, b) || (Tied(a, b) && x.hash < y.hash)
  {
    var a, b := FeeAndSize(x), FeeAndSize(y);
    assert a.size * b.fee == b.fee * a.size;
  }

  /** Not being outranked is transitive between entries that have a score. */
  lemma {:induction false} OutranksRanks(x: Entry, y: Entry, z: Entry)
    requires Scored(x) && Scored(y) && Scored(z) && Outranks(x, z)
    ensures Outranks(x, y) || Outranks(y, z)
  {
    if !Outranks(x, y) && !Outranks(y, z) {
      var a, b, c := FeeAndSize(x), FeeAndSize(y), FeeAndSize(z);
      ScoredRate(x);
      ScoredRate(y);
      ScoredRate(z);
      OutranksMeans(x, y);
      OutranksMeans(y, z);
      OutranksMeans(x, z);
      NotHigherTransitive(a, b, c);
      NotHigherTransitive(c, a, b);
      NotHigherTransitive(b, c, a);
    }
  }

  /**
   In every mempool the comparator orders the entries that have a score: those of
   transactions with a size, and those of transactions with a fee for no size.
   */
  lemma {:induction false} ScoreIsWeakOrder(m: Mempool)
    ensures WeakOrder(m, ScoreOf(m))
  {
    var f := ScoreOf(m);
    forall a, s, b, t | HasScore(m, a, s) && HasScore(m, b, t)
      ensures Asymmetric(f, a, s, b, t)
    {
      OutranksAsymmetric(EntryOf(m, a, s), EntryOf(m, b, t));
    }
    forall a, s, b, t, c, u | HasScore(m, a, s) && HasScore(m, b, t) && HasScore(m, c, u)
      ensures Ranks(f, a, s, b, t, c, u)
    {
      if f(a, s, c, u) {
        OutranksRanks(EntryOf(m, a, s), EntryOf(m, b, t), EntryOf(m, c, u));
      }
    }
  }

  function Lone(fee: int, size: nat, hash: nat): Entry {
    Entry(fee, size, hash, Figures(size, fee, 0, 0))
  }

  ghost predicate Cycle(p: Entry, n: Entry, q: Entry) {
    Outranks(p, n) && Outranks(n, q) && Outranks(q, p)
  }

  /**
   Exactly these entries: an entry whose package is no smaller than itself is in no cycle
   with two that have a score if and only if it has one.
   */
  lemma {:induction false} ScoredIff(q: Entry)
    requires q.size <= q.figs.size && q.hash > 0
    ensures Scored(q) <==> forall p, n :: Scored(p) && Scored(n) ==> !Cycle(p, n, q)
  {
    if Scored(q) {
      forall p, n | Scored(p) && Scored(n)
        ensures !Cycle(p, n, q)
      {
        if Cycle(p, n, q) {
          OutranksRanks(n, p, q);
          OutranksAsymmetric(p, n);
          OutranksAsymmetric(q, p);
        }
      }
    } else {
      var p, n := Lone(1, 0, q.hash + 1), Lone(1, 1, 0);
      UnscoredCycle(q, q.hash + 1);
      assert Scored(p) && Scored(n);
    }
  }

  /** An entry without a score comes after `n`, which comes after `p`, and before `p`. */
  lemma {:induction false} UnscoredCycle(q: Entry, hash: nat)
    requires q.size <= q.figs.size && !Scored(q) && 0 < q.hash < hash
    ensures Cycle(Lone(1, 0, hash), Lone(1, 1, 0), q)
  {
    var p, n := Lone(1, 0, hash), Lone(1, 1, 0);
    assert FeeAndSize(q) == Rate(q.fee, 0) by {
      if q.fee < 0 {
        MulMono(q.fee, 0, q.figs.size);
      }
    }
    OutranksMeans(p, n);
    OutranksMeans(n, q);
    OutranksMeans(q, p);
  }

  // ---------------------------------------------------------------- the minimum fee

  const BASE_MWEB_FEE := 100

  /** Division toward zero. */
  function Truncated(x: int): int {
    if x < 0 then -(-x / 1000) else x / 1000
  }

  function GetFee(perK: int, size: int): int {
    var fee := Truncated(perK * size);
    if fee == 0 && size != 0 then if perK > 0 then 1 else if perK < 0 then -1 else 0 else fee
  }

  function GetTotalFee(perK: int, size: int, mwebWeight: int): int {
    GetFee(perK, size) + mwebWeight * BASE_MWEB_FEE
  }

  /** Up to rounding the minimum is the rate: what falls short is below the rate, and what is no higher pays no more. */
  lemma {:induction false} FeeMeans(perK: int, size: int, fee: int)
    requires size >= 0
    ensures fee < GetFee(perK, size) ==> 1000 * fee < perK * size
    ensures 1000 * fee <= perK * size ==> fee <= GetFee(perK, size)
  {
    if perK > 0 && size > 0 {
      MulPos(perK, size);
    } else if perK < 0 && size > 0 {
      MulPos(-perK, size);
      assert perK * size == -(-perK * size);
    }
  }

  lemma {:induction false} FeeMonotone(perK: int, higher: int, size: int)
    requires size >= 0 && perK <= higher
    ensures GetFee(perK, size) <= GetFee(higher, size)
  {
    MulMono(perK, higher, size);
    if GetFee(perK, size) > GetFee(higher, size) {
      FeeMeans(perK, size, GetFee(higher, size));
      FeeMeans(higher, size, GetFee(higher, size));
    }
  }

  /** A fee falls short of the minimum exactly when it is below the rate. */
  ghost predicate Sharp(perK: nat, size: nat, fee: int) {
    fee < GetFee(perK, size) <==> 1000 * fee < perK * size
  }

  /** The rounding adds nothing if and only if the rate is a whole number per byte. */
  lemma {:induction false} RoundingIff(perK: nat)
    ensures perK % 1000 == 0 <==> forall size, fee :: Sharp(perK, size, fee)
  {
    if perK % 1000 == 0 {
      forall size, fee
        ensures Sharp(perK, size, fee)
      {
        WholeRate(perK, size, fee);
      }
    } else {
      var fee := perK * 1001 / 1000;
      assert perK * 1001 == 1000 * perK + perK;
      assert 1000 * fee < perK * 1001 && fee >= 1;
      assert !Sharp(perK, 1001, fee);
    }
  }

  lemma {:induction false} WholeRate(perK: nat, size: nat, fee: int)
    requires perK % 1000 == 0
    ensures Sharp(perK, size, fee)
  {
    var each := perK / 1000;
    assert perK * size == 1000 * (each * size) by {
      Assoc(1000, each, size);
    }
    if each > 0 && size > 0 {
      MulPos(each, size);
    }
  }

  // ---------------------------------------------------------------- stopping at a fee that is too low

  /** The candidate at which the selection stops. */
  ghost predicate TooCheap(perK: int, c: Entry) {
    c.figs.modFees < GetTotalFee(perK, c.figs.size, c.figs.mwebWeight)
  }

  ghost predicate PaysNoMore(perK: int, u: Entry) {
    u.figs.modFees <= GetTotalFee(perK, u.figs.size, u.figs.mwebWeight)
  }

  ghost predicate Below(perK: int, u: Entry) {
    1000 * u.figs.modFees < perK * u.figs.size
  }

  /** The transaction itself is not poorer than its package. */
  ghost predicate NotPoorer(u: Entry) {
    u.figs.modFees * u.size <= u.fee * u.figs.size
  }

  /** Might still be considered after `c`. */
  ghost predicate Remains(c: Entry, u: Entry) {
    Scored(u) && u.figs.mwebWeight >= 0 && !Outranks(u, c)
  }

  lemma {:induction false} LowerRate(a: int, b: int, f: int, s: int, rate: int)
    requires s > 0 && b > 0 && a * s <= f * b
    ensures 1000 * f < rate * s ==> 1000 * a < rate * b
    ensures 1000 * f <= rate * s ==> 1000 * a <= rate * b
  {
    assert (1000 * a) * s == 1000 * (a * s) && (1000 * f) * b == 1000 * (f * b);
    assert (rate * s) * b == (rate * b) * s;
    if 1000 * f < rate * s {
      MulMono(1000 * f + 1, rate * s, b);
      Distribute(1000 * f, 1, b);
      Cancel(1000 * a, rate * b, s);
    } else if 1000 * f <= rate * s {
      Distribute(rate * b, 1, s);
      Cancel(1000 * a, rate * b + 1, s);
    }
  }

  /** What does not score higher than `c` and is not poorer than its package has no higher rate. */
  lemma {:induction false} RestHasLowerRate(c: Entry, u: Entry)
    requires Scored(c) && Remains(c, u) && NotPoorer(u) && FeeAndSize(c).size > 0
    ensures var k := FeeAndSize(c); u.figs.size > 0 && u.figs.modFees * k.size <= k.fee * u.figs.size
  {
    var k, l := FeeAndSize(c), FeeAndSize(u);
    ScoredRate(u);
    OutranksMeans(u, c);
    if l.size == 0 {
      MulPos(l.fee, k.size);
    }
    if u.fee * u.figs.size == u.figs.modFees * u.size {
      Chain(u.figs.modFees, u.figs.size, u.fee, u.size, k.fee, k.size);
    }
  }

  /**
   The comment that everything else has a lower fee rate, exactly: the rate by which the
   candidate is ordered is below the minimum rate if and only if every entry that may come
   later and is not poorer than its package is below it.
   */
  lemma {:induction false} RestIsCheap(c: Entry, perK: int)
    requires Scored(c)
    ensures var k := FeeAndSize(c);
            1000 * k.fee < perK * k.size <==> forall u :: Remains(c, u) && NotPoorer(u) ==> Below(perK, u)
  {
    var k := FeeAndSize(c);
    ScoredRate(c);
    if 1000 * k.fee < perK * k.size {
      forall u | Remains(c, u) && NotPoorer(u)
        ensures Below(perK, u)
      {
        RestHasLowerRate(c, u);
        LowerRate(u.figs.modFees, u.figs.size, k.fee, k.size, perK);
      }
    } else {
      var u := AtRate(c, if perK > 0 then perK else 0, 1);
      assert NotPoorer(u) && !Below(perK, u);
    }
  }

  /**
   The same for the minimum fee with its rounding and the fee for MWEB weight: the rate is
   at most the minimum rate if and only if no such entry pays more than its minimum.
   */
  lemma {:induction false} RestPaysNoMore(c: Entry, perK: int)
    requires Scored(c)
    ensures var k := FeeAndSize(c);
            1000 * k.fee <= perK * k.size <==> forall u :: Remains(c, u) && NotPoorer(u) ==> PaysNoMore(perK, u)
  {
    var k := FeeAndSize(c);
    ScoredRate(c);
    if 1000 * k.fee <= perK * k.size {
      forall u | Remains(c, u) && NotPoorer(u)
        ensures PaysNoMore(perK, u)
      {
        RestHasLowerRate(c, u);
        LowerRate(u.figs.modFees, u.figs.size, k.fee, k.size, perK);
        FeeMeans(perK, u.figs.size, u.figs.modFees);
      }
    } else {
      var u := AtRate(c, perK + 1, 1000);
      assert NotPoorer(u);
      assert !PaysNoMore(perK, u) by {
        Thousands(perK, k.size);
      }
    }
  }

  lemma {:induction false} Thousands(perK: int, size: int)
    ensures GetFee(perK, 1000 * size) == perK * size
  {
    assert perK * (1000 * size) == 1000 * (perK * size);
    if perK * size == 0 {
      if perK > 0 && size > 0 {
        MulPos(perK, size);
      } else if perK < 0 && size > 0 {
        MulPos(-perK, size);
      } else if perK > 0 && size < 0 {
        MulPos(perK, -size);
      } else if perK < 0 && size < 0 {
        MulPos(-perK, -size);
      }
    }
  }

  /**
   A transaction without ancestors that is ordered like `c`, `times` as large; or the given one,
   after a fee for no size.
   */
  ghost function AtRate(c: Entry, fee: int, times: nat): (u: Entry)
    requires Scored(c) && times > 0
    ensures Remains(c, u)
  {
    var k := FeeAndSize(c);
    ScoredRate(c);
    var u := if k.size > 0 then Lone(times * k.fee, times * k.size, c.hash) else Lone(fee, times, c.hash);
    assert Scored(u) by {
      if k.size > 0 {
        MulPos(times, k.size);
      }
    }
    OutranksMeans(u, c);
    assert !Outranks(u, c) by {
      assert (times * k.fee) * k.size == k.fee * (times * k.size);
      if k.size == 0 {
        MulPos(k.fee, times);
      }
    }
    u
  }

  /** A candidate without MWEB weight at which the selection stops. */
  ghost predicate StopsPlainly(c: Entry, perK: int) {
    Scored(c) && c.figs.size > 0 && c.figs.mwebWeight == 0 && TooCheap(perK, c)
  }

  /** A candidate without MWEB weight that falls short of the minimum is ordered by a rate below the minimum rate. */
  lemma {:induction false} TooCheapIsLow(c: Entry, perK: int)
    requires StopsPlainly(c, perK)
    ensures var k := FeeAndSize(c); k.size > 0 && 1000 * k.fee < perK * k.size
  {
    var k := FeeAndSize(c);
    FeeMeans(perK, c.figs.size, c.figs.modFees);
    if c.size == 0 {
      MulPos(c.fee, c.figs.size);
    }
    LowerRate(k.fee, k.size, c.figs.modFees, c.figs.size, perK);
  }

  /**
   So after such a candidate nothing is left that pays more than its minimum, and at a whole
   number per byte nothing that meets it, unless it is poorer than its package.
   */
  lemma {:induction false} StopLeaves(c: Entry, u: Entry, perK: int)
    requires StopsPlainly(c, perK)
    requires Remains(c, u) && NotPoorer(u)
    ensures Below(perK, u) && PaysNoMore(perK, u)
    ensures perK >= 0 && perK % 1000 == 0 ==> TooCheap(perK, u)
  {
    TooCheapIsLow(c, perK);
    RestIsCheap(c, perK);
    RestPaysNoMore(c, perK);
    if perK >= 0 && perK % 1000 == 0 {
      WholeRate(perK, u.figs.size, u.figs.modFees);
    }
  }

  /** The lowest rate at which a large transaction with the rate of `u` itself falls short of the minimum. */
  function OwnThreshold(u: Entry): (r: nat)
    requires u.size > 0
    ensures 1000 * u.fee < r * u.size
    ensures forall perK: nat :: 1000 * u.fee < perK * u.size ==> r <= perK
  {
    var r := if u.fee < 0 then 0 else 1000 * u.fee / u.size + 1;
    assert 1000 * u.fee < r * u.size && forall perK: nat :: 1000 * u.fee < perK * u.size ==> r <= perK by {
      ThresholdIs(u.fee, u.size);
    }
    r
  }

  lemma {:induction false} ThresholdIs(fee: int, size: nat)
    requires size > 0
    ensures var r := if fee < 0 then 0 else 1000 * fee / size + 1;
            1000 * fee < r * size && forall perK: nat :: 1000 * fee < perK * size ==> r <= perK
  {
    if fee >= 0 {
      var q := 1000 * fee / size;
      NatQuotient(1000 * fee, size);
      Distribute(q, 1, size);
      forall perK: nat | 1000 * fee < perK * size
        ensures q + 1 <= perK
      {
        if perK <= q {
          MulMono(perK, q, size);
        }
      }
    }
  }

  /** The selection stops at no such candidate before `u`, at no rate, while `u` pays more than its minimum. */
  ghost predicate NeverMissed(u: Entry) {
    forall c, perK: nat :: StopsPlainly(c, perK) && !Outranks(u, c) ==> PaysNoMore(perK, u)
  }

  /**
   For a transaction that may be poorer than its package, exactly: the selection never stops
   before it while it pays more than its minimum if and only if it has no size, or its
   package pays no more than the minimum at the rate of the transaction itself.
   */
  lemma {:induction false} NeverMissedIff(u: Entry)
    requires Scored(u) && u.figs.mwebWeight >= 0
    ensures NeverMissed(u) <==> u.size == 0 || PaysNoMore(OwnThreshold(u), u)
    ensures NotPoorer(u) ==> NeverMissed(u)
  {
    if u.size > 0 && !PaysNoMore(OwnThreshold(u), u) {
      LargeLoneStops(u);
    } else {
      forall c, perK: nat | StopsPlainly(c, perK) && !Outranks(u, c)
        ensures PaysNoMore(perK, u)
      {
        NotMissed(u, c, perK);
      }
    }
    if NotPoorer(u) && u.size > 0 {
      var r := OwnThreshold(u);
      LowerRate(u.figs.modFees, u.figs.size, u.fee, u.size, r);
      FeeMeans(r, u.figs.size, u.figs.modFees);
    }
  }

  lemma {:induction false} LargeLoneStops(u: Entry)
    requires Scored(u) && u.size > 0 && !PaysNoMore(OwnThreshold(u), u)
    ensures !NeverMissed(u)
  {
    var r, c := OwnThreshold(u), Lone(1000 * u.fee, 1000 * u.size, u.hash);
    Thousands(r, u.size);
    assert TooCheap(r, c);
    OutranksMeans(u, c);
    assert FeeAndSize(c) == Rate(1000 * u.fee, 1000 * u.size);
    assert !Outranks(u, c) by {
      Assoc(1000, u.fee, u.size);
      Assoc(u.fee, 1000, u.size);
      Assoc(1000, u.fee, u.figs.size);
      Assoc(u.figs.modFees, 1000, u.size);
    }
  }

  lemma {:induction false} NotMissed(u: Entry, c: Entry, perK: nat)
    requires Scored(u) && u.figs.mwebWeight >= 0
    requires u.size == 0 || PaysNoMore(OwnThreshold(u), u)
    requires StopsPlainly(c, perK) && !Outranks(u, c)
    ensures PaysNoMore(perK, u)
  {
    if u.size == 0 {
      MulNat(u.fee, u.figs.size);
    }
    if NotPoorer(u) {
      StopLeaves(c, u, perK);
    } else {
      var k := FeeAndSize(c);
      TooCheapIsLow(c, perK);
      OutranksMeans(u, c);
      LowerRate(u.fee, u.size, k.fee, k.size, perK);
      FeeMonotone(OwnThreshold(u), perK, u.figs.size);
    }
  }
}
