/**
 The layered UTXO cache (src/coins.cpp, src/coins.h): a stack of caches with
 DIRTY and FRESH flags over a database.  The effective view of a stack is one
 plain map from outpoints to unspent coins; every operation is proved to act on
 it as that map operation.
 */
module Coins {
  import opened Numbers
  import opened Wrappers

  type OutPoint = nat
  type Hash = nat
  const NULL_HASH: Hash := 0

  /** `value` is -1 for a spent (null) coin; `scriptUsage` is the memory its script allocates. */
  datatype Coin = Coin(value: int, scriptUsage: nat, unspendable: bool, height: nat, coinBase: bool, pegout: bool) {
    predicate IsSpent() {
      value == -1
    }

    function DynamicMemoryUsage(): nat {
      scriptUsage
    }
  }

  const EMPTY_COIN := Coin(-1, 0, false, 0, false, false)

  datatype Entry = Entry(coin: Coin, isDirty: bool, isFresh: bool)

  type CoinsMap = map<OutPoint, Entry>
  type Utxo = map<OutPoint, Coin>

  /** What a cache shows over the view below it. */
  ghost function Overlay(cache: CoinsMap, below: Utxo): (view: Utxo)
    ensures forall o :: o in view <==> if o in cache then !cache[o].coin.IsSpent() else o in below
    ensures forall o :: o in view ==> view[o] == if o in cache then cache[o].coin else below[o]
  {
    map o | o in cache.Keys + below.Keys && (o in cache ==> !cache[o].coin.IsSpent()) ::
      if o in cache then cache[o].coin else below[o]
  }

  lemma {:induction false} OverlayEmpty(cache: CoinsMap, below: Utxo)
    requires cache.Keys == {}
    ensures Overlay(cache, below) == below
  {
    assert Overlay(cache, below).Keys == below.Keys;
  }

  ghost predicate AllUnspent(view: Utxo) {
    forall o :: o in view ==> !view[o].IsSpent()
  }

  /**
   The flag states that occur, and what they promise about the view below.  The documented fifth state
   (spent, FRESH, not DIRTY) needs a view that reports a spent coin as found, which no view of a stack does.
   */
  ghost predicate EntryOk(o: OutPoint, e: Entry, below: Utxo) {
    && (e.coin.IsSpent() ==> e.coin == EMPTY_COIN && e.isDirty && !e.isFresh)
    && (e.isFresh ==> e.isDirty && o !in below)
    && (!e.isDirty ==> o in below && below[o] == e.coin)
  }

  ghost predicate LayerOk(cache: CoinsMap, below: Utxo) {
    && AllUnspent(below)
    && forall o :: o in cache ==> EntryOk(o, cache[o], below)
  }

  /** `view` with the coin of `e` written at `o`. */
  ghost function Written(view: Utxo, o: OutPoint, e: Entry): Utxo {
    if e.coin.IsSpent() then view - {o} else view[o := e.coin]
  }

  lemma {:induction false} OverlayWritten(rest: CoinsMap, view: Utxo, o: OutPoint)
    requires o in rest
    ensures Overlay(rest - {o}, Written(view, o, rest[o])) == Overlay(rest, view)
  {
    var a, b := Overlay(rest - {o}, Written(view, o, rest[o])), Overlay(rest, view);
    assert forall p :: p in rest - {o} <==> p in rest && p != o;
    assert forall p :: p in a <==> p in b;
    assert a.Keys == b.Keys;
    assert forall p :: p in a ==> a[p] == b[p];
  }

  /** Writing one entry to the view below leaves the combined view as it was. */
  lemma {:induction false} WriteDown(rest: CoinsMap, view: Utxo, o: OutPoint)
    requires o in rest && LayerOk(rest, view)
    ensures LayerOk(rest - {o}, Written(view, o, rest[o]))
    ensures Overlay(rest - {o}, Written(view, o, rest[o])) == Overlay(rest, view)
    ensures !rest[o].isDirty ==> Written(view, o, rest[o]) == view
  {
    OverlayWritten(rest, view, o);
    assert EntryOk(o, rest[o], view);
    assert forall p :: p in rest - {o} ==> EntryOk(p, rest[p], view);
  }

  lemma {:induction false} LayerUpdate(cache: CoinsMap, below: Utxo, o: OutPoint, e: Entry)
    ensures Overlay(cache[o := e], below) == Written(Overlay(cache, below), o, e)
    ensures LayerOk(cache, below) && EntryOk(o, e, below) ==> LayerOk(cache[o := e], below)
    ensures LayerOk(cache[o := e], below) ==> EntryOk(o, e, below)
  {
    var a, b := Overlay(cache[o := e], below), Written(Overlay(cache, below), o, e);
    assert forall p :: p in a <==> p in b;
    assert a.Keys == b.Keys;
    assert cache[o := e][o] == e;
  }

  /** An entry that shows what is below anyway, or hides nothing and shows nothing, can be dropped. */
  lemma {:induction false} LayerRemove(cache: CoinsMap, below: Utxo, o: OutPoint)
    requires LayerOk(cache, below)
    ensures LayerOk(cache - {o}, below)
    ensures o in cache && !cache[o].isDirty ==> Overlay(cache - {o}, below) == Overlay(cache, below)
    ensures o !in below ==> Overlay(cache - {o}, below) == Overlay(cache, below) - {o}
  {
    var a := Overlay(cache - {o}, below);
    var b := Overlay(cache, below);
    assert forall p :: p in cache - {o} ==> EntryOk(p, cache[p], below);
    assert forall p :: p != o ==> (p in a <==> p in b);
    if o in cache && !cache[o].isDirty {
      assert EntryOk(o, cache[o], below);
      assert a.Keys == b.Keys;
    }
    if o !in below {
      assert a.Keys == b.Keys - {o};
    }
  }

  // ---------------------------------------------------------------- memory accounting

  ghost function TotalUsage(cache: CoinsMap): nat {
    if cache == map[] then 0 else
    var o :| o in cache;
    cache[o].coin.DynamicMemoryUsage() + TotalUsage(cache - {o})
  }

  lemma {:induction false} UsageRemove(cache: CoinsMap, o: OutPoint)
    requires o in cache
    ensures TotalUsage(cache) == cache[o].coin.DynamicMemoryUsage() + TotalUsage(cache - {o})
    decreases |cache|
  {
    var p :| p in cache && TotalUsage(cache) == cache[p].coin.DynamicMemoryUsage() + TotalUsage(cache - {p});
    if p != o {
      UsageRemove(cache - {p}, o);
      UsageRemove(cache - {o}, p);
      assert cache - {p} - {o} == cache - {o} - {p};
    }
  }

  ghost function UsageAt(cache: CoinsMap, o: OutPoint): nat {
    if o in cache then cache[o].coin.DynamicMemoryUsage() else 0
  }

  lemma {:induction false} UsageUpdate(cache: CoinsMap, o: OutPoint, e: Entry)
    ensures TotalUsage(cache[o := e]) == TotalUsage(cache) - UsageAt(cache, o) + e.coin.DynamicMemoryUsage()
    ensures TotalUsage(cache - {o}) == TotalUsage(cache) - UsageAt(cache, o)
  {
    UsageRemove(cache[o := e], o);
    assert cache[o := e] - {o} == cache - {o};
    if o in cache {
      UsageRemove(cache, o);
    } else {
      assert cache - {o} == cache;
    }
  }

  // ---------------------------------------------------------------- the database at the bottom

  class CoinsViewDB {
    var coins: Utxo
    var bestBlock: Hash

    constructor ()
      ensures coins == map[] && bestBlock == NULL_HASH
    {
      coins, bestBlock := map[], NULL_HASH;
    }

    method BatchWrite(mapCoins: CoinsMap, hashBlock: Hash)
      requires hashBlock != NULL_HASH
      requires LayerOk(mapCoins, coins)
      modifies this
      ensures coins == Overlay(mapCoins, old(coins))
      ensures bestBlock == hashBlock
    {
      var rest := mapCoins;
      while rest.Keys != {}
        invariant LayerOk(rest, coins)
        invariant Overlay(rest, coins) == Overlay(mapCoins, old(coins))
        decreases rest.Keys
      {
        var o :| o in rest.Keys;
        WriteDown(rest, coins, o);
        if rest[o].isDirty {
          coins := if rest[o].coin.IsSpent() then coins - {o} else coins[o := rest[o].coin];
        }
        rest := rest - {o};
      }
      OverlayEmpty(rest, coins);
      bestBlock := hashBlock;
    }
  }

  datatype AddResult = Added | RejectedSpent | RejectedOverwrite

  class CoinsViewCache {
    /** The next cache of the stack, or null when the database is next. */
    const base: CoinsViewCache?
    const db: CoinsViewDB

    var cacheCoins: CoinsMap
    var cachedCoinsUsage: int
    var hashBlock: Hash

    ghost const depth: nat
    ghost const Repr: set<object>

    /** The stack is a finite chain of distinct caches ending in the database. */
    ghost predicate Linked()
      decreases depth
    {
      && this in Repr && db in Repr
      && (base != null ==>
            && base.depth < depth
            && base in Repr && base.Repr <= Repr && this !in base.Repr
            && base.db == db
            && base.Linked())
    }

    ghost function Below(): Utxo
      requires Linked()
      reads Repr
      decreases depth, 0
    {
      if base == null then db.coins else base.View()
    }

    /** The effective view: the plain map the stack stands for. */
    ghost function View(): Utxo
      requires Linked()
      reads Repr
      decreases depth, 1
    {
      Overlay(cacheCoins, Below())
    }

    ghost function BestBelow(): Hash
      requires Linked()
      reads Repr
      decreases depth, 0
    {
      if base == null then db.bestBlock else base.BestBlock()
    }

    ghost function BestBlock(): Hash
      requires Linked()
      reads Repr
      decreases depth, 1
    {
      if hashBlock != NULL_HASH then hashBlock else BestBelow()
    }

    ghost predicate Valid()
      reads Repr
      decreases depth
    {
      && Linked()
      && (base != null ==> base.Valid())
      && LayerOk(cacheCoins, Below())
      && cachedCoinsUsage == TotalUsage(cacheCoins)
    }

    constructor (base: CoinsViewCache?, db: CoinsViewDB)
      requires base != null ==> base.Valid() && base.db == db
      requires base == null ==> AllUnspent(db.coins)
      ensures Valid() && this.base == base && this.db == db
      ensures Repr == (if base == null then {db} else base.Repr) + {this}
      ensures View() == if base == null then db.coins else base.View()
    {
      this.base, this.db := base, db;
      cacheCoins, cachedCoinsUsage, hashBlock := map[], 0, NULL_HASH;
      depth := if base == null then 0 else base.depth + 1;
      Repr := (if base == null then {db} else base.Repr) + {this};
    }

    /** base->GetCoin: may fill the caches below, changes no view. */
    method LookBelow(o: OutPoint) returns (found: bool, coin: Coin)
      requires Valid()
      modifies if base == null then {} else base.Repr
      ensures Valid() && Below() == old(Below()) && BestBelow() == old(BestBelow())
      ensures found <==> o in Below()
      ensures found ==> coin == Below()[o] && !coin.IsSpent()
      decreases depth, 0
    {
      if base == null {
        found := o in db.coins;
        coin := if found then db.coins[o] else EMPTY_COIN;
      } else {
        found, coin := base.GetCoin(o);
      }
    }

    /** Brings the entry for `o` into this cache if any layer has the coin; no view changes. */
    method FetchCoin(o: OutPoint) returns (found: bool)
      requires Valid()
      modifies Repr
      ensures Valid() && View() == old(View()) && Below() == old(Below())
      ensures BestBlock() == old(BestBlock()) && hashBlock == old(hashBlock)
      ensures found <==> o in cacheCoins
      ensures found <==> o in old(cacheCoins) || o in old(View())
      ensures o in old(cacheCoins) ==> cacheCoins == old(cacheCoins)
      decreases depth, 1
    {
      if o in cacheCoins {
        return true;
      }
      var coin;
      found, coin := LookBelow(o);
      if found {
        var e := Entry(coin, false, false);
        if coin.IsSpent() {
          e := e.(isFresh := true);
        }
        Store(o, e);
      }
    }

    /** Writes an entry of this cache together with its share of the memory count. */
    method Store(o: OutPoint, e: Entry)
      requires Valid()
      modifies this`cacheCoins, this`cachedCoinsUsage
      ensures cacheCoins == old(cacheCoins)[o := e]
      ensures Below() == old(Below()) && View() == Written(old(View()), o, e) && BestBlock() == old(BestBlock())
      ensures Valid() <==> EntryOk(o, e, Below())
    {
      LayerUpdate(cacheCoins, Below(), o, e);
      UsageUpdate(cacheCoins, o, e);
      var freed := if o in cacheCoins then cacheCoins[o].coin.DynamicMemoryUsage() else 0;
      cacheCoins, cachedCoinsUsage := cacheCoins[o := e], cachedCoinsUsage - freed + e.coin.DynamicMemoryUsage();
    }

    /** Removes an entry of this cache together with its share of the memory count. */
    method Erase(o: OutPoint)
      requires Valid() && o in cacheCoins
      requires !cacheCoins[o].isDirty || o !in Below()
      modifies this`cacheCoins, this`cachedCoinsUsage
      ensures Valid() && cacheCoins == old(cacheCoins) - {o}
      ensures Below() == old(Below()) && BestBlock() == old(BestBlock())
      ensures View() == if old(cacheCoins[o].isDirty) then old(View()) - {o} else old(View())
    {
      LayerRemove(cacheCoins, Below(), o);
      UsageUpdate(cacheCoins, o, cacheCoins[o]);
      cacheCoins, cachedCoinsUsage := cacheCoins - {o}, cachedCoinsUsage - cacheCoins[o].coin.DynamicMemoryUsage();
    }

    method GetCoin(o: OutPoint) returns (found: bool, coin: Coin)
      requires Valid()
      modifies Repr
      ensures Valid() && View() == old(View()) && Below() == old(Below())
      ensures BestBlock() == old(BestBlock()) && hashBlock == old(hashBlock)
      ensures found <==> o in old(View())
      ensures found ==> coin == old(View())[o]
      decreases depth, 2
    {
      found := FetchCoin(o);
      if found {
        coin := cacheCoins[o].coin;
        found := !coin.IsSpent();
      } else {
        coin := EMPTY_COIN;
      }
    }

    method AccessCoin(o: OutPoint) returns (coin: Coin)
      requires Valid()
      modifies Repr
      ensures Valid() && View() == old(View()) && BestBlock() == old(BestBlock()) && hashBlock == old(hashBlock)
      ensures coin == if o in old(View()) then old(View())[o] else EMPTY_COIN
    {
      var found := FetchCoin(o);
      coin := if found then cacheCoins[o].coin else EMPTY_COIN;
      assert found ==> EntryOk(o, cacheCoins[o], Below());
    }

    /**
     Without `possibleOverwrite` an unspent coin of this cache is never overwritten, but a coin of a lower layer
     would be marked FRESH wrongly: the stack stays consistent exactly when the coin was absent from the view.
     A refused overwrite leaves the memory count short by the coin that stayed.
     */
    method AddCoin(o: OutPoint, coin: Coin, possibleOverwrite: bool) returns (r: AddResult)
      requires Valid()
      modifies this`cacheCoins, this`cachedCoinsUsage
      ensures r == RejectedSpent <==> coin.IsSpent()
      ensures r == RejectedOverwrite <==> !coin.IsSpent() && !coin.unspendable && !possibleOverwrite
                                          && o in old(cacheCoins) && !old(cacheCoins)[o].coin.IsSpent()
      ensures r == RejectedSpent || coin.unspendable ==> unchanged(this)
      ensures r == RejectedOverwrite ==>
                && cacheCoins == old(cacheCoins)
                && cachedCoinsUsage == old(cachedCoinsUsage) - old(cacheCoins)[o].coin.DynamicMemoryUsage()
      ensures Below() == old(Below()) && BestBlock() == old(BestBlock())
      ensures r == Added && !coin.unspendable ==> View() == old(View())[o := coin]
      ensures r == Added && !coin.unspendable ==> (Valid() <==> possibleOverwrite || o !in old(View()))
    {
      if coin.IsSpent() {
        return RejectedSpent;
      }
      if coin.unspendable {
        return Added;
      }
      var wasDirty, wasFresh := false, false;
      if o in cacheCoins {
        assert EntryOk(o, cacheCoins[o], Below());
        wasDirty, wasFresh := cacheCoins[o].isDirty, cacheCoins[o].isFresh;
        if !possibleOverwrite && !cacheCoins[o].coin.IsSpent() {
          cachedCoinsUsage := cachedCoinsUsage - cacheCoins[o].coin.DynamicMemoryUsage();
          return RejectedOverwrite;
        }
      }
      var becomesFresh := !possibleOverwrite && !wasDirty;
      Store(o, Entry(coin, true, wasFresh || becomesFresh));
      return Added;
    }

    /** Removes the coin from the view.  True also for an entry that was spent already but not yet flushed. */
    method SpendCoin(o: OutPoint) returns (found: bool, moveout: Coin)
      requires Valid()
      modifies Repr
      ensures Valid() && View() == old(View()) - {o} && BestBlock() == old(BestBlock()) && hashBlock == old(hashBlock)
      ensures found <==> o in old(View()) || o in old(cacheCoins)
      ensures moveout == if o in old(View()) then old(View())[o] else EMPTY_COIN
    {
      found := FetchCoin(o);
      if !found {
        return false, EMPTY_COIN;
      }
      assert EntryOk(o, cacheCoins[o], Below());
      moveout := cacheCoins[o].coin;
      if cacheCoins[o].isFresh {
        Erase(o);
      } else {
        Store(o, Entry(EMPTY_COIN, true, cacheCoins[o].isFresh));
      }
    }

    method HaveCoin(o: OutPoint) returns (have: bool)
      requires Valid()
      modifies Repr
      ensures Valid() && View() == old(View()) && BestBlock() == old(BestBlock()) && hashBlock == old(hashBlock)
      ensures have <==> o in old(View())
    {
      var found := FetchCoin(o);
      have := found && !cacheCoins[o].coin.IsSpent();
    }

    /** Drops an unmodified entry; the view does not change. */
    method Uncache(o: OutPoint)
      requires Valid()
      modifies this`cacheCoins, this`cachedCoinsUsage
      ensures Valid() && View() == old(View()) && BestBlock() == old(BestBlock())
      ensures o in cacheCoins <==> o in old(cacheCoins) && (old(cacheCoins)[o].isDirty || old(cacheCoins)[o].isFresh)
    {
      if o in cacheCoins {
        assert EntryOk(o, cacheCoins[o], Below());
        if !cacheCoins[o].isDirty && !cacheCoins[o].isFresh {
          Erase(o);
        }
      }
    }

    /** One entry of BatchWrite: afterwards this cache shows the child's entry. */
    method MergeEntry(o: OutPoint, e: Entry)
      requires Valid() && EntryOk(o, e, View()) && e.isDirty
      modifies this`cacheCoins, this`cachedCoinsUsage
      ensures Valid() && View() == Written(old(View()), o, e) && Below() == old(Below())
    {
      if o !in cacheCoins {
        if !(e.isFresh && e.coin.IsSpent()) {
          Store(o, Entry(e.coin, true, e.isFresh));
        }
      } else {
        var us := cacheCoins[o];
        assert EntryOk(o, us, Below());
        if e.isFresh && !us.coin.IsSpent() {
          assert false;  // "FRESH flag misapplied" is never thrown
        }
        if us.isFresh && e.coin.IsSpent() {
          Erase(o);
        } else {
          Store(o, Entry(e.coin, true, us.isFresh));
        }
      }
    }

    method MergeAll(mapCoins: CoinsMap)
      requires Valid() && LayerOk(mapCoins, View())
      modifies this`cacheCoins, this`cachedCoinsUsage
      ensures Valid() && View() == Overlay(mapCoins, old(View())) && Below() == old(Below())
    {
      var rest := mapCoins;
      ghost var goal := Overlay(mapCoins, View());
      while rest.Keys != {}
        invariant Valid() && Below() == old(Below())
        invariant LayerOk(rest, View())
        invariant Overlay(rest, View()) == goal
        decreases rest.Keys
      {
        var o :| o in rest.Keys;
        WriteDown(rest, View(), o);
        if rest[o].isDirty {
          MergeEntry(o, rest[o]);
        }
        rest := rest - {o};
      }
      OverlayEmpty(rest, View());
    }

    /** Takes over the modifications of a child cache. */
    method BatchWrite(mapCoins: CoinsMap, hashBlockIn: Hash)
      requires Valid() && LayerOk(mapCoins, View())
      modifies this
      ensures Valid() && View() == Overlay(mapCoins, old(View())) && Below() == old(Below())
      ensures hashBlock == hashBlockIn && BestBelow() == old(BestBelow())
    {
      MergeAll(mapCoins);
      hashBlock := hashBlockIn;
    }

    lemma {:induction false} BestUnfold()
      requires Linked()
      ensures hashBlock == NULL_HASH && base != null ==>
                BestBlock() == if base.hashBlock != NULL_HASH then base.hashBlock else base.BestBelow()
    {
      if hashBlock == NULL_HASH && base != null {
        assert BestBelow() == base.BestBlock();
      }
    }

    /** Remembers the best block; the effective one does not change. */
    method GetBestBlock() returns (best: Hash)
      requires Valid()
      modifies Repr
      ensures Valid() && View() == old(View())
      ensures best == old(BestBlock()) == BestBlock() && (best != NULL_HASH ==> hashBlock == best)
      decreases depth
    {
      if hashBlock == NULL_HASH {
        if base == null {
          best := db.bestBlock;
        } else {
          best := base.GetBestBlock();
        }
        hashBlock := best;
      }
      best := hashBlock;
    }

    /**
     Pushes the modifications down; the view does not change and is now that of the layer below.
     The effective best block survives unless an unset one overwrites the unflushed one below.
     */
    method Flush()
      requires Valid() && (base == null ==> hashBlock != NULL_HASH)
      modifies Repr
      ensures Valid() && View() == old(View()) == Below()
      ensures cacheCoins == map[] && cachedCoinsUsage == 0 && hashBlock == old(hashBlock)
      ensures base != null ==> base.hashBlock == hashBlock
      ensures BestBlock() == old(BestBlock()) <==>
              hashBlock != NULL_HASH || old(base.hashBlock) == NULL_HASH || old(base.hashBlock) == old(base.BestBelow())
    {
      BestUnfold();
      if base == null {
        db.BatchWrite(cacheCoins, hashBlock);
      } else {
        base.BatchWrite(cacheCoins, hashBlock);
      }
      cacheCoins, cachedCoinsUsage := map[], 0;
      BestUnfold();
      OverlayEmpty(cacheCoins, Below());
    }

    method Step(op: Op) returns (answer: Answer)
      requires Valid() && Legal(View(), op)
      requires op.Push? && base == null ==> hashBlock != NULL_HASH
      modifies Repr
      ensures Valid() && View() == Apply(old(View()), op) && hashBlock == old(hashBlock)
      ensures Answers(old(View()), op, answer)
    {
      answer := Nothing;
      match op {
        case Add(o, coin, overwrite) =>
          assert o in cacheCoins && !cacheCoins[o].coin.IsSpent() ==> o in View();
          var r := AddCoin(o, coin, overwrite);
          answer := AddAnswer(r);
        case Spend(o) =>
          var found, coin := SpendCoin(o);
          answer := SpendAnswer(found, coin);
        case Have(o) =>
          var have := HaveCoin(o);
          answer := HaveAnswer(have);
        case Get(o) =>
          var found, coin := GetCoin(o);
          answer := GetAnswer(if found then Some(coin) else None);
        case Access(o) =>
          var coin := AccessCoin(o);
          answer := AccessAnswer(coin);
        case Forget(o) =>
          Uncache(o);
        case Push =>
          Flush();
      }
    }

    /** Any run of legal operations acts on the stack, and answers, like the same operations on one plain map. */
    method Run(ops: seq<Op>) returns (answers: seq<Answer>)
      requires Valid() && LegalRun(View(), ops)
      requires Push in ops && base == null ==> hashBlock != NULL_HASH
      modifies Repr
      ensures Valid() && View() == Replay(old(View()), ops)
      ensures |answers| == |ops| && AllAnswered(old(View()), ops, answers)
    {
      answers := [];
      ghost var view := View();
      for i := 0 to |ops|
        invariant Valid() && hashBlock == old(hashBlock)
        invariant View() == Replay(view, ops[..i])
        invariant |answers| == i && AllAnswered(view, ops, answers)
      {
        assert Legal(Replay(view, ops[..i]), ops[i]);
        var answer := Step(ops[i]);
        ReplayStep(view, ops, i);
        assert AnsweredAt(view, ops, i, answer);
        answers := answers + [answer];
      }
      assert ops[..|ops|] == ops;
    }
  }

  // ---------------------------------------------------------------- runs

  datatype Op =
    | Add(o: OutPoint, coin: Coin, overwrite: bool)
    | Spend(o: OutPoint)
    | Have(o: OutPoint)
    | Get(o: OutPoint)
    | Access(o: OutPoint)
    | Forget(o: OutPoint)
    | Push

  /** What a caller gets back. */
  datatype Answer =
    | Nothing
    | AddAnswer(r: AddResult)
    | SpendAnswer(found: bool, coin: Coin)
    | HaveAnswer(have: bool)
    | GetAnswer(got: Option<Coin>)
    | AccessAnswer(coin: Coin)

  /** The same operation on a plain map. */
  function Apply(view: Utxo, op: Op): Utxo {
    match op
    case Add(o, coin, _) => if coin.IsSpent() || coin.unspendable then view else view[o := coin]
    case Spend(o) => view - {o}
    case Have(_) | Get(_) | Access(_) | Forget(_) | Push => view
  }

  function CoinAt(view: Utxo, o: OutPoint): Coin {
    if o in view then view[o] else EMPTY_COIN
  }

  /** The answers a plain map allows; only the result of spending an absent coin is left open. */
  ghost predicate Answers(view: Utxo, op: Op, answer: Answer) {
    match op
    case Add(_, coin, _) => answer == AddAnswer(if coin.IsSpent() then RejectedSpent else Added)
    case Spend(o) => answer.SpendAnswer? && answer.coin == CoinAt(view, o) && (o in view ==> answer.found)
    case Have(o) => answer == HaveAnswer(o in view)
    case Get(o) => answer == GetAnswer(if o in view then Some(view[o]) else None)
    case Access(o) => answer == AccessAnswer(CoinAt(view, o))
    case Forget(_) | Push => answer == Nothing
  }

  /** A coin is added without the overwrite permission only when it is absent. */
  predicate Legal(view: Utxo, op: Op) {
    op.Add? ==> op.coin.IsSpent() || op.coin.unspendable || op.overwrite || op.o !in view
  }

  function Replay(view: Utxo, ops: seq<Op>): Utxo
    decreases |ops|
  {
    if ops == [] then view else Apply(Replay(view, ops[..|ops| - 1]), ops[|ops| - 1])
  }

  ghost predicate LegalRun(view: Utxo, ops: seq<Op>) {
    forall k :: 0 <= k < |ops| ==> Legal(Replay(view, ops[..k]), ops[k])
  }

  ghost predicate AnsweredAt(view: Utxo, ops: seq<Op>, k: nat, answer: Answer)
    requires k < |ops|
  {
    Answers(Replay(view, ops[..k]), ops[k], answer)
  }

  /** The first operations of a run have been answered as on the plain map. */
  ghost predicate AllAnswered(view: Utxo, ops: seq<Op>, answers: seq<Answer>) {
    && |answers| <= |ops|
    && forall k :: 0 <= k < |answers| ==> AnsweredAt(view, ops, k, answers[k])
  }

  lemma {:induction false} ReplayStep(view: Utxo, ops: seq<Op>, i: nat)
    requires i < |ops|
    ensures Replay(view, ops[..i + 1]) == Apply(Replay(view, ops[..i]), ops[i])
  {
    assert ops[..i + 1][..i] == ops[..i];
  }

  // ---------------------------------------------------------------- the packed height, coinbase and pegout code

  const TWO_30 := 0x4000_0000
  const TWO_31 := 0x8000_0000

  /** Coin::Serialize, in 32-bit arithmetic. */
  function PackCode(height: nat, coinBase: bool, pegout: bool): (code: nat)
    requires height < TWO_31
    ensures code < TWO_32
  {
    (height * 2 % TWO_32 + (if coinBase then 1 else 0) + (if pegout then TWO_31 else 0)) % TWO_32
  }

  /** Coin::Unserialize. */
  function UnpackCode(code: nat): (nat, bool, bool)
    requires code < TWO_32
  {
    (code % TWO_31 / 2, code % 2 == 1, code / TWO_31 == 1)
  }

  lemma {:induction false} LowHeights(height: nat, coinBase: bool, pegout: bool)
    requires height < TWO_30
    ensures UnpackCode(PackCode(height, coinBase, pegout)) == (height, coinBase, pegout)
  {
    var bit, top := if coinBase then 1 else 0, if pegout then 1 else 0;
    var low := height * 2 + bit;
    var code := low + top * TWO_31;
    assert low < TWO_31 && code < TWO_32;
    assert PackCode(height, coinBase, pegout) == code;
    assert code % TWO_31 == low && code / TWO_31 == top;
    assert low / 2 == height && code % 2 == bit;
  }

  lemma {:induction false} HighHeights(height: nat, coinBase: bool, pegout: bool)
    requires TWO_30 <= height < TWO_31
    ensures UnpackCode(PackCode(height, coinBase, pegout)).0 != height
  {
    var code := PackCode(height, coinBase, pegout);
    assert code % TWO_31 < TWO_31;
  }

  /** The code keeps height, coinbase and pegout exactly for the heights below 2^30, one bit less than the field has. */
  lemma {:induction false} CodeRoundTrip(height: nat, coinBase: bool, pegout: bool)
    requires height < TWO_31
    ensures UnpackCode(PackCode(height, coinBase, pegout)) == (height, coinBase, pegout) <==> height < TWO_30
  {
    if height < TWO_30 {
      LowHeights(height, coinBase, pegout);
    } else {
      HighHeights(height, coinBase, pegout);
    }
  }
}
