/**
 The address manager (src/addrman.cpp, src/addrman.h): five redundant indexes
 over known peers, whose joint invariant the source writes out as Check_.

 The keyed bucket hashes are parameters, reduced to the table sizes as in the
 source.  A table is the map of its filled slots: a missing slot is one that
 holds -1.  Random draws and clock readings are arbitrary.
 */
module AddrMan {
  import opened Collections
  import opened Numbers

  type NetAddr = nat
  type Id = int

  datatype Service = Service(ip: NetAddr, port: nat)

  /** `nServices` is the set of service flags. */
  datatype Info = Info(
    addr: Service, nTime: int, nServices: set<nat>, source: NetAddr,
    nLastTry: int, nLastCountAttempt: int, nLastSuccess: int, nAttempts: int,
    nRefCount: int, fInTried: bool, nRandomPos: int)

  datatype Slot = Slot(bucket: nat, pos: nat)

  const TRIED_BUCKET_COUNT := 256
  const NEW_BUCKET_COUNT := 1024
  const BUCKET_SIZE := 64
  const NEW_BUCKETS_PER_ADDRESS := 8
  const HORIZON_DAYS := 30
  const RETRIES := 3
  const MAX_FAILURES := 10
  const MIN_FAIL_DAYS := 7
  const REPLACEMENT_HOURS := 4
  const SET_TRIED_COLLISION_SIZE := 10
  const TEST_WINDOW := 40 * 60
  const DAY := 24 * 60 * 60

  /** The bucket hashes for one key and AS map. */
  datatype Hashes = Hashes(tried: Service -> nat, new_: (NetAddr, NetAddr) -> nat,
                           position: (bool, nat, Service) -> nat) {

    function BucketPosition(fNew: bool, bucket: nat, a: Service): nat {
      position(fNew, bucket, a) % BUCKET_SIZE
    }

    function TriedSlot(a: Service): Slot {
      var b := tried(a) % TRIED_BUCKET_COUNT;
      Slot(b, BucketPosition(false, b, a))
    }

    function NewSlot(a: Service, source: NetAddr): Slot {
      var b := new_(a.ip, source) % NEW_BUCKET_COUNT;
      Slot(b, BucketPosition(true, b, a))
    }
  }

  type Infos = map<Id, Info>
  type Table = map<Slot, Id>

  predicate IsTerrible(info: Info, now: int) {
    if info.nLastTry != 0 && info.nLastTry >= now - 60 then false
    else if info.nTime > now + 10 * 60 then true
    else if info.nTime == 0 || now - info.nTime > HORIZON_DAYS * DAY then true
    else if info.nLastSuccess == 0 && info.nAttempts >= RETRIES then true
    else now - info.nLastSuccess > MIN_FAIL_DAYS * DAY && info.nAttempts >= MAX_FAILURES
  }

  // ---------------------------------------------------------------- the joint invariant

  // Each part of the invariant quantifies over a predicate of its own, so that
  // proofs unfold only the instances they name.

  ghost predicate IdOk(infos: Infos, byAddr: map<NetAddr, Id>, nIdCount: Id, id: Id) {
    id in infos && 0 <= id < nIdCount && infos[id].addr.ip in byAddr && byAddr[infos[id].addr.ip] == id
  }

  ghost predicate AddrOk(infos: Infos, byAddr: map<NetAddr, Id>, a: NetAddr) {
    a in byAddr && byAddr[a] in infos && infos[byAddr[a]].addr.ip == a
  }

  /** mapInfo and mapAddr are mutually inverse. */
  ghost predicate Addressed(infos: Infos, byAddr: map<NetAddr, Id>, nIdCount: Id) {
    && (forall id {:trigger IdOk(infos, byAddr, nIdCount, id)} :: id in infos ==> IdOk(infos, byAddr, nIdCount, id))
    && (forall a {:trigger AddrOk(infos, byAddr, a)} :: a in byAddr ==> AddrOk(infos, byAddr, a))
  }

  ghost predicate RankOk(infos: Infos, random: seq<Id>, id: Id) {
    id in infos && 0 <= infos[id].nRandomPos < |random| && random[infos[id].nRandomPos] == id
  }

  ghost predicate PosOk(infos: Infos, random: seq<Id>, i: nat) {
    i < |random| && random[i] in infos && infos[random[i]].nRandomPos == i
  }

  /** mapInfo and vRandom are mutually inverse. */
  ghost predicate Ranked(infos: Infos, random: seq<Id>) {
    && (forall id {:trigger RankOk(infos, random, id)} :: id in infos ==> RankOk(infos, random, id))
    && (forall i: nat {:trigger PosOk(infos, random, i)} :: i < |random| ==> PosOk(infos, random, i))
  }

  ghost function Refs(tableNew: Table, id: Id): set<Slot> {
    set s | s in tableNew && tableNew[s] == id
  }

  ghost predicate NewSlotOk(k: Hashes, infos: Infos, tableNew: Table, s: Slot) {
    && s in tableNew
    && s.bucket < NEW_BUCKET_COUNT
    && tableNew[s] in infos
    && !infos[tableNew[s]].fInTried
    && s.pos == k.BucketPosition(true, s.bucket, infos[tableNew[s]].addr)
  }

  /** Every filled "new" slot is the hashed position of an untried entry in its bucket. */
  ghost predicate NewPlaced(k: Hashes, infos: Infos, tableNew: Table) {
    forall s {:trigger NewSlotOk(k, infos, tableNew, s)} :: s in tableNew ==> NewSlotOk(k, infos, tableNew, s)
  }

  ghost predicate RefOk(infos: Infos, tableNew: Table, pending: set<Id>, id: Id) {
    && id in infos
    && infos[id].nRefCount == |Refs(tableNew, id)| <= NEW_BUCKETS_PER_ADDRESS
    && (!infos[id].fInTried && id !in pending ==> infos[id].nRefCount >= 1)
    && (infos[id].fInTried ==> infos[id].nRefCount == 0)
  }

  /** Reference counts are exact; an untried entry has between one and eight references, except the `pending` ones. */
  ghost predicate RefsCounted(infos: Infos, tableNew: Table, pending: set<Id>) {
    forall id {:trigger RefOk(infos, tableNew, pending, id)} :: id in infos ==> RefOk(infos, tableNew, pending, id)
  }

  ghost predicate TriedSlotOk(k: Hashes, infos: Infos, tableTried: Table, s: Slot) {
    s in tableTried && tableTried[s] in infos && infos[tableTried[s]].fInTried
    && s == k.TriedSlot(infos[tableTried[s]].addr)
  }

  ghost predicate TriedIdOk(k: Hashes, infos: Infos, tableTried: Table, id: Id) {
    && id in infos
    && (infos[id].fInTried ==>
          && k.TriedSlot(infos[id].addr) in tableTried
          && tableTried[k.TriedSlot(infos[id].addr)] == id)
  }

  /** The "tried" table holds exactly the tried entries, each in its hashed slot. */
  ghost predicate TriedPlaced(k: Hashes, infos: Infos, tableTried: Table) {
    && (forall s {:trigger TriedSlotOk(k, infos, tableTried, s)} :: s in tableTried ==>
        TriedSlotOk(k, infos, tableTried, s))
    && (forall id {:trigger TriedIdOk(k, infos, tableTried, id)} :: id in infos ==> TriedIdOk(k, infos, tableTried, id))
  }

  ghost predicate CollisionOk(k: Hashes, infos: Infos, filled: set<Slot>, nIdCount: Id, id: Id) {
    0 <= id < nIdCount && (id in infos ==> k.TriedSlot(infos[id].addr) in filled)
  }

  /** An entry waiting for the outcome of a collision has a filled tried slot. */
  ghost predicate CollisionsOk(k: Hashes, infos: Infos, filled: set<Slot>, collisions: set<Id>, nIdCount: Id) {
    forall id {:trigger CollisionOk(k, infos, filled, nIdCount, id)} ::
      id in collisions ==> CollisionOk(k, infos, filled, nIdCount, id)
  }

  predicate TimeOk(info: Info) {
    info.nLastTry >= 0 && info.nLastSuccess >= 0 && (info.fInTried ==> info.nLastSuccess != 0)
  }

  /** No time is negative, and a tried entry has been connected to. */
  ghost predicate TimesOk(infos: Infos) {
    forall id :: id in infos ==> TimeOk(infos[id])
  }

  /** Apart from those of `except`, the times of an entry stay in order if they are. */
  ghost predicate TimesKept(a: Infos, b: Infos, except: set<Id>) {
    forall id {:trigger b[id]} :: id in b && id !in except ==> id in a && (TimeOk(a[id]) ==> TimeOk(b[id]))
  }

  ghost function NewIds(infos: Infos): set<Id> {
    set id | id in infos && !infos[id].fInTried
  }

  ghost function TriedIds(infos: Infos): set<Id> {
    set id | id in infos && infos[id].fInTried
  }

  // ---------------------------------------------------------------- counting lemmas

  lemma {:induction false} RefsUpdate(table: Table, s: Slot, id: Id)
    requires s !in table
    ensures Refs(table[s := id], id) == Refs(table, id) + {s} && |Refs(table[s := id], id)| == |Refs(table, id)| + 1
    ensures forall o :: o != id ==> Refs(table[s := id], o) == Refs(table, o)
  {
    assert Refs(table[s := id], id) == Refs(table, id) + {s};
    forall o | o != id
      ensures Refs(table[s := id], o) == Refs(table, o)
    {
    }
  }

  lemma {:induction false} RefsRemove(table: Table, s: Slot)
    requires s in table
    ensures var id := table[s];
            && Refs(table - {s}, id) == Refs(table, id) - {s}
            && |Refs(table - {s}, id)| == |Refs(table, id)| - 1
            && forall o :: o != id ==> Refs(table - {s}, o) == Refs(table, o)
  {
    assert Refs(table - {s}, table[s]) == Refs(table, table[s]) - {s};
    forall o | o != table[s]
      ensures Refs(table - {s}, o) == Refs(table, o)
    {
    }
  }

  lemma {:induction false} Refill(table: Table, s: Slot, id: Id)
    ensures (table - {s})[s := id] == table[s := id]
    ensures table.Keys <= table[s := id].Keys
  {
  }

  lemma {:induction false} IdsSplit(infos: Infos)
    ensures |infos| == |NewIds(infos)| + |TriedIds(infos)|
  {
    assert infos.Keys == NewIds(infos) + TriedIds(infos);
    assert |infos| == |infos.Keys|;
  }

  lemma {:induction false} IdsUpdate(infos: Infos, id: Id, info: Info)
    ensures var was := id in infos;
            && |NewIds(infos[id := info])| == |NewIds(infos)| - One(was && !infos[id].fInTried) + One(!info.fInTried)
            && |TriedIds(infos[id := info])| == |TriedIds(infos)| - One(was && infos[id].fInTried) + One(info.fInTried)
  {
    CardUpdate(NewIds(infos), id);
    CardUpdate(TriedIds(infos), id);
    NewIdsUpdate(infos, id, info);
    TriedIdsUpdate(infos, id, info);
  }

  lemma {:induction false} NewIdsUpdate(infos: Infos, id: Id, info: Info)
    ensures NewIds(infos[id := info]) == if info.fInTried then NewIds(infos) - {id} else NewIds(infos) + {id}
  {
  }

  lemma {:induction false} TriedIdsUpdate(infos: Infos, id: Id, info: Info)
    ensures TriedIds(infos[id := info]) == if info.fInTried then TriedIds(infos) + {id} else TriedIds(infos) - {id}
  {
  }

  lemma {:induction false} IdsRemove(infos: Infos, id: Id)
    requires id in infos
    ensures |NewIds(infos - {id})| == |NewIds(infos)| - One(!infos[id].fInTried)
    ensures |TriedIds(infos - {id})| == |TriedIds(infos)| - One(infos[id].fInTried)
  {
    CardUpdate(NewIds(infos), id);
    CardUpdate(TriedIds(infos), id);
    assert NewIds(infos - {id}) == NewIds(infos) - {id};
    assert TriedIds(infos - {id}) == TriedIds(infos) - {id};
  }

  lemma {:induction false} CardUpdate(s: set<Id>, id: Id)
    ensures |s + {id}| == |s| + One(id !in s) && |s - {id}| == |s| - One(id in s)
  {
    if id in s {
      assert s + {id} == s;
    } else {
      assert s - {id} == s;
    }
  }

  /** The random order is a bijection, so it has as many elements as there are entries. */
  lemma {:induction false} RandomSize(infos: Infos, random: seq<Id>)
    requires Ranked(infos, random)
    ensures |random| == |infos|
    decreases |random|
  {
    forall id | id in infos
      ensures id in random
    {
      assert RankOk(infos, random, id);
    }
    if random == [] {
      assert infos.Keys == {};
    } else {
      var n := |random| - 1;
      var last := random[n];
      assert PosOk(infos, random, n);
      DropLast(infos, random);
      RandomSize(infos - {last}, random[..n]);
      assert infos.Keys == (infos - {last}).Keys + {last};
    }
  }

  lemma {:induction false} DropLast(infos: Infos, random: seq<Id>)
    requires Ranked(infos, random) && random != []
    ensures random[|random| - 1] in infos
    ensures Ranked(infos - {random[|random| - 1]}, random[..|random| - 1])
  {
    var n := |random| - 1;
    var last := random[n];
    assert PosOk(infos, random, n);
    forall id | id in infos - {last}
      ensures RankOk(infos - {last}, random[..n], id)
    {
      assert RankOk(infos, random, id);
    }
    forall i: nat | i < n
      ensures PosOk(infos - {last}, random[..n], i)
    {
      assert PosOk(infos, random, i);
    }
  }

  // ---------------------------------------------------------------- single-entry updates

  /** Only positions in the random order differ. */
  ghost predicate SameButPos(a: Infos, b: Infos) {
    a.Keys == b.Keys && forall id {:trigger b[id]} :: id in b ==> SameEntry(a[id], b[id])
  }

  predicate SameEntry(x: Info, y: Info) {
    y == x.(nRandomPos := y.nRandomPos)
  }

  /** No entry is new or changes its address. */
  ghost predicate SameAddresses(a: Infos, b: Infos) {
    forall id {:trigger b[id]} :: id in b ==> id in a && b[id].addr == a[id].addr
  }

  /** All entries but those of `except` are still there, unchanged. */
  ghost predicate Untouched(a: Infos, b: Infos, except: set<Id>) {
    forall id :: id in a && id !in except ==> id in b && SameEntry(a[id], b[id])
  }

  /**
   A "new" slot may be taken: it is free, or its occupant is terrible, or the occupant can spare it
   for an entry without references.
   */
  predicate HasRoom(infos: Infos, tableNew: Table, s: Slot, nRefCount: int, now: int) {
    s in tableNew && tableNew[s] in infos ==>
      IsTerrible(infos[tableNew[s]], now) || (infos[tableNew[s]].nRefCount > 1 && nRefCount == 0)
  }

  /** The readings of the clock during one call: the `n`-th one made for an entry. */
  type Clock = (Id, nat) -> int

  ghost predicate Positive(clock: Clock) {
    forall id, n :: clock(id, n) > 0
  }

  /** The time is less than the replacement period before some reading. */
  ghost predicate Recent(time: int, clock: Clock) {
    exists id, n :: clock(id, n) - time < REPLACEMENT_HOURS * 60 * 60
  }

  /** The entries and the two tables at a moment. */
  datatype Tables = Tables(infos: Infos, inNew: Table, inTried: Table)

  /** A waiting entry loses to the occupant, keeps waiting, or takes the slot at a time. */
  datatype Outcome = Lost | Waits | Won(time: int)

  /** The decision between a waiting entry and the occupant of its slot, by up to four readings of the clock. */
  function Decide(waiting: Info, occupant: Info, t0: int, t1: int, t2: int, t3: int): Outcome {
    if t0 - occupant.nLastSuccess < REPLACEMENT_HOURS * 60 * 60 then Lost
    else if t1 - occupant.nLastTry < REPLACEMENT_HOURS * 60 * 60 then
      if t2 - occupant.nLastTry > 60 then Won(t3) else Waits
    else if t2 - waiting.nLastSuccess > TEST_WINDOW then Won(t3)
    else Waits
  }

  function AtLeastZero(x: int): int {
    if x > 0 then x else 0
  }

  /** An entry announced again: its services grow, and its time moves on when the announcement is enough newer. */
  function Renewed(info: Info, addrTime: int, nServices: set<nat>, nTimePenalty: int, now: int): Info {
    var nUpdateInterval := if now - addrTime < DAY then 60 * 60 else DAY;
    var nTime := if addrTime != 0 && (info.nTime == 0 || info.nTime < addrTime - nUpdateInterval - nTimePenalty)
                 then AtLeastZero(addrTime - nTimePenalty) else info.nTime;
    info.(nTime := nTime, nServices := info.nServices + nServices)
  }

  /** Whether an untried entry may get one more reference: N references make that 2^N times harder. */
  predicate MayRefer(info: Info, addrTime: int, rnd: nat) {
    && addrTime != 0 && (info.nTime == 0 || addrTime > info.nTime)
    && !info.fInTried && info.nRefCount != NEW_BUCKETS_PER_ADDRESS
    && (info.nRefCount >= 0 ==> rnd % Pow2(info.nRefCount) == 0)
  }

  /** The entry known under exactly this address, if any. */
  ghost function Known(infos: Infos, addr: Service): set<Id> {
    set id | id in infos && infos[id].addr == addr
  }

  /** Every table entry is where it belongs and counted. */
  ghost predicate Placed(k: Hashes, infos: Infos, tableNew: Table, tableTried: Table, pending: set<Id>) {
    && NewPlaced(k, infos, tableNew)
    && RefsCounted(infos, tableNew, pending)
    && TriedPlaced(k, infos, tableTried)
  }

  lemma {:induction false} AddressedSameButPos(a: Infos, b: Infos, byAddr: map<NetAddr, Id>, nIdCount: Id)
    requires SameButPos(a, b) && Addressed(a, byAddr, nIdCount)
    ensures Addressed(b, byAddr, nIdCount)
  {
    forall id | id in b
      ensures IdOk(b, byAddr, nIdCount, id)
    {
      assert IdOk(a, byAddr, nIdCount, id);
    }
    forall x | x in byAddr
      ensures AddrOk(b, byAddr, x)
    {
      assert AddrOk(a, byAddr, x);
      var id := byAddr[x];
      assert SameEntry(a[id], b[id]);
    }
  }

  lemma {:induction false} PlacedSameButPos(k: Hashes, a: Infos, b: Infos, tableNew: Table, tableTried: Table,
                                            pending: set<Id>)
    requires SameButPos(a, b) && Placed(k, a, tableNew, tableTried, pending)
    ensures Placed(k, b, tableNew, tableTried, pending)
    ensures NewIds(b) == NewIds(a) && TriedIds(b) == TriedIds(a)
  {
    forall s | s in tableNew
      ensures NewSlotOk(k, b, tableNew, s)
    {
      assert NewSlotOk(k, a, tableNew, s);
      var id := tableNew[s];
      assert SameEntry(a[id], b[id]);
    }
    forall id | id in b
      ensures RefOk(b, tableNew, pending, id) && TriedIdOk(k, b, tableTried, id)
    {
      assert RefOk(a, tableNew, pending, id) && TriedIdOk(k, a, tableTried, id);
    }
    forall s | s in tableTried
      ensures TriedSlotOk(k, b, tableTried, s)
    {
      assert TriedSlotOk(k, a, tableTried, s);
      var id := tableTried[s];
      assert SameEntry(a[id], b[id]);
    }
    assert forall id :: id in b ==> SameEntry(a[id], b[id]);
  }

  /** Apart from `id`, the entries are those of `a`. */
  ghost predicate SameOthers(a: Infos, b: Infos, id: Id) {
    forall o :: o != id ==> (o in b <==> o in a) && (o in b ==> b[o] == a[o])
  }

  /** Apart from the slots of `id`, the table is `a`. */
  ghost predicate SameSlots(a: Table, b: Table, id: Id) {
    && (forall s :: s in a && a[s] != id ==> s in b && b[s] == a[s])
    && (forall s :: s in b && b[s] != id ==> s in a && a[s] == b[s])
  }

  lemma {:induction false} SameRefs(a: Table, b: Table, id: Id, o: Id)
    requires SameSlots(a, b, id) && o != id
    ensures Refs(b, o) == Refs(a, o)
  {
    assert forall s :: s in Refs(b, o) <==> s in Refs(a, o);
  }

  /** A change that concerns one entry keeps everything in place if that entry itself is. */
  lemma {:induction false} ChangeOne(k: Hashes, a: Infos, b: Infos, new1: Table, new2: Table, tried1: Table,
                                     tried2: Table, pending1: set<Id>, pending2: set<Id>, id: Id)
    requires Placed(k, a, new1, tried1, pending1)
    requires SameOthers(a, b, id) && SameSlots(new1, new2, id) && SameSlots(tried1, tried2, id)
    requires pending1 - {id} <= pending2
    requires id in b ==> RefOk(b, new2, pending2, id) && TriedIdOk(k, b, tried2, id)
    requires forall s :: s in new2 && new2[s] == id ==> NewSlotOk(k, b, new2, s)
    requires forall s :: s in tried2 && tried2[s] == id ==> TriedSlotOk(k, b, tried2, s)
    ensures Placed(k, b, new2, tried2, pending2)
  {
    forall s | s in new2
      ensures NewSlotOk(k, b, new2, s)
    {
      if new2[s] != id {
        assert NewSlotOk(k, a, new1, s);
      }
    }
    forall o | o in b
      ensures RefOk(b, new2, pending2, o) && TriedIdOk(k, b, tried2, o)
    {
      if o != id {
        assert RefOk(a, new1, pending1, o) && TriedIdOk(k, a, tried1, o);
        SameRefs(new1, new2, id, o);
      }
    }
    forall s | s in tried2
      ensures TriedSlotOk(k, b, tried2, s)
    {
      if tried2[s] != id {
        assert TriedSlotOk(k, a, tried1, s);
      }
    }
  }

  lemma {:induction false} CollisionsKept(k: Hashes, a: Infos, b: Infos, filled1: set<Slot>, filled2: set<Slot>,
                                          collisions: set<Id>, nIdCount1: Id, nIdCount2: Id)
    requires CollisionsOk(k, a, filled1, collisions, nIdCount1)
    requires filled1 <= filled2 && nIdCount1 <= nIdCount2
    requires forall id :: id in collisions && id in b ==> id in a && b[id].addr == a[id].addr
    ensures CollisionsOk(k, b, filled2, collisions, nIdCount2)
  {
    forall id | id in collisions
      ensures CollisionOk(k, b, filled2, nIdCount2, id)
    {
      assert CollisionOk(k, a, filled1, nIdCount1, id);
    }
  }

  lemma {:induction false} CollisionsStay(k: Hashes, a: Infos, b: Infos, filled1: set<Slot>, filled2: set<Slot>,
                                          collisions: set<Id>, nIdCount: Id)
    requires CollisionsOk(k, a, filled1, collisions, nIdCount) && filled1 <= filled2 && SameAddresses(a, b)
    ensures CollisionsOk(k, b, filled2, collisions, nIdCount)
  {
    CollisionsKept(k, a, b, filled1, filled2, collisions, nIdCount, nIdCount);
  }

  lemma {:induction false} AddCollision(k: Hashes, infos: Infos, filled: set<Slot>, collisions: set<Id>, nIdCount: Id,
                                        id: Id)
    requires CollisionsOk(k, infos, filled, collisions, nIdCount)
    requires CollisionOk(k, infos, filled, nIdCount, id)
    ensures CollisionsOk(k, infos, filled, collisions + {id}, nIdCount)
  {
  }

  lemma {:induction false} StatsPlaced(k: Hashes, infos: Infos, tableNew: Table, tableTried: Table, id: Id, info: Info)
    requires Placed(k, infos, tableNew, tableTried, {}) && id in infos
    requires info.addr == infos[id].addr && info.nRefCount == infos[id].nRefCount && info.fInTried == infos[id].fInTried
    ensures Placed(k, infos[id := info], tableNew, tableTried, {})
  {
    assert RefOk(infos, tableNew, {}, id) && TriedIdOk(k, infos, tableTried, id);
    forall s | s in tableNew && tableNew[s] == id
      ensures NewSlotOk(k, infos[id := info], tableNew, s)
    {
      assert NewSlotOk(k, infos, tableNew, s);
    }
    forall s | s in tableTried && tableTried[s] == id
      ensures TriedSlotOk(k, infos[id := info], tableTried, s)
    {
      assert TriedSlotOk(k, infos, tableTried, s);
    }
    ChangeOne(k, infos, infos[id := info], tableNew, tableNew, tableTried, tableTried, {}, {}, id);
  }

  lemma {:induction false} ModShift(b: nat, r: nat)
    requires b < NEW_BUCKET_COUNT
    ensures ((b - r) % NEW_BUCKET_COUNT + r) % NEW_BUCKET_COUNT == b
  {
    var q := (b - r) / NEW_BUCKET_COUNT;
    assert (b - r) % NEW_BUCKET_COUNT + r == b - NEW_BUCKET_COUNT * q;
  }

  /** An address is known at most once, whatever the port. */
  lemma {:induction false} HitIsUnique(infos: Infos, byAddr: map<NetAddr, Id>, nIdCount: Id, addr: Service)
    requires Addressed(infos, byAddr, nIdCount)
    ensures Known(infos, addr)
         == if addr.ip in byAddr && byAddr[addr.ip] in infos
            && infos[byAddr[addr.ip]].addr == addr then {byAddr[addr.ip]} else {}
  {
    forall id | id in Known(infos, addr)
      ensures addr.ip in byAddr && byAddr[addr.ip] == id
    {
      assert IdOk(infos, byAddr, nIdCount, id);
    }
    if addr.ip in byAddr && byAddr[addr.ip] in infos && infos[byAddr[addr.ip]].addr == addr {
      assert byAddr[addr.ip] in Known(infos, addr);
    }
  }

  lemma {:induction false} NewIsNoCollision(k: Hashes, infos: Infos, filled: set<Slot>, collisions: set<Id>,
                                            nIdCount: Id)
    requires CollisionsOk(k, infos, filled, collisions, nIdCount)
    ensures nIdCount !in collisions
  {
    assert nIdCount in collisions ==> CollisionOk(k, infos, filled, nIdCount, nIdCount);
  }

  lemma {:induction false} FewerCollisions(k: Hashes, infos: Infos, filled: set<Slot>, collisions: set<Id>,
                                           fewer: set<Id>, nIdCount: Id)
    requires CollisionsOk(k, infos, filled, collisions, nIdCount) && fewer <= collisions
    ensures CollisionsOk(k, infos, filled, fewer, nIdCount)
  {
  }

  lemma {:induction false} SameAddressesTrans(a: Infos, b: Infos, c: Infos)
    requires SameAddresses(a, b) && SameAddresses(b, c)
    ensures SameAddresses(a, c)
  {
    assert forall id :: id in c ==> c[id].addr == b[id].addr;
  }

  /** `vAddr` are the entries `ids`, none of them terrible. */
  ghost predicate Picked(infos: Infos, ids: seq<Id>, vAddr: seq<Info>, now: int) {
    && |ids| == |vAddr|
    && forall i :: 0 <= i < |ids| ==>
         ids[i] in infos && SameEntry(infos[ids[i]], vAddr[i]) && !IsTerrible(vAddr[i], now)
  }

  /** Of the entries `done`, exactly those that are not terrible have been picked, each once. */
  ghost predicate PickedFrom(infos: Infos, done: seq<Id>, ids: seq<Id>, vAddr: seq<Info>, now: int) {
    && Picked(infos, ids, vAddr, now)
    && (forall i :: 0 <= i < |ids| ==> ids[i] in done)
    && (forall i, j :: 0 <= i < j < |ids| ==> ids[i] != ids[j])
    && (forall id :: id in done && id in infos && !IsTerrible(infos[id], now) ==> id in ids)
  }

  lemma {:induction false} PickedKept(a: Infos, b: Infos, done: seq<Id>, ids: seq<Id>, vAddr: seq<Info>, now: int)
    requires PickedFrom(a, done, ids, vAddr, now) && SameButPos(a, b)
    ensures PickedFrom(b, done, ids, vAddr, now)
  {
    forall i | 0 <= i < |ids|
      ensures ids[i] in b && SameEntry(b[ids[i]], vAddr[i])
    {
      var id := ids[i];
      assert SameEntry(a[id], b[id]);
    }
    forall id | id in done && id in b && !IsTerrible(b[id], now) ensures id in ids {
      assert SameEntry(a[id], b[id]);
    }
  }

  lemma {:induction false} PickNext(infos: Infos, done: seq<Id>, id: Id, ids: seq<Id>, vAddr: seq<Info>, now: int)
    requires PickedFrom(infos, done, ids, vAddr, now) && id in infos && id !in done
    ensures IsTerrible(infos[id], now) ==> PickedFrom(infos, done + [id], ids, vAddr, now)
    ensures !IsTerrible(infos[id], now) ==> PickedFrom(infos, done + [id], ids + [id], vAddr + [infos[id]], now)
  {
  }

  /** The next element of the random order is not among those before it. */
  lemma {:induction false} NotBefore(infos: Infos, random: seq<Id>, n: nat)
    requires Ranked(infos, random) && n < |random|
    ensures random[n] in infos && random[n] !in random[..n]
  {
    assert PosOk(infos, random, n);
    forall j: nat | j < n
      ensures random[j] != random[n]
    {
      assert PosOk(infos, random, j);
    }
  }

  lemma {:induction false} PickStep(a: Infos, b: Infos, random: seq<Id>, n: nat, ids: seq<Id>, vAddr: seq<Info>,
                                    now: int)
    requires n < |random| && PickedFrom(a, random[..n], ids, vAddr, now) && SameButPos(a, b) && Ranked(b, random)
    ensures var id := random[n];
            && id in b
            && (IsTerrible(b[id], now) ==> PickedFrom(b, random[..n + 1], ids, vAddr, now))
            && (!IsTerrible(b[id], now) ==> PickedFrom(b, random[..n + 1], ids + [id], vAddr + [b[id]], now))
  {
    PickedKept(a, b, random[..n], ids, vAddr, now);
    NotBefore(b, random, n);
    PickNext(b, random[..n], random[n], ids, vAddr, now);
    assert random[..n + 1] == random[..n] + [random[n]];
  }

  lemma {:induction false} AllPicked(infos: Infos, random: seq<Id>, n: nat, ids: seq<Id>, vAddr: seq<Info>, now: int)
    requires n == |random| && PickedFrom(infos, random[..n], ids, vAddr, now) && Ranked(infos, random)
    ensures forall id :: id in infos && !IsTerrible(infos[id], now) ==> id in ids
  {
    assert random[..n] == random;
    forall id | id in infos && !IsTerrible(infos[id], now)
      ensures id in ids
    {
      assert RankOk(infos, random, id);
    }
  }

  /** How many of `size` addresses to return at most. */
  function QuotaOf(size: nat, maxAddresses: nat, maxPct: nat): (n: nat)
    ensures maxAddresses != 0 ==> n <= maxAddresses
  {
    assert maxPct * size >= 0;
    var n := if maxPct != 0 then maxPct * size / 100 else size;
    if maxAddresses != 0 && maxAddresses < n then maxAddresses else n
  }

  lemma {:induction false} MorePending(k: Hashes, infos: Infos, tableNew: Table, tableTried: Table, pending: set<Id>,
                                       more: set<Id>)
    requires Placed(k, infos, tableNew, tableTried, pending) && pending <= more
    ensures Placed(k, infos, tableNew, tableTried, more)
  {
    forall id | id in infos
      ensures RefOk(infos, tableNew, more, id)
    {
      assert RefOk(infos, tableNew, pending, id);
    }
  }

  lemma {:induction false} CreateIndexes(infos: Infos, byAddr: map<NetAddr, Id>, random: seq<Id>, id: Id, info: Info)
    requires Addressed(infos, byAddr, id) && Ranked(infos, random)
    requires 0 <= id && info.addr.ip !in byAddr && info.nRandomPos == |random|
    ensures id !in infos
    ensures Addressed(infos[id := info], byAddr[info.addr.ip := id], id + 1)
    ensures Ranked(infos[id := info], random + [id])
  {
    var infos', byAddr', random' := infos[id := info], byAddr[info.addr.ip := id], random + [id];
    assert id in infos ==> IdOk(infos, byAddr, id, id);
    forall o | o in infos'
      ensures IdOk(infos', byAddr', id + 1, o) && RankOk(infos', random', o)
    {
      if o != id {
        assert IdOk(infos, byAddr, id, o) && RankOk(infos, random, o);
      }
    }
    forall x | x in byAddr'
      ensures AddrOk(infos', byAddr', x)
    {
      if x != info.addr.ip {
        assert AddrOk(infos, byAddr, x);
      }
    }
    forall i: nat | i < |random'|
      ensures PosOk(infos', random', i)
    {
      if i < |random| {
        assert PosOk(infos, random, i);
      }
    }
  }

  lemma {:induction false} CreatePlaced(k: Hashes, infos: Infos, tableNew: Table, tableTried: Table, id: Id, info: Info)
    requires Placed(k, infos, tableNew, tableTried, {})
    requires 0 <= id && id !in infos
    requires info.nRefCount == 0 && !info.fInTried
    ensures Placed(k, infos[id := info], tableNew, tableTried, {id})
  {
    forall s | s in tableNew
      ensures tableNew[s] != id
    {
      assert NewSlotOk(k, infos, tableNew, s);
    }
    forall s | s in tableTried
      ensures tableTried[s] != id
    {
      assert TriedSlotOk(k, infos, tableTried, s);
    }
    assert Refs(tableNew, id) == {};
    ChangeOne(k, infos, infos[id := info], tableNew, tableNew, tableTried, tableTried, {}, {id}, id);
  }

  /** An untried entry without references can go. */
  lemma {:induction false} DeleteEntry(k: Hashes, infos: Infos, tableNew: Table, tableTried: Table, pending: set<Id>,
                                       id: Id)
    requires Placed(k, infos, tableNew, tableTried, pending)
    requires id in infos && infos[id].nRefCount == 0 && !infos[id].fInTried
    ensures Placed(k, infos - {id}, tableNew, tableTried, pending - {id})
  {
    NoRefs(k, infos, tableNew, tableTried, pending, id);
    forall s | s in tableTried
      ensures tableTried[s] != id
    {
      assert TriedSlotOk(k, infos, tableTried, s);
    }
    ChangeOne(k, infos, infos - {id}, tableNew, tableNew, tableTried, tableTried, pending, pending - {id}, id);
  }

  lemma {:induction false} NoRefs(k: Hashes, infos: Infos, tableNew: Table, tableTried: Table, pending: set<Id>, id: Id)
    requires Placed(k, infos, tableNew, tableTried, pending)
    requires id in infos && infos[id].nRefCount == 0
    ensures forall s :: s in tableNew ==> tableNew[s] != id
  {
    assert RefOk(infos, tableNew, pending, id);
    forall s | s in tableNew
      ensures tableNew[s] != id
    {
      assert s in Refs(tableNew, tableNew[s]);
    }
  }

  lemma {:induction false} DeleteIndexes(infos: Infos, byAddr: map<NetAddr, Id>, random: seq<Id>, nIdCount: Id, id: Id)
    requires Addressed(infos, byAddr, nIdCount) && Ranked(infos, random)
    requires id in infos && infos[id].nRandomPos == |random| - 1 >= 0
    ensures Addressed(infos - {id}, byAddr - {infos[id].addr.ip}, nIdCount)
    ensures Ranked(infos - {id}, random[..|random| - 1])
  {
    assert RankOk(infos, random, id) && IdOk(infos, byAddr, nIdCount, id);
    DropLast(infos, random);
    forall o | o in infos - {id}
      ensures IdOk(infos - {id}, byAddr - {infos[id].addr.ip}, nIdCount, o)
    {
      assert IdOk(infos, byAddr, nIdCount, o);
    }
    forall x | x in byAddr - {infos[id].addr.ip}
      ensures AddrOk(infos - {id}, byAddr - {infos[id].addr.ip}, x)
    {
      assert AddrOk(infos, byAddr, x);
    }
  }

  /** Rewriting an entry that keeps its address and position keeps the indexes. */
  lemma {:induction false} RewriteIndexes(infos: Infos, byAddr: map<NetAddr, Id>, random: seq<Id>, nIdCount: Id,
                                          id: Id, info: Info)
    requires Addressed(infos, byAddr, nIdCount) && Ranked(infos, random)
    requires id in infos && info.addr == infos[id].addr && info.nRandomPos == infos[id].nRandomPos
    ensures Addressed(infos[id := info], byAddr, nIdCount) && Ranked(infos[id := info], random)
  {
    var infos' := infos[id := info];
    forall o | o in infos'
      ensures IdOk(infos', byAddr, nIdCount, o) && RankOk(infos', random, o)
    {
      assert IdOk(infos, byAddr, nIdCount, o) && RankOk(infos, random, o);
    }
    forall x | x in byAddr
      ensures AddrOk(infos', byAddr, x)
    {
      assert AddrOk(infos, byAddr, x);
    }
    forall i: nat | i < |random|
      ensures PosOk(infos', random, i)
    {
      assert PosOk(infos, random, i);
    }
  }

  /** Emptying a "new" slot together with its reference. */
  lemma {:induction false} DropRef(k: Hashes, infos: Infos, tableNew: Table, tableTried: Table, pending: set<Id>,
                                   s: Slot, id: Id, info: Info)
    requires Placed(k, infos, tableNew, tableTried, pending)
    requires s in tableNew && tableNew[s] == id && id in infos
    requires info == infos[id].(nRefCount := infos[id].nRefCount - 1)
    ensures info.nRefCount >= 0
    ensures Placed(k, infos[id := info], tableNew - {s}, tableTried,
                   if info.nRefCount == 0 then pending + {id} else pending)
  {
    RefsRemove(tableNew, s);
    assert RefOk(infos, tableNew, pending, id) && TriedIdOk(k, infos, tableTried, id)
           && NewSlotOk(k, infos, tableNew, s);
    forall t | t in tableNew - {s} && tableNew[t] == id
      ensures NewSlotOk(k, infos[id := info], tableNew - {s}, t)
    {
      assert NewSlotOk(k, infos, tableNew, t);
    }
    forall t | t in tableTried
      ensures tableTried[t] != id
    {
      assert TriedSlotOk(k, infos, tableTried, t);
    }
    ChangeOne(k, infos, infos[id := info], tableNew, tableNew - {s}, tableTried, tableTried, pending,
              if info.nRefCount == 0 then pending + {id} else pending, id);
  }

  /** Filling an empty "new" slot with a reference to an untried entry. */
  lemma {:induction false} AddRef(k: Hashes, infos: Infos, tableNew: Table, tableTried: Table, pending: set<Id>,
                                  s: Slot, id: Id, info: Info)
    requires Placed(k, infos, tableNew, tableTried, pending)
    requires s !in tableNew && id in infos && !infos[id].fInTried
    requires s.bucket < NEW_BUCKET_COUNT && s.pos == k.BucketPosition(true, s.bucket, infos[id].addr)
    requires info == infos[id].(nRefCount := infos[id].nRefCount + 1) && info.nRefCount <= NEW_BUCKETS_PER_ADDRESS
    ensures Placed(k, infos[id := info], tableNew[s := id], tableTried, pending - {id})
  {
    RefsUpdate(tableNew, s, id);
    assert RefOk(infos, tableNew, pending, id) && TriedIdOk(k, infos, tableTried, id);
    forall t | t in tableNew && tableNew[t] == id
      ensures NewSlotOk(k, infos[id := info], tableNew[s := id], t)
    {
      assert NewSlotOk(k, infos, tableNew, t);
    }
    forall t | t in tableTried
      ensures tableTried[t] != id
    {
      assert TriedSlotOk(k, infos, tableTried, t);
    }
    ChangeOne(k, infos, infos[id := info], tableNew, tableNew[s := id], tableTried, tableTried, pending,
              pending - {id}, id);
  }

  /** Taking an entry out of the "tried" table leaves it untried and without references. */
  lemma {:induction false} UntryEntry(k: Hashes, infos: Infos, tableNew: Table, tableTried: Table, pending: set<Id>,
                                      s: Slot, id: Id)
    requires Placed(k, infos, tableNew, tableTried, pending)
    requires s in tableTried && tableTried[s] == id
    ensures id in infos && infos[id].fInTried && infos[id].nRefCount == 0
    ensures Placed(k, infos[id := infos[id].(fInTried := false)], tableNew, tableTried - {s}, pending + {id})
  {
    assert TriedSlotOk(k, infos, tableTried, s);
    assert RefOk(infos, tableNew, pending, id) && TriedIdOk(k, infos, tableTried, id);
    NoRefs(k, infos, tableNew, tableTried, pending, id);
    forall t | t in tableTried && t != s
      ensures tableTried[t] != id
    {
      assert TriedSlotOk(k, infos, tableTried, t);
    }
    ChangeOne(k, infos, infos[id := infos[id].(fInTried := false)], tableNew, tableNew, tableTried, tableTried - {s},
              pending, pending + {id}, id);
  }

  /** Putting an untried entry without references into its empty "tried" slot. */
  lemma {:induction false} TryEntry(k: Hashes, infos: Infos, tableNew: Table, tableTried: Table, pending: set<Id>,
                                    s: Slot, id: Id)
    requires Placed(k, infos, tableNew, tableTried, pending)
    requires id in infos && !infos[id].fInTried && infos[id].nRefCount == 0
    requires s == k.TriedSlot(infos[id].addr) && s !in tableTried
    ensures Placed(k, infos[id := infos[id].(fInTried := true)], tableNew, tableTried[s := id], pending - {id})
  {
    NoRefs(k, infos, tableNew, tableTried, pending, id);
    assert RefOk(infos, tableNew, pending, id) && TriedIdOk(k, infos, tableTried, id);
    forall t | t in tableTried
      ensures tableTried[t] != id
    {
      assert TriedSlotOk(k, infos, tableTried, t);
    }
    ChangeOne(k, infos, infos[id := infos[id].(fInTried := true)], tableNew, tableNew, tableTried, tableTried[s := id],
              pending, pending - {id}, id);
  }

  // ---------------------------------------------------------------- the consistency check

  /** The filled slots are those of a table with so many buckets. */
  ghost predicate InRange(table: Table, buckets: nat) {
    forall s :: s in table ==> s.bucket < buckets && s.pos < BUCKET_SIZE
  }

  /** mapAddr[ip], which reads 0 for an unknown address. */
  function AddrOf(byAddr: map<NetAddr, Id>, ip: NetAddr): Id {
    if ip in byAddr then byAddr[ip] else 0
  }

  predicate EntryPasses(infos: Infos, byAddr: map<NetAddr, Id>, random: seq<Id>, n: Id)
    requires n in infos
  {
    var info := infos[n];
    && (if info.fInTried then info.nLastSuccess != 0 && info.nRefCount == 0
        else 0 < info.nRefCount <= NEW_BUCKETS_PER_ADDRESS)
    && AddrOf(byAddr, info.addr.ip) == n
    && 0 <= info.nRandomPos < |random| && random[info.nRandomPos] == n
    && info.nLastTry >= 0 && info.nLastSuccess >= 0
  }

  predicate TriedPasses(k: Hashes, infos: Infos, table: Table, ids: set<Id>, s: Slot)
    requires s in table
  {
    table[s] in ids && table[s] in infos && k.TriedSlot(infos[table[s]].addr) == s
  }

  predicate NewPasses(k: Hashes, infos: Infos, table: Table, ids: set<Id>, s: Slot)
    requires s in table
  {
    table[s] in ids && table[s] in infos && k.BucketPosition(true, s.bucket, infos[table[s]].addr) == s.pos
  }

  ghost predicate AllEntriesPass(infos: Infos, byAddr: map<NetAddr, Id>, random: seq<Id>) {
    forall n :: n in infos ==> EntryPasses(infos, byAddr, random, n)
  }

  ghost predicate AllTriedPass(k: Hashes, infos: Infos, table: Table, ids: set<Id>) {
    forall s :: s in table ==> TriedPasses(k, infos, table, ids, s)
  }

  ghost predicate AllNewPass(k: Hashes, infos: Infos, table: Table, ids: set<Id>) {
    forall s :: s in table ==> NewPasses(k, infos, table, ids, s)
  }

  /** Every one of the entries has a slot. */
  ghost predicate AllHeld(table: Table, ids: set<Id>) {
    forall id :: id in ids ==> exists s :: s in table && table[s] == id
  }

  /** Every one of the entries has as many slots as it has references. */
  ghost predicate CountsExact(infos: Infos, table: Table, ids: set<Id>) {
    forall id :: id in ids && id in infos ==> |Refs(table, id)| == infos[id].nRefCount
  }

  /** Any element; the order of mapInfo is not specified. */
  method Pick<T>(s: set<T>) returns (x: T)
    requires s != {}
    ensures x in s
  {
    x :| x in s;
  }

  /** The tests on one entry of mapInfo. */
  method CheckEntry(infos: Infos, byAddr: map<NetAddr, Id>, random: seq<Id>, n: Id) returns (code: int)
    requires n in infos
    ensures code == 0 <==> EntryPasses(infos, byAddr, random, n)
  {
    var info := infos[n];
    if info.fInTried {
      if info.nLastSuccess == 0 {
        return -1;
      }
      if info.nRefCount != 0 {
        return -2;
      }
    } else {
      if info.nRefCount < 0 || info.nRefCount > NEW_BUCKETS_PER_ADDRESS {
        return -3;
      }
      if info.nRefCount == 0 {
        return -4;
      }
    }
    if AddrOf(byAddr, info.addr.ip) != n {
      return -5;
    }
    if info.nRandomPos < 0 || info.nRandomPos >= |random| || random[info.nRandomPos] != n {
      return -14;
    }
    if info.nLastTry < 0 {
      return -6;
    }
    if info.nLastSuccess < 0 {
      return -8;
    }
    return 0;
  }

  ghost predicate RefsOf(infos: Infos, refs: map<Id, int>) {
    forall n :: n in refs ==> n in infos && refs[n] == infos[n].nRefCount > 0
  }

  /** All entries but `rest` have passed and are on their lists. */
  ghost predicate EntriesSoFar(infos: Infos, byAddr: map<NetAddr, Id>, random: seq<Id>, rest: set<Id>,
                               setTried: set<Id>, mapNew: map<Id, int>) {
    && (forall n :: n in infos && n !in rest ==> EntryPasses(infos, byAddr, random, n))
    && setTried == TriedIds(infos) - rest && mapNew.Keys == NewIds(infos) - rest
    && RefsOf(infos, mapNew)
  }

  /** The first loop of Check_: the tried entries, and the reference counts of the others. */
  method CheckEntries(infos: Infos, byAddr: map<NetAddr, Id>, random: seq<Id>)
      returns (code: int, setTried: set<Id>, mapNew: map<Id, int>)
    ensures code == 0 <==> AllEntriesPass(infos, byAddr, random)
    ensures code == 0 ==> setTried == TriedIds(infos) && mapNew.Keys == NewIds(infos) && RefsOf(infos, mapNew)
  {
    code, setTried, mapNew := 0, {}, map[];
    var rest := infos.Keys;
    while rest != {}
      invariant rest <= infos.Keys && code == 0
      invariant EntriesSoFar(infos, byAddr, random, rest, setTried, mapNew)
      decreases rest
    {
      var n := Pick(rest);
      code := CheckEntry(infos, byAddr, random, n);
      if code != 0 {
        return;
      }
      if infos[n].fInTried {
        setTried := setTried + {n};
      } else {
        mapNew := mapNew[n := infos[n].nRefCount];
      }
      rest := rest - {n};
    }
  }

  /** Table order: bucket by bucket. */
  predicate Before(s: Slot, n: nat, i: nat) {
    s.bucket < n || (s.bucket == n && s.pos < i)
  }

  /** The slots up to the `i`-th of bucket `n` have passed, and their entries are off the list. */
  ghost predicate TriedSoFar(k: Hashes, infos: Infos, table: Table, ids: set<Id>, left: set<Id>, n: nat, i: nat) {
    && (forall s :: s in table && Before(s, n, i) ==> TriedPasses(k, infos, table, ids, s) && table[s] !in left)
    && left <= ids
    && (forall id :: id in ids && id !in left ==> Listed(k, infos, table, id, n, i))
  }

  ghost predicate Listed(k: Hashes, infos: Infos, table: Table, id: Id, n: nat, i: nat) {
    && id in infos
    && var s := k.TriedSlot(infos[id].addr); s in table && table[s] == id && Before(s, n, i)
  }

  lemma {:induction false} TriedRow(k: Hashes, infos: Infos, table: Table, ids: set<Id>, left: set<Id>, n: nat)
    requires InRange(table, TRIED_BUCKET_COUNT) && TriedSoFar(k, infos, table, ids, left, n, BUCKET_SIZE)
    ensures TriedSoFar(k, infos, table, ids, left, n + 1, 0)
  {
  }

  lemma {:induction false} TriedDone(k: Hashes, infos: Infos, table: Table, ids: set<Id>, left: set<Id>)
    requires InRange(table, TRIED_BUCKET_COUNT) && TriedSoFar(k, infos, table, ids, left, TRIED_BUCKET_COUNT, 0)
    ensures AllTriedPass(k, infos, table, ids)
    ensures left == {} <==> AllHeld(table, ids)
  {
    if left == {} {
      forall id | id in ids
        ensures exists s :: s in table && table[s] == id
      {
        assert Listed(k, infos, table, id, TRIED_BUCKET_COUNT, 0);
      }
    } else if AllHeld(table, ids) {
      assert forall id :: id !in left;
    }
  }

  /** The second loop of Check_: what is left of the tried entries once the "tried" table has been read. */
  method CheckTried(k: Hashes, infos: Infos, table: Table, ids: set<Id>) returns (code: int, left: set<Id>)
    requires InRange(table, TRIED_BUCKET_COUNT) && ids <= infos.Keys
    ensures code == 0 <==> AllTriedPass(k, infos, table, ids)
    ensures code == 0 ==> (left == {} <==> AllHeld(table, ids))
  {
    code, left := 0, ids;
    for n := 0 to TRIED_BUCKET_COUNT
      invariant code == 0 && TriedSoFar(k, infos, table, ids, left, n, 0)
    {
      for i := 0 to BUCKET_SIZE
        invariant code == 0 && TriedSoFar(k, infos, table, ids, left, n, i)
      {
        var s := Slot(n, i);
        if s in table {
          var id := table[s];
          if id !in left {
            code := -11;
          } else if k.tried(infos[id].addr) % TRIED_BUCKET_COUNT != n {
            code := -17;
          } else if k.BucketPosition(false, n, infos[id].addr) != i {
            code := -18;
          }
          if code != 0 {
            assert !TriedPasses(k, infos, table, ids, s);
            return;
          }
          left := left - {id};
        }
      }
      TriedRow(k, infos, table, ids, left, n);
    }
    TriedDone(k, infos, table, ids, left);
  }

  ghost function Seen(table: Table, id: Id, n: nat, i: nat): set<Slot> {
    set s | s in table && table[s] == id && Before(s, n, i)
  }

  /** The slots up to the `i`-th of bucket `n` have passed, and each count is down by the references among them. */
  ghost predicate NewSoFar(k: Hashes, infos: Infos, table: Table, refs: map<Id, int>, left: map<Id, int>, n: nat,
                           i: nat) {
    && (forall s :: s in table && Before(s, n, i) ==> NewPasses(k, infos, table, refs.Keys, s))
    && left.Keys <= refs.Keys
    && (forall id :: id in refs ==> CountedDown(table, refs, left, id, n, i))
  }

  ghost predicate CountedDown(table: Table, refs: map<Id, int>, left: map<Id, int>, id: Id, n: nat, i: nat)
    requires id in refs
  {
    var c := |Seen(table, id, n, i)|;
    if id in left then left[id] == refs[id] - c > 0 else refs[id] == c
  }

  lemma {:induction false} SeenStep(table: Table, id: Id, n: nat, i: nat)
    ensures var s := Slot(n, i);
            |Seen(table, id, n, i + 1)| == |Seen(table, id, n, i)| + One(s in table && table[s] == id)
  {
    var s := Slot(n, i);
    if s in table && table[s] == id {
      assert Seen(table, id, n, i + 1) == Seen(table, id, n, i) + {s};
    } else {
      assert Seen(table, id, n, i + 1) == Seen(table, id, n, i);
    }
  }

  lemma {:induction false} NewRow(k: Hashes, infos: Infos, table: Table, refs: map<Id, int>, left: map<Id, int>, n: nat)
    requires InRange(table, NEW_BUCKET_COUNT) && NewSoFar(k, infos, table, refs, left, n, BUCKET_SIZE)
    ensures NewSoFar(k, infos, table, refs, left, n + 1, 0)
  {
    forall id | id in refs
      ensures CountedDown(table, refs, left, id, n + 1, 0)
    {
      assert CountedDown(table, refs, left, id, n, BUCKET_SIZE);
      assert Seen(table, id, n + 1, 0) == Seen(table, id, n, BUCKET_SIZE);
    }
  }

  /** One more reference than counted. */
  lemma {:induction false} TooMany(table: Table, id: Id, n: nat, i: nat)
    requires var s := Slot(n, i); s in table && table[s] == id
    ensures |Refs(table, id)| > |Seen(table, id, n, i)|
  {
    SeenStep(table, id, n, i);
    SubsetSize(Seen(table, id, n, i + 1), Refs(table, id));
  }

  lemma {:induction false} NewStep(k: Hashes, infos: Infos, table: Table, refs: map<Id, int>, left: map<Id, int>,
                                   left': map<Id, int>, n: nat, i: nat)
    requires NewSoFar(k, infos, table, refs, left, n, i)
    requires var s := Slot(n, i);
             if s in table
             then table[s] in left && NewPasses(k, infos, table, refs.Keys, s) && left' == LessOne(left, table[s])
             else left' == left
    ensures NewSoFar(k, infos, table, refs, left', n, i + 1)
  {
    forall id | id in refs
      ensures CountedDown(table, refs, left', id, n, i + 1)
    {
      assert CountedDown(table, refs, left, id, n, i);
      SeenStep(table, id, n, i);
    }
  }

  /** --mapNew[id], erased at zero. */
  function LessOne(m: map<Id, int>, id: Id): map<Id, int>
    requires id in m
  {
    if m[id] - 1 == 0 then m - {id} else m[id := m[id] - 1]
  }

  /** The third loop of Check_: what is left of the reference counts once the "new" table has been read. */
  method CheckNew(k: Hashes, infos: Infos, table: Table, refs: map<Id, int>) returns (code: int, left: map<Id, int>)
    requires InRange(table, NEW_BUCKET_COUNT) && RefsOf(infos, refs)
    ensures code == 0 && left.Keys == {} <==>
            AllNewPass(k, infos, table, refs.Keys) && CountsExact(infos, table, refs.Keys)
  {
    code, left := 0, refs;
    assert forall id :: Seen(table, id, 0, 0) == {};
    for n := 0 to NEW_BUCKET_COUNT
      invariant code == 0 && NewSoFar(k, infos, table, refs, left, n, 0)
    {
      for i := 0 to BUCKET_SIZE
        invariant code == 0 && NewSoFar(k, infos, table, refs, left, n, i)
      {
        var s := Slot(n, i);
        ghost var left0 := left;
        if s in table {
          var id := table[s];
          if id !in left {
            if id in refs {
              assert CountedDown(table, refs, left, id, n, i);
              TooMany(table, id, n, i);
            }
            return -12, left;
          }
          if k.BucketPosition(true, n, infos[id].addr) != i {
            assert !NewPasses(k, infos, table, refs.Keys, s);
            return -19, left;
          }
          left := LessOne(left, id);
        }
        NewStep(k, infos, table, refs, left0, left, n, i);
      }
      NewRow(k, infos, table, refs, left, n);
    }
    AllSeen(k, infos, table, refs, left);
  }

  lemma {:induction false} AllSeen(k: Hashes, infos: Infos, table: Table, refs: map<Id, int>, left: map<Id, int>)
    requires InRange(table, NEW_BUCKET_COUNT) && NewSoFar(k, infos, table, refs, left, NEW_BUCKET_COUNT, 0)
    requires RefsOf(infos, refs)
    ensures AllNewPass(k, infos, table, refs.Keys)
    ensures left.Keys == {} <==> CountsExact(infos, table, refs.Keys)
  {
    forall id | id in refs
      ensures id in left <==> |Refs(table, id)| != infos[id].nRefCount
    {
      assert Seen(table, id, NEW_BUCKET_COUNT, 0) == Refs(table, id);
      assert CountedDown(table, refs, left, id, NEW_BUCKET_COUNT, 0);
    }
    assert forall id :: id in left ==> id in refs;
    if CountsExact(infos, table, refs.Keys) {
      assert forall id :: id !in left;
    }
  }

  datatype Selection = Nothing | Selected(info: Info)

  class CAddrMan {
    const k: Hashes
    const isRoutable: NetAddr -> bool
    const isValid: NetAddr -> bool

    var nIdCount: Id
    var mapInfo: Infos
    var mapAddr: map<NetAddr, Id>
    var vRandom: seq<Id>
    var nTried: int
    var vvTried: Table
    var nNew: int
    var vvNew: Table
    var nLastGood: int
    var m_tried_collisions: set<Id>

    ghost predicate Consistent(pending: set<Id>)
      reads this
    {
      && 0 <= nIdCount
      && Addressed(mapInfo, mapAddr, nIdCount)
      && Ranked(mapInfo, vRandom)
      && Placed(k, mapInfo, vvNew, vvTried, pending)
    }

    /** The joint invariant, with exact counters. */
    ghost predicate Valid()
      reads this
    {
      && Consistent({})
      && CollisionsOk(k, mapInfo, vvTried.Keys, m_tried_collisions, nIdCount)
      && nNew == |NewIds(mapInfo)|
      && nTried == |TriedIds(mapInfo)|
    }

    constructor (k: Hashes, isRoutable: NetAddr -> bool, isValid: NetAddr -> bool)
      ensures Valid() && mapInfo == map[]
    {
      this.k, this.isRoutable, this.isValid := k, isRoutable, isValid;
      nIdCount, mapInfo, mapAddr, vRandom := 0, map[], map[], [];
      nTried, vvTried, nNew, vvNew, nLastGood := 0, map[], 0, map[], 1;
      m_tried_collisions := {};
    }

    method Find(ip: NetAddr) returns (found: bool, id: Id)
      requires Addressed(mapInfo, mapAddr, nIdCount)
      ensures found ==> id in mapInfo && mapInfo[id].addr.ip == ip && ip in mapAddr && mapAddr[ip] == id
      ensures !found ==> ip !in mapAddr && forall i :: i in mapInfo ==> mapInfo[i].addr.ip != ip
    {
      forall i | i in mapInfo
        ensures mapInfo[i].addr.ip in mapAddr
      {
        assert IdOk(mapInfo, mapAddr, nIdCount, i);
      }
      if ip !in mapAddr {
        return false, -1;
      }
      assert AddrOk(mapInfo, mapAddr, ip);
      id := mapAddr[ip];
      found := id in mapInfo;
    }

    method SwapRandom(p1: nat, p2: nat)
      requires Ranked(mapInfo, vRandom)
      requires p1 < |vRandom| && p2 < |vRandom|
      modifies this`mapInfo, this`vRandom
      ensures Ranked(mapInfo, vRandom)
      ensures vRandom == old(vRandom)[p1 := old(vRandom)[p2]][p2 := old(vRandom)[p1]]
      ensures SameButPos(old(mapInfo), mapInfo)
    {
      if p1 == p2 {
        return;
      }
      var id1, id2 := vRandom[p1], vRandom[p2];
      SwapRanked(mapInfo, vRandom, p1, p2);
      mapInfo := mapInfo[id1 := mapInfo[id1].(nRandomPos := p2)][id2 := mapInfo[id2].(nRandomPos := p1)];
      vRandom := vRandom[p1 := id2][p2 := id1];
    }

    method Create(addr: Service, nTime: int, nServices: set<nat>, source: NetAddr) returns (id: Id)
      requires Consistent({})
      requires addr.ip !in mapAddr
      modifies this`nIdCount, this`mapInfo, this`mapAddr, this`vRandom
      ensures nIdCount == old(nIdCount) + 1 && id == old(nIdCount) && id !in old(mapInfo)
      ensures mapInfo == old(mapInfo)[id := Info(addr, nTime, nServices, source, 0, 0, 0, 0, 0, false, |old(vRandom)|)]
      ensures Consistent({id})
      ensures |NewIds(mapInfo)| == |NewIds(old(mapInfo))| + 1 && |TriedIds(mapInfo)| == |TriedIds(old(mapInfo))|
    {
      id := nIdCount;
      var info := Info(addr, nTime, nServices, source, 0, 0, 0, 0, 0, false, |vRandom|);
      CreateIndexes(mapInfo, mapAddr, vRandom, id, info);
      CreatePlaced(k, mapInfo, vvNew, vvTried, id, info);
      IdsUpdate(mapInfo, id, info);
      nIdCount := nIdCount + 1;
      mapInfo := mapInfo[id := info];
      mapAddr := mapAddr[addr.ip := id];
      vRandom := vRandom + [id];
    }

    method Delete(id: Id, ghost pending: set<Id>)
      requires Consistent(pending)
      requires id in mapInfo && !mapInfo[id].fInTried && mapInfo[id].nRefCount == 0
      modifies this`mapInfo, this`mapAddr, this`vRandom, this`nNew
      ensures Consistent(pending - {id})
      ensures SameButPos(old(mapInfo) - {id}, mapInfo) && TimesKept(old(mapInfo), mapInfo, {})
      ensures nNew - |NewIds(mapInfo)| == old(nNew - |NewIds(mapInfo)|)
      ensures |TriedIds(mapInfo)| == |TriedIds(old(mapInfo))|
    {
      assert RankOk(mapInfo, vRandom, id);
      IdsRemove(mapInfo, id);
      SwapRandom(mapInfo[id].nRandomPos, |vRandom| - 1);
      AddressedSameButPos(old(mapInfo), mapInfo, mapAddr, nIdCount);
      PlacedSameButPos(k, old(mapInfo), mapInfo, vvNew, vvTried, pending);
      IdsRemove(mapInfo, id);
      assert SameEntry(old(mapInfo)[id], mapInfo[id]) && PosOk(mapInfo, vRandom, |vRandom| - 1);
      DeleteEntry(k, mapInfo, vvNew, vvTried, pending, id);
      DeleteIndexes(mapInfo, mapAddr, vRandom, nIdCount, id);
      vRandom := vRandom[..|vRandom| - 1];
      mapAddr := mapAddr - {mapInfo[id].addr.ip};
      mapInfo := mapInfo - {id};
      nNew := nNew - 1;
    }

    /** Empties a "new" slot; an entry that loses its last reference is deleted. */
    method ClearNew(s: Slot, ghost pending: set<Id>)
      requires Consistent(pending)
      requires s in vvNew ==> vvNew[s] !in pending
      modifies this`mapInfo, this`mapAddr, this`vRandom, this`nNew, this`vvNew
      ensures Consistent(pending) && vvNew == old(vvNew) - {s}
      ensures SameAddresses(old(mapInfo), mapInfo) && TimesKept(old(mapInfo), mapInfo, {})
      ensures Untouched(old(mapInfo), mapInfo, Victim(old(mapInfo), old(vvNew), s, {}))
      ensures LosesRef(old(mapInfo), mapInfo, old(vvNew), s)
      ensures nNew - |NewIds(mapInfo)| == old(nNew - |NewIds(mapInfo)|)
      ensures |TriedIds(mapInfo)| == |TriedIds(old(mapInfo))|
    {
      if s in vvNew {
        var id := vvNew[s];
        assert NewSlotOk(k, mapInfo, vvNew, s);
        var info := mapInfo[id].(nRefCount := mapInfo[id].nRefCount - 1);
        RewriteIndexes(mapInfo, mapAddr, vRandom, nIdCount, id, info);
        DropRef(k, mapInfo, vvNew, vvTried, pending, s, id, info);
        IdsUpdate(mapInfo, id, info);
        mapInfo := mapInfo[id := info];
        vvNew := vvNew - {s};
        if mapInfo[id].nRefCount == 0 {
          Delete(id, pending + {id});
          assert pending + {id} - {id} == pending;
        }
      } else {
        assert vvNew - {s} == vvNew;
      }
    }

    /** The first part of MakeTried: removes all references to an entry from the "new" table. */
    method RemoveFromNew(id: Id)
      requires Consistent({}) && id in mapInfo && !mapInfo[id].fInTried
      modifies this`mapInfo, this`vvNew
      ensures Consistent({id})
      ensures id in mapInfo && mapInfo == old(mapInfo)[id := old(mapInfo)[id].(nRefCount := 0)]
      ensures vvNew == Without(old(vvNew), id)
    {
      MorePending(k, mapInfo, vvNew, vvTried, {}, {id});
      for bucket := 0 to NEW_BUCKET_COUNT
        invariant Consistent({id})
        invariant id in mapInfo && mapInfo == old(mapInfo)[id := old(mapInfo)[id].(nRefCount := mapInfo[id].nRefCount)]
        invariant forall s :: s in vvNew && vvNew[s] == id ==> s.bucket >= bucket
        invariant forall t :: t in vvNew ==> t in old(vvNew) && vvNew[t] == old(vvNew)[t]
        invariant forall t :: t in old(vvNew) && old(vvNew)[t] != id ==> t in vvNew
      {
        var s := Slot(bucket, k.BucketPosition(true, bucket, mapInfo[id].addr));
        forall t | t in vvNew && vvNew[t] == id && t.bucket == bucket
          ensures t == s
        {
          assert NewSlotOk(k, mapInfo, vvNew, t);
        }
        if s in vvNew && vvNew[s] == id {
          var info := mapInfo[id].(nRefCount := mapInfo[id].nRefCount - 1);
          RewriteIndexes(mapInfo, mapAddr, vRandom, nIdCount, id, info);
          DropRef(k, mapInfo, vvNew, vvTried, {id}, s, id, info);
          assert {id} + {id} == {id};
          vvNew := vvNew - {s};
          mapInfo := mapInfo[id := info];
        }
      }
      forall t | t in vvNew
        ensures vvNew[t] != id
      {
        assert NewSlotOk(k, mapInfo, vvNew, t);
      }
      assert Refs(vvNew, id) == {};
      assert RefOk(mapInfo, vvNew, {id}, id);
    }

    /** The middle part of MakeTried: the occupant of a tried slot goes back to the "new" table. */
    method EvictTried(s: Slot, ghost id: Id)
      requires Consistent({id}) && s in vvTried
      requires id in mapInfo && !mapInfo[id].fInTried && mapInfo[id].nRefCount == 0
      modifies this`mapInfo, this`mapAddr, this`vRandom, this`nNew, this`vvNew, this`nTried, this`vvTried
      ensures Consistent({id}) && vvTried == old(vvTried) - {s} && TimesKept(old(mapInfo), mapInfo, {})
      ensures SameAddresses(old(mapInfo), mapInfo) && id in mapInfo && SameEntry(old(mapInfo)[id], mapInfo[id])
      ensures old(vvTried)[s] != id && BackToNew(old(mapInfo), old(vvTried)[s])
      ensures var u := ReturnSlot(old(mapInfo), old(vvTried)[s]);
              vvNew == old(vvNew)[u := old(vvTried)[s]] && LosesRef(old(mapInfo), mapInfo, old(vvNew), u)
      ensures Untouched(old(mapInfo), mapInfo, Displaced(old(mapInfo), old(vvNew), old(vvTried), s, {}))
      ensures nNew - |NewIds(mapInfo)| == old(nNew - |NewIds(mapInfo)|)
      ensures nTried - |TriedIds(mapInfo)| == old(nTried - |TriedIds(mapInfo)|)
    {
      var e := vvTried[s];
      assert TriedSlotOk(k, mapInfo, vvTried, s);
      ghost var untried := mapInfo[e].(fInTried := false);
      UntryEntry(k, mapInfo, vvNew, vvTried, {id}, s, e);
      RewriteIndexes(mapInfo, mapAddr, vRandom, nIdCount, e, untried);
      IdsUpdate(mapInfo, e, untried);
      mapInfo := mapInfo[e := mapInfo[e].(fInTried := false)];
      vvTried := vvTried - {s};
      nTried := nTried - 1;
      ReturnToNew(e, id);
    }

    /** Enters an entry without references into the "new" slot that its source stands for. */
    method ReturnToNew(e: Id, ghost id: Id)
      requires Consistent({id} + {e}) && id in mapInfo && !mapInfo[id].fInTried && mapInfo[id].nRefCount == 0
      requires e in mapInfo && e != id && !mapInfo[e].fInTried && mapInfo[e].nRefCount == 0
      modifies this`mapInfo, this`mapAddr, this`vRandom, this`nNew, this`vvNew
      ensures Consistent({id}) && TimesKept(old(mapInfo), mapInfo, {}) && SameAddresses(old(mapInfo), mapInfo)
      ensures e in mapInfo && SameEntry(old(mapInfo)[e].(nRefCount := 1), mapInfo[e])
      ensures var u := ReturnSlot(old(mapInfo), e);
              && vvNew == old(vvNew)[u := e] && LosesRef(old(mapInfo), mapInfo, old(vvNew), u)
              && Untouched(old(mapInfo), mapInfo, Victim(old(mapInfo), old(vvNew), u, {e}))
              && (u in old(vvNew) ==> old(vvNew)[u] != id && old(vvNew)[u] != e)
      ensures nNew - |NewIds(mapInfo)| == old(nNew - |NewIds(mapInfo)|) + 1
      ensures |TriedIds(mapInfo)| == |TriedIds(old(mapInfo))|
    {
      var u := k.NewSlot(mapInfo[e].addr, mapInfo[e].source);
      NoRefs(k, mapInfo, vvNew, vvTried, {id} + {e}, id);
      NoRefs(k, mapInfo, vvNew, vvTried, {id} + {e}, e);
      ClearNew(u, {id} + {e});

      ghost var info := mapInfo[e].(nRefCount := mapInfo[e].nRefCount + 1);
      AddRef(k, mapInfo, vvNew, vvTried, {id} + {e}, u, e, info);
      assert {id} + {e} - {e} == {id};
      RewriteIndexes(mapInfo, mapAddr, vRandom, nIdCount, e, info);
      IdsUpdate(mapInfo, e, info);
      mapInfo := mapInfo[e := mapInfo[e].(nRefCount := 1)];
      vvNew := vvNew[u := e];
      nNew := nNew + 1;
    }

    /** The last part of MakeTried: fills an empty tried slot with an entry that has no references. */
    method EnterTried(id: Id, s: Slot)
      requires Consistent({id}) && id in mapInfo
      requires !mapInfo[id].fInTried && mapInfo[id].nRefCount == 0
      requires s == k.TriedSlot(mapInfo[id].addr) && s !in vvTried
      modifies this`mapInfo, this`nTried, this`vvTried
      ensures Consistent({})
      ensures mapInfo == old(mapInfo)[id := old(mapInfo)[id].(fInTried := true)] && vvTried == old(vvTried)[s := id]
      ensures |NewIds(mapInfo)| == old(|NewIds(mapInfo)|) - 1
      ensures nTried - |TriedIds(mapInfo)| == old(nTried - |TriedIds(mapInfo)|)
    {
      TryEntry(k, mapInfo, vvNew, vvTried, {id}, s, id);
      ghost var info := mapInfo[id].(fInTried := true);
      RewriteIndexes(mapInfo, mapAddr, vRandom, nIdCount, id, info);
      IdsUpdate(mapInfo, id, info);
      assert {id} - {id} == {};
      vvTried := vvTried[s := id];
      nTried := nTried + 1;
      mapInfo := mapInfo[id := mapInfo[id].(fInTried := true)];
    }

    /**
     Moves an untried entry to its slot of the "tried" table; the occupant, if any, goes back to "new".
     Every counter is exact again and every slot of the "tried" table that was filled is still filled.
     */
    method MakeTried(id: Id)
      requires Valid() && id in mapInfo && !mapInfo[id].fInTried
      modifies this`mapInfo, this`mapAddr, this`vRandom, this`nNew, this`vvNew, this`nTried, this`vvTried
      ensures Valid() && SameAddresses(old(mapInfo), mapInfo) && TimesKept(old(mapInfo), mapInfo, {id})
      ensures id in mapInfo && mapInfo[id].fInTried && mapInfo[id].nRefCount == 0
      ensures SameEntry(old(mapInfo)[id].(fInTried := true, nRefCount := 0), mapInfo[id])
      ensures vvTried == old(vvTried)[k.TriedSlot(mapInfo[id].addr) := id]
      ensures var s := k.TriedSlot(mapInfo[id].addr);
              && Untouched(old(mapInfo), mapInfo, Displaced(old(mapInfo), old(vvNew), old(vvTried), s, {id}))
              && (s in old(vvTried) ==> BackToNew(old(mapInfo), old(vvTried)[s]))
              && Returned(old(mapInfo), old(vvNew), old(vvTried), s, id)
    {
      ghost var infos0, new0, tried0 := mapInfo, vvNew, vvTried;
      IdsUpdate(mapInfo, id, mapInfo[id].(nRefCount := 0));
      RemoveFromNew(id);
      ghost var infos1, new1 := mapInfo, vvNew;
      nNew := nNew - 1;
      var s := k.TriedSlot(mapInfo[id].addr);
      if s in vvTried {
        EvictTried(s, id);
      }
      ghost var infos2 := mapInfo;
      EnterTried(id, s);
      if s in tried0 {
        LosesRefStill(infos0, infos1, infos2, mapInfo, new1, ReturnSlot(infos1, tried0[s]), id);
      }
      Refill(tried0, s, id);
      MoveComposes(infos0, infos1, infos2, mapInfo, new0, new1, tried0, s, id);
      CollisionsStay(k, infos0, mapInfo, tried0.Keys, vvTried.Keys, m_tried_collisions, nIdCount);
    }

    /** The three parts of MakeTried together. */
    lemma {:induction false} MoveComposes(infos0: Infos, infos1: Infos, infos2: Infos, infos3: Infos, new0: Table,
                                          new1: Table, tried: Table, s: Slot, id: Id)
      requires id in infos0 && infos1 == infos0[id := infos0[id].(nRefCount := 0)]
      requires forall t :: t in new1 ==> t in new0 && new1[t] == new0[t]
      requires id in infos2 && SameEntry(infos1[id], infos2[id]) && (s in tried ==> tried[s] != id)
      requires SameAddresses(infos1, infos2) && TimesKept(infos1, infos2, {})
      requires Untouched(infos1, infos2, Displaced(infos1, new1, tried, s, {}))
      requires infos3 == infos2[id := infos2[id].(fInTried := true)]
      ensures SameAddresses(infos0, infos3) && TimesKept(infos0, infos3, {id})
      ensures SameEntry(infos0[id].(fInTried := true, nRefCount := 0), infos3[id])
      ensures Untouched(infos0, infos3, Displaced(infos0, new0, tried, s, {id}))
    {
      forall o | o in infos0 && o !in Displaced(infos0, new0, tried, s, {id})
        ensures o in infos3 && SameEntry(infos0[o], infos3[o])
      {
        assert o != id && o in infos1 && !Displaces(infos0, new0, tried, s, o);
        assert o !in Displaced(infos1, new1, tried, s, {});
      }
    }

    /** Rewrites the statistics of an entry. */
    method UpdateStats(id: Id, info: Info)
      requires Valid() && id in mapInfo
      requires info == mapInfo[id].(nTime := info.nTime, nServices := info.nServices, nLastTry := info.nLastTry,
                                    nLastCountAttempt := info.nLastCountAttempt, nLastSuccess := info.nLastSuccess,
                                    nAttempts := info.nAttempts)
      modifies this`mapInfo
      ensures Valid() && mapInfo == old(mapInfo)[id := info]
    {
      assert RefOk(mapInfo, vvNew, {}, id) && TriedIdOk(k, mapInfo, vvTried, id);
      IdsUpdate(mapInfo, id, info);
      RewriteIndexes(mapInfo, mapAddr, vRandom, nIdCount, id, info);
      StatsPlaced(k, mapInfo, vvNew, vvTried, id, info);
      CollisionsKept(k, mapInfo, mapInfo[id := info], vvTried.Keys, vvTried.Keys, m_tried_collisions, nIdCount,
                     nIdCount);
      mapInfo := mapInfo[id := info];
    }

    method Attempt(addr: Service, fCountFailure: bool, nTime: int)
      requires Valid()
      modifies this`mapInfo
      ensures Valid() && (Known(old(mapInfo), addr) == {} ==> mapInfo == old(mapInfo))
      ensures TimesOk(old(mapInfo)) && nTime >= 0 ==> TimesOk(mapInfo)
      ensures forall id :: id in Known(old(mapInfo), addr) ==>
                var was := old(mapInfo)[id];
                mapInfo == old(mapInfo)[id :=
                  if fCountFailure && was.nLastCountAttempt < nLastGood
                  then was.(nLastTry := nTime, nLastCountAttempt := nTime, nAttempts := was.nAttempts + 1)
                  else was.(nLastTry := nTime)]
    {
      HitIsUnique(mapInfo, mapAddr, nIdCount, addr);
      var found, id := Find(addr.ip);
      if !found || mapInfo[id].addr != addr {
        return;
      }
      var info := mapInfo[id].(nLastTry := nTime);
      if fCountFailure && info.nLastCountAttempt < nLastGood {
        info := info.(nLastCountAttempt := nTime, nAttempts := info.nAttempts + 1);
      }
      assert TriedIdOk(k, mapInfo, vvTried, id);
      UpdateStats(id, info);
    }

    method Connected(addr: Service, nTime: int)
      requires Valid()
      modifies this`mapInfo
      ensures Valid() && (Known(old(mapInfo), addr) == {} ==> mapInfo == old(mapInfo))
      ensures TimesOk(old(mapInfo)) ==> TimesOk(mapInfo)
      ensures forall id :: id in Known(old(mapInfo), addr) ==>
                var was := old(mapInfo)[id];
                mapInfo == old(mapInfo)[id := if nTime - was.nTime > 20 * 60 then was.(nTime := nTime) else was]
    {
      HitIsUnique(mapInfo, mapAddr, nIdCount, addr);
      var found, id := Find(addr.ip);
      if !found || mapInfo[id].addr != addr {
        return;
      }
      if nTime - mapInfo[id].nTime > 20 * 60 {
        assert TriedIdOk(k, mapInfo, vvTried, id);
        UpdateStats(id, mapInfo[id].(nTime := nTime));
      }
    }

    method SetServices(addr: Service, nServices: set<nat>)
      requires Valid()
      modifies this`mapInfo
      ensures Valid() && (Known(old(mapInfo), addr) == {} ==> mapInfo == old(mapInfo))
      ensures TimesOk(old(mapInfo)) ==> TimesOk(mapInfo)
      ensures forall id :: id in Known(old(mapInfo), addr) ==>
                mapInfo == old(mapInfo)[id := old(mapInfo)[id].(nServices := nServices)]
    {
      HitIsUnique(mapInfo, mapAddr, nIdCount, addr);
      var found, id := Find(addr.ip);
      if !found || mapInfo[id].addr != addr {
        return;
      }
      assert TriedIdOk(k, mapInfo, vvTried, id);
      UpdateStats(id, mapInfo[id].(nServices := nServices));
    }

    /** The search for a bucket that holds an untried entry always succeeds. */
    method FindNewBucket(id: Id, nRnd: nat) returns (nUBucket: int)
      requires Valid() && id in mapInfo && !mapInfo[id].fInTried
      ensures 0 <= nUBucket < NEW_BUCKET_COUNT
      ensures var s := Slot(nUBucket, k.BucketPosition(true, nUBucket, mapInfo[id].addr)); s in vvNew && vvNew[s] == id
    {
      assert RefOk(mapInfo, vvNew, {}, id);
      ghost var ref :| ref in Refs(vvNew, id);
      assert NewSlotOk(k, mapInfo, vvNew, ref);
      ghost var n0 := (ref.bucket - nRnd) % NEW_BUCKET_COUNT;
      ModShift(ref.bucket, nRnd);
      for n := 0 to NEW_BUCKET_COUNT
        invariant n <= n0
      {
        var nB := (n + nRnd) % NEW_BUCKET_COUNT;
        var s := Slot(nB, k.BucketPosition(true, nB, mapInfo[id].addr));
        if s in vvNew && vvNew[s] == id {
          return nB;
        }
        assert n != n0;
      }
      assert false;
    }

    /**
     Marks an address as good.  A known untried entry moves to the "tried" table, unless its slot is taken and the
     occupant is to be tested first; then it waits, if there is room.  Filled tried slots stay filled.
     */
    method Good(addr: Service, testBeforeEvict: bool, nTime: int, nRnd: nat) returns (ghost hit: bool, ghost id: Id)
      requires Valid()
      modifies this
      ensures Valid() && SameAddresses(old(mapInfo), mapInfo) && old(vvTried).Keys <= vvTried.Keys
      ensures nLastGood == nTime && nIdCount == old(nIdCount)
      ensures TimesOk(old(mapInfo)) && nTime > 0 ==> TimesOk(mapInfo)
      ensures Known(old(mapInfo), addr) == if hit then {id} else {}
      ensures !hit ==>
                mapInfo == old(mapInfo) && vvTried == old(vvTried) && m_tried_collisions == old(m_tried_collisions)
      ensures hit ==>
                && id in mapInfo
                && Promoted(old(mapInfo)[id := Succeeded(old(mapInfo)[id], nTime)], old(vvNew), old(vvTried),
                            old(m_tried_collisions), id, testBeforeEvict)
    {
      nLastGood := nTime;
      var found, nId := Find(addr.ip);
      id := nId;
      hit := found && mapInfo[nId].addr == addr;
      HitIsUnique(mapInfo, mapAddr, nIdCount, addr);
      if !found || mapInfo[nId].addr != addr {
        return;
      }
      UpdateStats(nId, mapInfo[nId].(nLastSuccess := nTime, nLastTry := nTime, nAttempts := 0));
      if mapInfo[nId].fInTried {
        return;
      }
      Promote(nId, testBeforeEvict, nRnd);
    }

    /** What Good_ does with a known entry whose statistics are up to date. */
    ghost predicate Promoted(infos: Infos, tableNew: Table, tableTried: Table, collisions: set<Id>, id: Id,
                             testBeforeEvict: bool)
      requires id in infos
      reads this
    {
      if testBeforeEvict && !infos[id].fInTried && k.TriedSlot(infos[id].addr) in tableTried then
        && mapInfo == infos && vvNew == tableNew && vvTried == tableTried
        && m_tried_collisions == if |collisions| < SET_TRIED_COLLISION_SIZE then collisions + {id} else collisions
      else
        Moved(infos, tableNew, tableTried, id) && m_tried_collisions == collisions
    }

    /** The entry is in its tried slot, and if it was not there before, the occupant is back in the "new" table. */
    ghost predicate Moved(infos: Infos, tableNew: Table, tableTried: Table, id: Id)
      requires id in infos
      reads this
    {
      MovedTo(Tables(infos, tableNew, tableTried), Here(), id)
    }

    ghost function Here(): Tables
      reads this
    {
      Tables(mapInfo, vvNew, vvTried)
    }

    ghost predicate MovedTo(a: Tables, b: Tables, id: Id)
      requires id in a.infos
    {
      var slot := k.TriedSlot(a.infos[id].addr);
      if a.infos[id].fInTried then b == a else
      && b.inTried == a.inTried[slot := id]
      && id in b.infos && SameEntry(a.infos[id].(fInTried := true, nRefCount := 0), b.infos[id])
      && Untouched(a.infos, b.infos, Displaced(a.infos, a.inNew, a.inTried, slot, {id}))
      && (slot in a.inTried ==> IsBack(a.infos, b, a.inTried[slot]))
      && ReturnedTo(a, b, slot, id)
    }

    /** The "new" table after a move: the references are gone, and the occupant takes a slot from its holder. */
    ghost predicate ReturnedTo(a: Tables, b: Tables, s: Slot, id: Id) {
      var rest := Without(a.inNew, id);
      if s !in a.inTried then b.inNew == rest else
      && a.inTried[s] in a.infos
      && var u := ReturnSlot(a.infos, a.inTried[s]);
      b.inNew == rest[u := a.inTried[s]] && LosesRef(a.infos, b.infos, rest, u)
    }

    ghost predicate Returned(infos: Infos, tableNew: Table, tableTried: Table, s: Slot, id: Id)
      reads this
    {
      ReturnedTo(Tables(infos, tableNew, tableTried), Here(), s, id)
    }

    static function Succeeded(info: Info, nTime: int): Info {
      info.(nLastSuccess := nTime, nLastTry := nTime, nAttempts := 0)
    }

    /** The rest of Good_ for an untried entry: note a collision, or move it to the "tried" table. */
    method Promote(nId: Id, testBeforeEvict: bool, nRnd: nat)
      requires Valid() && nId in mapInfo && !mapInfo[nId].fInTried
      modifies this
      ensures Valid() && SameAddresses(old(mapInfo), mapInfo) && old(vvTried).Keys <= vvTried.Keys
      ensures nLastGood == old(nLastGood) && nIdCount == old(nIdCount) && nId in mapInfo
      ensures TimesKept(old(mapInfo), mapInfo, {nId})
      ensures Promoted(old(mapInfo), old(vvNew), old(vvTried), old(m_tried_collisions), nId, testBeforeEvict)
    {
      var nUBucket := FindNewBucket(nId, nRnd);
      var s := k.TriedSlot(mapInfo[nId].addr);
      if testBeforeEvict && s in vvTried {
        if |m_tried_collisions| < SET_TRIED_COLLISION_SIZE {
          assert IdOk(mapInfo, mapAddr, nIdCount, nId);
          AddCollision(k, mapInfo, vvTried.Keys, m_tried_collisions, nIdCount, nId);
          m_tried_collisions := m_tried_collisions + {nId};
        }
      } else {
        MakeTried(nId);
      }
    }

    /**
     The second half of Add_: gives an untried entry a reference in the bucket chosen by `source`,
     or gives up on it.
     */
    method PlaceNew(id: Id, source: NetAddr, now: int, ghost pending: set<Id>)
      requires Consistent(pending) && pending <= {id} && id in mapInfo && !mapInfo[id].fInTried
      requires id in pending <==> mapInfo[id].nRefCount == 0
      requires mapInfo[id].nRefCount < NEW_BUCKETS_PER_ADDRESS
      modifies this`mapInfo, this`mapAddr, this`vRandom, this`nNew, this`vvNew
      ensures Consistent({}) && SameAddresses(old(mapInfo), mapInfo) && TimesKept(old(mapInfo), mapInfo, {})
      ensures nNew - |NewIds(mapInfo)| == old(nNew - |NewIds(mapInfo)|)
      ensures |TriedIds(mapInfo)| == |TriedIds(old(mapInfo))|
      ensures PlacedIn(old(mapInfo), old(vvNew), id, k.NewSlot(old(mapInfo)[id].addr, source), now)
    {
      var s := k.NewSlot(mapInfo[id].addr, source);
      if s in vvNew && vvNew[s] == id {
        assert RefOk(mapInfo, vvNew, pending, id);
        assert s in Refs(vvNew, id);
        assert pending == {};
        return;
      }
      var fInsert := s !in vvNew;
      if !fInsert {
        assert NewSlotOk(k, mapInfo, vvNew, s);
        var existing := mapInfo[vvNew[s]];
        if IsTerrible(existing, now) || (existing.nRefCount > 1 && mapInfo[id].nRefCount == 0) {
          fInsert := true;
        }
      }
      if fInsert {
        FillNew(id, s, pending);
      } else if mapInfo[id].nRefCount == 0 {
        Delete(id, pending);
        assert pending - {id} == {};
      } else {
        assert pending == {};
      }
    }

    /** Takes over a "new" slot for an untried entry. */
    method FillNew(id: Id, s: Slot, ghost pending: set<Id>)
      requires Consistent(pending) && pending <= {id} && id in mapInfo && !mapInfo[id].fInTried
      requires mapInfo[id].nRefCount < NEW_BUCKETS_PER_ADDRESS && !Holds(vvNew, s, id)
      requires s.bucket < NEW_BUCKET_COUNT && s.pos == k.BucketPosition(true, s.bucket, mapInfo[id].addr)
      modifies this`mapInfo, this`mapAddr, this`vRandom, this`nNew, this`vvNew
      ensures Consistent({}) && SameAddresses(old(mapInfo), mapInfo) && TimesKept(old(mapInfo), mapInfo, {})
      ensures nNew - |NewIds(mapInfo)| == old(nNew - |NewIds(mapInfo)|)
      ensures |TriedIds(mapInfo)| == |TriedIds(old(mapInfo))|
      ensures vvNew == old(vvNew)[s := id] && id in mapInfo
      ensures SameEntry(old(mapInfo)[id].(nRefCount := old(mapInfo)[id].nRefCount + 1), mapInfo[id])
      ensures Untouched(old(mapInfo), mapInfo, Victim(old(mapInfo), old(vvNew), s, {id}))
      ensures LosesRef(old(mapInfo), mapInfo, old(vvNew), s)
    {
      ClearNew(s, pending);
      var info := mapInfo[id].(nRefCount := mapInfo[id].nRefCount + 1);
      AddRef(k, mapInfo, vvNew, vvTried, pending, s, id, info);
      RewriteIndexes(mapInfo, mapAddr, vRandom, nIdCount, id, info);
      IdsUpdate(mapInfo, id, info);
      assert pending - {id} == {};
      LosesRefStill(old(mapInfo), old(mapInfo), mapInfo, mapInfo[id := info], old(vvNew), s, id);
      mapInfo := mapInfo[id := info];
      vvNew := vvNew[s := id];
    }

    /** What Add_ does with an entry of the table once the slot for it is known. */
    ghost predicate PlacedIn(infos: Infos, tableNew: Table, id: Id, s: Slot, now: int)
      requires id in infos
      reads this
    {
      if s in tableNew && tableNew[s] == id then
        mapInfo == infos && vvNew == tableNew
      else if HasRoom(infos, tableNew, s, infos[id].nRefCount, now) then
        && vvNew == tableNew[s := id]
        && id in mapInfo && SameEntry(infos[id].(nRefCount := infos[id].nRefCount + 1), mapInfo[id])
        && Untouched(infos, mapInfo, Victim(infos, tableNew, s, {id})) && LosesRef(infos, mapInfo, tableNew, s)
      else
        && vvNew == tableNew
        && (if infos[id].nRefCount == 0 then SameButPos(infos - {id}, mapInfo) else mapInfo == infos)
    }

    /**
     Adds an address.  The result is true exactly for a routable address that was not known,
     also when no slot was free for it and the new entry was dropped again.
     */
    method Add(addr: Service, addrTime: int, nServices: set<nat>, source: NetAddr, nTimePenalty0: int, now: int,
               rnd: nat)
        returns (fNew: bool)
      requires Valid()
      modifies this
      ensures Valid() && vvTried == old(vvTried) && m_tried_collisions == old(m_tried_collisions)
      ensures TimesOk(old(mapInfo)) ==> TimesOk(mapInfo)
      ensures fNew <==> isRoutable(addr.ip) && addr.ip !in old(mapAddr)
      ensures !isRoutable(addr.ip) ==> mapInfo == old(mapInfo) && vvNew == old(vvNew)
      ensures var nTimePenalty := if addr.ip == source then 0 else nTimePenalty0;
              && (fNew ==> EnteredIn(old(mapInfo), old(vvNew), old(nIdCount), k.NewSlot(addr, source),
                                     Info(addr, AtLeastZero(addrTime - nTimePenalty), nServices, source, 0, 0, 0, 0, 1,
                                          false, 0), now))
              && (isRoutable(addr.ip) && !fNew ==>
                    var id := old(mapAddr)[addr.ip];
                    id in old(mapInfo) && RenewedIn(old(mapInfo), old(vvNew), id,
                                                    Renewed(old(mapInfo)[id], addrTime, nServices, nTimePenalty, now),
                                                    addrTime, source, now, rnd))
    {
      if !isRoutable(addr.ip) {
        return false;
      }
      var found, id := Find(addr.ip);
      var nTimePenalty := if addr.ip == source then 0 else nTimePenalty0;
      if found {
        AddKnown(id, addrTime, nServices, source, nTimePenalty, now, rnd);
        return false;
      }
      AddUnknown(addr, AtLeastZero(addrTime - nTimePenalty), nServices, source, now);
      return true;
    }

    /** A new entry takes its slot if there is room, and is dropped otherwise. */
    ghost predicate EnteredIn(infos: Infos, tableNew: Table, id: Id, s: Slot, info: Info, now: int)
      reads this
    {
      && (id in mapInfo <==> HasRoom(infos, tableNew, s, 0, now))
      && (if id in mapInfo
          then SameEntry(info, mapInfo[id]) && vvNew == tableNew[s := id] && LosesRef(infos, mapInfo, tableNew, s)
          else SameButPos(infos, mapInfo) && vvNew == tableNew)
      && Untouched(infos, mapInfo, Victim(infos, tableNew, s, {}))
    }

    method AddUnknown(addr: Service, nTime: int, nServices: set<nat>, source: NetAddr, now: int)
      requires Valid() && addr.ip !in mapAddr
      modifies this
      ensures Valid() && vvTried == old(vvTried) && m_tried_collisions == old(m_tried_collisions)
      ensures TimesOk(old(mapInfo)) ==> TimesOk(mapInfo)
      ensures EnteredIn(old(mapInfo), old(vvNew), old(nIdCount), k.NewSlot(addr, source),
                        Info(addr, nTime, nServices, source, 0, 0, 0, 0, 1, false, 0), now)
    {
      var id := Create(addr, nTime, nServices, source);
      nNew := nNew + 1;
      ghost var infos := mapInfo;
      ghost var s := k.NewSlot(addr, source);
      assert s in vvNew ==> NewSlotOk(k, old(mapInfo), vvNew, s) && vvNew[s] != id;
      PlaceNew(id, source, now, {id});
      assert infos - {id} == old(mapInfo);
      NewIsNoCollision(k, old(mapInfo), vvTried.Keys, m_tried_collisions, old(nIdCount));
      CollisionsKept(k, old(mapInfo), mapInfo, vvTried.Keys, vvTried.Keys, m_tried_collisions, old(nIdCount), nIdCount);
    }

    /** A known entry is renewed, and may get a reference in the slot its new source stands for. */
    ghost predicate RenewedIn(infos: Infos, tableNew: Table, id: Id, info: Info, addrTime: int, source: NetAddr,
                              now: int, rnd: nat)
      reads this
    {
      if MayRefer(info, addrTime, rnd)
      then PlacedIn(infos[id := info], tableNew, id, k.NewSlot(info.addr, source), now)
      else mapInfo == infos[id := info] && vvNew == tableNew
    }

    method AddKnown(id: Id, addrTime: int, nServices: set<nat>, source: NetAddr, nTimePenalty: int, now: int, rnd: nat)
      requires Valid() && id in mapInfo
      modifies this
      ensures Valid() && vvTried == old(vvTried) && m_tried_collisions == old(m_tried_collisions)
      ensures TimesOk(old(mapInfo)) ==> TimesOk(mapInfo)
      ensures RenewedIn(old(mapInfo), old(vvNew), id, Renewed(old(mapInfo)[id], addrTime, nServices, nTimePenalty, now),
                        addrTime, source, now, rnd)
    {
      var goOn := Refresh(id, addrTime, nServices, nTimePenalty, now, rnd);
      if goOn {
        PlaceNew(id, source, now, {});
        CollisionsKept(k, old(mapInfo), mapInfo, vvTried.Keys, vvTried.Keys, m_tried_collisions, nIdCount, nIdCount);
      }
    }

    /** The update of a known entry in Add_; false when nothing more is to be done. */
    method Refresh(id: Id, addrTime: int, nServices: set<nat>, nTimePenalty: int, now: int, rnd: nat)
        returns (goOn: bool)
      requires Valid() && id in mapInfo
      modifies this`mapInfo
      ensures Valid()
              && mapInfo == old(mapInfo)[id := Renewed(old(mapInfo)[id], addrTime, nServices, nTimePenalty, now)]
      ensures goOn <==> MayRefer(mapInfo[id], addrTime, rnd)
      ensures goOn ==> !mapInfo[id].fInTried && 1 <= mapInfo[id].nRefCount < NEW_BUCKETS_PER_ADDRESS
    {
      var info := mapInfo[id];
      var fCurrentlyOnline := now - addrTime < DAY;
      var nUpdateInterval := if fCurrentlyOnline then 60 * 60 else DAY;
      if addrTime != 0 && (info.nTime == 0 || info.nTime < addrTime - nUpdateInterval - nTimePenalty) {
        info := info.(nTime := AtLeastZero(addrTime - nTimePenalty));
      }
      info := info.(nServices := info.nServices + nServices);
      assert TriedIdOk(k, mapInfo, vvTried, id);
      UpdateStats(id, info);
      assert RefOk(mapInfo, vvNew, {}, id);
      if addrTime == 0 || (info.nTime != 0 && addrTime <= info.nTime) {
        return false;
      }
      if info.fInTried || info.nRefCount == NEW_BUCKETS_PER_ADDRESS {
        return false;
      }
      var nFactor := 1;
      for n := 0 to info.nRefCount
        invariant nFactor == Pow2(n)
      {
        nFactor := nFactor * 2;
      }
      return !(nFactor > 1 && rnd % nFactor != 0);
    }

    /** Up to the requested number of known addresses of good quality, without repetition. */
    method GetAddr(maxAddresses: nat, maxPct: nat, now: int) returns (vAddr: seq<Info>, ghost ids: seq<Id>)
      requires Valid()
      modifies this`mapInfo, this`vRandom
      ensures Valid() && SameButPos(old(mapInfo), mapInfo) && (TimesOk(old(mapInfo)) ==> TimesOk(mapInfo))
      ensures Picked(mapInfo, ids, vAddr, now)
      ensures forall i, j :: 0 <= i < j < |ids| ==> ids[i] != ids[j]
      ensures |vAddr| <= QuotaOf(|mapInfo|, maxAddresses, maxPct)
      ensures |vAddr| < QuotaOf(|mapInfo|, maxAddresses, maxPct) ==>
                forall id :: id in mapInfo && !IsTerrible(mapInfo[id], now) ==> id in ids
    {
      RandomSize(mapInfo, vRandom);
      var nNodes := QuotaOf(|vRandom|, maxAddresses, maxPct);
      vAddr, ids := [], [];
      var n := 0;
      while n < |vRandom| && |vAddr| < nNodes
        invariant n <= |vRandom| == |old(vRandom)|
        invariant Valid() && SameButPos(old(mapInfo), mapInfo)
        invariant |vAddr| <= nNodes && PickedFrom(mapInfo, vRandom[..n], ids, vAddr, now)
      {
        var nRndPos: nat :| n <= nRndPos < |vRandom|;
        ghost var infos := mapInfo;
        Shuffle(n, nRndPos);
        PickStep(infos, mapInfo, vRandom, n, ids, vAddr, now);
        var ai := mapInfo[vRandom[n]];
        if !IsTerrible(ai, now) {
          vAddr, ids := vAddr + [ai], ids + [vRandom[n]];
        }
        n := n + 1;
      }
      if |vAddr| < nNodes {
        AllPicked(mapInfo, vRandom, n, ids, vAddr, now);
      }
    }

    /** A swap in the random order is invisible outside it. */
    method Shuffle(p1: nat, p2: nat)
      requires Valid() && p1 <= p2 < |vRandom|
      modifies this`mapInfo, this`vRandom
      ensures Valid() && SameButPos(old(mapInfo), mapInfo)
      ensures |vRandom| == |old(vRandom)| && vRandom[..p1] == old(vRandom)[..p1]
    {
      SwapRandom(p1, p2);
      AddressedSameButPos(old(mapInfo), mapInfo, mapAddr, nIdCount);
      PlacedSameButPos(k, old(mapInfo), mapInfo, vvNew, vvTried, {});
      CollisionsKept(k, old(mapInfo), mapInfo, vvTried.Keys, vvTried.Keys, m_tried_collisions, nIdCount, nIdCount);
    }

    /** The occupant of a tried slot was connected to recently, by some reading of the clock. */
    ghost predicate Settled(s: Slot, clock: Clock)
      reads this
    {
      s in vvTried && vvTried[s] in mapInfo && Recent(mapInfo[vvTried[s]].nLastSuccess, clock)
    }

    /** If the entry is still known under a valid address, its tried slot has such an occupant. */
    ghost predicate IsSettled(id: Id, clock: Clock)
      reads this
    {
      id in mapInfo && isValid(mapInfo[id].addr.ip) ==> Settled(k.TriedSlot(mapInfo[id].addr), clock)
    }

    /**
     Resolves the collisions that can be settled.  Everyone waiting has a turn, in which it stays on the list exactly
     if the outcome is that it waits.  Of those taken off, whoever is still known under a valid address has lost its
     slot to an occupant connected to recently, or is that occupant.
     */
    method ResolveCollisions(clock: Clock, rnd: nat) returns (ghost ids: seq<Id>, ghost states: seq<Tables>)
      requires Valid()
      modifies this
      ensures Turns(ids, states, clock) && states[0] == old(Here())
      ensures forall id :: id in ids <==> id in old(m_tried_collisions)
      ensures Valid() && SameAddresses(old(mapInfo), mapInfo)
      ensures TimesOk(old(mapInfo)) && Positive(clock) ==> TimesOk(mapInfo)
      ensures m_tried_collisions <= old(m_tried_collisions) && old(vvTried).Keys <= vvTried.Keys
      ensures forall id :: id in m_tried_collisions ==> id in old(mapInfo) && isValid(old(mapInfo)[id].addr.ip)
      ensures forall id :: id in old(m_tried_collisions) && id !in m_tried_collisions ==> IsSettled(id, clock)
    {
      ids, states := [], [Here()];
      forall j | j in m_tried_collisions
        ensures 0 <= j < nIdCount
      {
        assert CollisionOk(k, mapInfo, vvTried.Keys, nIdCount, j);
      }
      for id := 0 to nIdCount
        invariant Turns(ids, states, clock) && states[0] == old(Here())
        invariant forall j :: j in ids <==> j in old(m_tried_collisions) && j < id
        invariant forall j :: j in old(m_tried_collisions) && j >= id ==> j in m_tried_collisions
        invariant Valid() && SameAddresses(old(mapInfo), mapInfo) && nIdCount == old(nIdCount)
        invariant TimesOk(old(mapInfo)) && Positive(clock) ==> TimesOk(mapInfo)
        invariant m_tried_collisions <= old(m_tried_collisions) && old(vvTried).Keys <= vvTried.Keys
        invariant forall j :: j in m_tried_collisions && 0 <= j < id ==>
                    j in old(mapInfo) && isValid(old(mapInfo)[j].addr.ip)
        invariant OthersSettled(old(m_tried_collisions), clock)
      {
        if id in m_tried_collisions {
          ghost var infos := mapInfo;
          ids, states := ResolveNext(id, clock, rnd, old(m_tried_collisions), ids, states);
          SameAddressesTrans(old(mapInfo), infos, mapInfo);
        }
      }
    }

    /** All of a list of waiting entries that wait no more. */
    ghost predicate OthersSettled(waiting: set<Id>, clock: Clock)
      reads this
    {
      forall j {:trigger IsSettled(j, clock)} :: j in waiting && j !in m_tried_collisions ==> IsSettled(j, clock)
    }

    /** One waiting entry, which is taken off the list if it can be settled. */
    method ResolveNext(id: Id, clock: Clock, rnd: nat, ghost waiting: set<Id>, ghost ids0: seq<Id>,
                       ghost states0: seq<Tables>)
        returns (ghost ids: seq<Id>, ghost states: seq<Tables>)
      requires Valid() && id in m_tried_collisions && OthersSettled(waiting, clock)
      requires Turns(ids0, states0, clock) && forall j :: j in ids0 ==> j < id
      modifies this
      ensures Turns(ids, states, clock) && ids == ids0 + [id] && states[0] == states0[0]
      ensures Valid() && SameAddresses(old(mapInfo), mapInfo) && nIdCount == old(nIdCount)
      ensures TimesOk(old(mapInfo)) && Positive(clock) ==> TimesOk(mapInfo)
      ensures old(m_tried_collisions) - {id} <= m_tried_collisions <= old(m_tried_collisions)
      ensures old(vvTried).Keys <= vvTried.Keys
      ensures id in m_tried_collisions ==> id in mapInfo && isValid(mapInfo[id].addr.ip)
      ensures OthersSettled(waiting, clock)
    {
      var erase := ResolveOne(id, clock, rnd);
      ids, states := ids0 + [id], states0 + [Here()];
      assert TookTurn(old(Here()), Here(), id, clock, !erase);
      forall i: nat | i < |ids0|
        ensures TookTurn(states0[i], states0[i + 1], ids0[i], clock, ids0[i] in old(m_tried_collisions)) && ids0[i] < id
      {
        assert ids0[i] in ids0 && old(TurnAt(ids0, states0, clock, i));
      }
      forall j | j in waiting && j !in old(m_tried_collisions)
        ensures IsSettled(j, clock)
      {
        assert old(IsSettled(j, clock));
      }
      if erase {
        FewerCollisions(k, mapInfo, vvTried.Keys, m_tried_collisions, m_tried_collisions - {id}, nIdCount);
        m_tried_collisions := m_tried_collisions - {id};
      }
      TurnTaken(ids0, states0, old(m_tried_collisions), id, clock, Here());
    }

    /** The turns before stay what they were. */
    lemma {:induction false} TurnTaken(ids: seq<Id>, states: seq<Tables>, waiting: set<Id>, id: Id, clock: Clock,
                                       b: Tables)
      requires |states| == |ids| + 1 && forall i, j :: 0 <= i < j < |ids| ==> ids[i] < ids[j]
      requires forall i :: 0 <= i < |ids| ==>
                 TookTurn(states[i], states[i + 1], ids[i], clock, ids[i] in waiting) && ids[i] < id
      requires m_tried_collisions - {id} == waiting - {id} && b == Here()
      requires TookTurn(states[|ids|], b, id, clock, id in m_tried_collisions)
      ensures Turns(ids + [id], states + [b], clock)
    {
      var ids', states' := ids + [id], states + [b];
      forall i: nat | i < |ids'|
        ensures TurnAt(ids', states', clock, i)
      {
        if i < |ids| {
          assert TookTurn(states[i], states[i + 1], ids[i], clock, ids[i] in waiting);
          assert ids[i] in waiting - {id} <==> ids[i] in m_tried_collisions - {id};
        }
      }
    }

    /** One waiting entry; `clock(id, n)` is the `n`-th reading of the clock made for it. */
    method ResolveOne(id: Id, clock: Clock, rnd: nat) returns (erase: bool)
      requires Valid()
      modifies this
      ensures Valid() && SameAddresses(old(mapInfo), mapInfo)
      ensures TimesOk(old(mapInfo)) && Positive(clock) ==> TimesOk(mapInfo)
      ensures m_tried_collisions == old(m_tried_collisions) && old(vvTried).Keys <= vvTried.Keys
              && nIdCount == old(nIdCount)
      ensures !erase ==> id in mapInfo && isValid(mapInfo[id].addr.ip)
      ensures erase && id in mapInfo && isValid(mapInfo[id].addr.ip) ==> Settled(k.TriedSlot(mapInfo[id].addr), clock)
      ensures forall s :: old(Settled(s, clock)) ==> Settled(s, clock)
      ensures id !in old(mapInfo) || !isValid(old(mapInfo)[id].addr.ip) ==> erase && unchanged(this)
      ensures id in old(mapInfo) && isValid(old(mapInfo)[id].addr.ip) ==>
                var was := old(mapInfo)[id];
                match old(OutcomeOf(was, clock, id))
                case Lost => erase && unchanged(this)
                case Waits => !erase && unchanged(this)
                case Won(t) => erase && Moved(old(mapInfo)[id := Succeeded(was, t)], old(vvNew), old(vvTried), id)
    {
      if id !in mapInfo {
        return true;
      }
      var infoNew := mapInfo[id];
      var s := k.TriedSlot(infoNew.addr);
      if !isValid(infoNew.addr.ip) {
        return true;
      } else if s in vvTried {
        erase := Contest(id, clock, rnd);
      } else {
        Replace(id, clock, 0, rnd);
        return true;
      }
    }

    /** A waiting entry whose slot is filled. */
    method Contest(id: Id, clock: Clock, rnd: nat) returns (erase: bool)
      requires Valid() && id in mapInfo && k.TriedSlot(mapInfo[id].addr) in vvTried
      modifies this
      ensures Valid() && SameAddresses(old(mapInfo), mapInfo)
      ensures TimesOk(old(mapInfo)) && Positive(clock) ==> TimesOk(mapInfo)
      ensures m_tried_collisions == old(m_tried_collisions) && old(vvTried).Keys <= vvTried.Keys
              && nIdCount == old(nIdCount)
      ensures id in mapInfo && (erase ==> Settled(k.TriedSlot(mapInfo[id].addr), clock))
      ensures forall s :: old(Settled(s, clock)) ==> Settled(s, clock)
      ensures var was := old(mapInfo)[id];
              match old(OutcomeOf(was, clock, id))
              case Lost => erase && unchanged(this)
              case Waits => !erase && unchanged(this)
              case Won(t) => erase && Moved(old(mapInfo)[id := Succeeded(was, t)], old(vvNew), old(vvTried), id)
    {
      var infoNew := mapInfo[id];
      var s := k.TriedSlot(infoNew.addr);
      assert TriedSlotOk(k, mapInfo, vvTried, s);
      var infoOld := mapInfo[vvTried[s]];
      if clock(id, 0) - infoOld.nLastSuccess < REPLACEMENT_HOURS * 60 * 60 {
        assert Recent(infoOld.nLastSuccess, clock);
        return true;
      } else if clock(id, 1) - infoOld.nLastTry < REPLACEMENT_HOURS * 60 * 60 {
        if clock(id, 2) - infoOld.nLastTry > 60 {
          Replace(id, clock, 3, rnd);
          return true;
        }
        return false;
      } else if clock(id, 2) - infoNew.nLastSuccess > TEST_WINDOW {
        Replace(id, clock, 3, rnd);
        return true;
      }
      return false;
    }

    /** What becomes of a waiting entry under a valid address. */
    ghost function OutcomeOf(waiting: Info, clock: Clock, id: Id): Outcome
      reads this
    {
      OutcomeIn(Here(), waiting, clock, id)
    }

    ghost function OutcomeIn(a: Tables, waiting: Info, clock: Clock, id: Id): Outcome {
      var s := k.TriedSlot(waiting.addr);
      if s in a.inTried && a.inTried[s] in a.infos
      then Decide(waiting, a.infos[a.inTried[s]], clock(id, 0), clock(id, 1), clock(id, 2), clock(id, 3))
      else Won(clock(id, 0))
    }

    /** What the turn of a waiting entry does to the tables, and whether it stays on the list. */
    ghost predicate TookTurn(a: Tables, b: Tables, id: Id, clock: Clock, stays: bool) {
      if id !in a.infos || !isValid(a.infos[id].addr.ip) then b == a && !stays else
      match OutcomeIn(a, a.infos[id], clock, id)
      case Lost => b == a && !stays
      case Waits => b == a && stays
      case Won(t) => MovedTo(a.(infos := a.infos[id := Succeeded(a.infos[id], t)]), b, id) && !stays
    }

    /** Everyone waiting had a turn, in the order of their ids; who stays on the list was to wait then. */
    ghost predicate Turns(ids: seq<Id>, states: seq<Tables>, clock: Clock)
      reads this
    {
      && |states| == |ids| + 1 && states[|ids|] == Here()
      && (forall i, j :: 0 <= i < j < |ids| ==> ids[i] < ids[j])
      && forall i {:trigger TurnAt(ids, states, clock, i)} :: 0 <= i < |ids| ==> TurnAt(ids, states, clock, i)
    }

    ghost predicate TurnAt(ids: seq<Id>, states: seq<Tables>, clock: Clock, i: nat)
      requires i < |ids| < |states|
      reads this
    {
      TookTurn(states[i], states[i + 1], ids[i], clock, ids[i] in m_tried_collisions)
    }

    /** Good_ for a waiting entry, without a test: it holds its tried slot afterwards. */
    method Replace(id: Id, clock: Clock, n: nat, rnd: nat)
      requires Valid() && id in mapInfo
      modifies this
      ensures Valid() && SameAddresses(old(mapInfo), mapInfo) && old(vvTried).Keys <= vvTried.Keys
      ensures TimesOk(old(mapInfo)) && Positive(clock) ==> TimesOk(mapInfo)
      ensures nIdCount == old(nIdCount) && m_tried_collisions == old(m_tried_collisions) && id in mapInfo
      ensures Moved(old(mapInfo)[id := Succeeded(old(mapInfo)[id], clock(id, n))], old(vvNew), old(vvTried), id)
      ensures Settled(k.TriedSlot(mapInfo[id].addr), clock)
      ensures forall s :: old(Settled(s, clock)) ==> Settled(s, clock)
    {
      assert id in Known(mapInfo, mapInfo[id].addr);
      var now := clock(id, n);
      ghost var infos := mapInfo[id := Succeeded(mapInfo[id], now)];
      ghost var slot := k.TriedSlot(mapInfo[id].addr);
      ghost var hit, hitId := Good(mapInfo[id].addr, false, now, rnd);
      assert hitId == id;
      assert TriedIdOk(k, mapInfo, vvTried, id);
      forall s | old(Settled(s, clock))
        ensures Settled(s, clock)
      {
        var e := old(vvTried)[s];
        assert old(TriedSlotOk(k, mapInfo, vvTried, s));
        if s != slot && !old(mapInfo)[id].fInTried {
          assert e !in Displaced(infos, old(vvNew), old(vvTried), slot, {id}) by {
            assert slot in old(vvTried) ==> old(TriedSlotOk(k, mapInfo, vvTried, slot));
            assert forall u :: u in old(vvNew) ==> old(NewSlotOk(k, mapInfo, vvNew, u));
          }
          assert SameEntry(infos[e], mapInfo[e]);
        }
      }
    }

    /**
     Selects the tried entry that the waiting entry `id`, drawn at random, would evict.  The slot of a waiting entry
     that still exists is filled, so the lookup always finds a tried entry.
     */
    method SelectTriedCollision(id: Id) returns (r: Selection)
      requires Valid() && (m_tried_collisions != {} ==> id in m_tried_collisions)
      modifies this`m_tried_collisions
      ensures Valid()
      ensures r == Nothing <==> id !in old(m_tried_collisions) || id !in mapInfo
      ensures m_tried_collisions == if id in mapInfo then old(m_tried_collisions) else old(m_tried_collisions) - {id}
      ensures r.Selected? ==>
                var s := k.TriedSlot(mapInfo[id].addr);
                s in vvTried && vvTried[s] in mapInfo && r.info == mapInfo[vvTried[s]] && r.info.fInTried
    {
      if m_tried_collisions == {} {
        return Nothing;
      }
      if id !in mapInfo {
        FewerCollisions(k, mapInfo, vvTried.Keys, m_tried_collisions, m_tried_collisions - {id}, nIdCount);
        m_tried_collisions := m_tried_collisions - {id};
        return Nothing;
      }
      var s := k.TriedSlot(mapInfo[id].addr);
      assert CollisionOk(k, mapInfo, vvTried.Keys, nIdCount, id);
      assert TriedSlotOk(k, mapInfo, vvTried, s);
      return Selected(mapInfo[vvTried[s]]);
    }

    /** What Check_ accepts, in any state; the comments give the error codes of the tests. */
    ghost predicate CheckAccepts(keyIsNull: bool)
      reads this
    {
      && |vRandom| == nTried + nNew                                              // -7
      && AllEntriesPass(mapInfo, mapAddr, vRandom)                               // -1 to -6, -8, -14
      && |TriedIds(mapInfo)| == nTried && |NewIds(mapInfo)| == nNew              // -9, -10
      && AllTriedPass(k, mapInfo, vvTried, TriedIds(mapInfo))                    // -11, -17, -18
      && AllNewPass(k, mapInfo, vvNew, NewIds(mapInfo))                          // -12, -19
      && CountsExact(mapInfo, vvNew, NewIds(mapInfo))                            // -12, -15
      && AllHeld(vvTried, TriedIds(mapInfo))                                     // -13
      && !keyIsNull                                                              // -16
    }

    /** Check_: it returns 0 exactly in the states it accepts. */
    method Check(keyIsNull: bool) returns (code: int)
      requires InRange(vvTried, TRIED_BUCKET_COUNT) && InRange(vvNew, NEW_BUCKET_COUNT)
      ensures code == 0 <==> CheckAccepts(keyIsNull)
    {
      if |vRandom| != nTried + nNew {
        return -7;
      }
      var setTried, mapNew;
      code, setTried, mapNew := CheckEntries(mapInfo, mapAddr, vRandom);
      if code != 0 {
        return;
      }
      if |setTried| != nTried {
        return -9;
      }
      if |mapNew| != nNew {
        return -10;
      }
      code, setTried := CheckTried(k, mapInfo, vvTried, setTried);
      if code != 0 {
        return;
      }
      code, mapNew := CheckNew(k, mapInfo, vvNew, mapNew);
      if code != 0 {
        return;
      }
      if setTried != {} {
        return -13;
      }
      if mapNew.Keys != {} {
        return -15;
      }
      return if keyIsNull then -16 else 0;
    }

    /** The consistency check passes exactly while the times are in order and the key is set. */
    lemma {:induction false} CheckPasses(keyIsNull: bool)
      requires Valid()
      ensures InRange(vvTried, TRIED_BUCKET_COUNT) && InRange(vvNew, NEW_BUCKET_COUNT)
      ensures CheckAccepts(keyIsNull) <==> TimesOk(mapInfo) && !keyIsNull
    {
      RandomSize(mapInfo, vRandom);
      IdsSplit(mapInfo);
      forall id | id in mapInfo
        ensures EntryPasses(mapInfo, mapAddr, vRandom, id) <==> TimeOk(mapInfo[id])
        ensures RefOk(mapInfo, vvNew, {}, id) && TriedIdOk(k, mapInfo, vvTried, id)
      {
        assert IdOk(mapInfo, mapAddr, nIdCount, id) && RankOk(mapInfo, vRandom, id);
        assert RefOk(mapInfo, vvNew, {}, id);
      }
      forall s | s in vvTried
        ensures TriedPasses(k, mapInfo, vvTried, TriedIds(mapInfo), s)
        ensures s.bucket < TRIED_BUCKET_COUNT && s.pos < BUCKET_SIZE
      {
        var id := vvTried[s];
        assert TriedSlotOk(k, mapInfo, vvTried, s);
        assert mapInfo[id].fInTried;
      }
      forall s | s in vvNew
        ensures NewPasses(k, mapInfo, vvNew, NewIds(mapInfo), s)
        ensures s.bucket < NEW_BUCKET_COUNT && s.pos < BUCKET_SIZE
      {
        var id := vvNew[s];
        assert NewSlotOk(k, mapInfo, vvNew, s);
        assert !mapInfo[id].fInTried;
      }
    }

    /** The entry `e` was tried and is now a new one, with one reference in the slot its source stands for. */
    ghost predicate BackToNew(infos: Infos, e: Id)
      reads this
    {
      IsBack(infos, Here(), e)
    }

    ghost predicate IsBack(infos: Infos, b: Tables, e: Id) {
      && e in infos && e in b.infos
      && SameEntry(infos[e].(fInTried := false, nRefCount := 1), b.infos[e])
      && var u := k.NewSlot(infos[e].addr, infos[e].source); u in b.inNew && b.inNew[u] == e
    }

    /** The "new" slot that the source of a tried entry stands for. */
    ghost function ReturnSlot(infos: Infos, e: Id): Slot
      requires e in infos
    {
      k.NewSlot(infos[e].addr, infos[e].source)
    }

    /**
     Whom a move of `ids` into the tried slot `s` affects: them, the occupant of the slot, and
     whoever holds the new slot the occupant returns to.
     */
    ghost function Displaced(infos: Infos, tableNew: Table, tableTried: Table, s: Slot, ids: set<Id>): set<Id> {
      set o | o in infos && (o in ids || Displaces(infos, tableNew, tableTried, s, o))
    }

    ghost predicate Displaces(infos: Infos, tableNew: Table, tableTried: Table, s: Slot, o: Id) {
      && s in tableTried && tableTried[s] in infos
      && var e := tableTried[s]; o == e || Holds(tableNew, k.NewSlot(infos[e].addr, infos[e].source), o)
    }
  }

  predicate Holds(table: Table, s: Slot, o: Id) {
    s in table && table[s] == o
  }

  /** The holder of a slot, if any, has one reference less, or is gone if it was the last one. */
  ghost predicate LosesRef(a: Infos, b: Infos, table: Table, s: Slot) {
    s in table ==>
      && table[s] in a && (table[s] in b <==> a[table[s]].nRefCount > 1)
      && (table[s] in b ==> SameEntry(a[table[s]].(nRefCount := a[table[s]].nRefCount - 1), b[table[s]]))
  }

  /** The holder is not affected by changes of another entry before and after. */
  lemma {:induction false} LosesRefStill(a: Infos, a': Infos, b: Infos, b': Infos, table: Table, s: Slot, id: Id)
    requires id in a && id in a' && id in b && id in b' && !Holds(table, s, id)
    requires a' == a[id := a'[id]] && b' == b[id := b'[id]]
    requires LosesRef(a', b, table, s)
    ensures LosesRef(a, b', table, s)
  {
  }

  /** A table without the references to an entry. */
  ghost function Without(table: Table, id: Id): Table {
    map t | t in table && table[t] != id :: table[t]
  }

  /** Whom a change of `ids` that empties a slot affects: them, and the holder of the slot. */
  ghost function Victim(infos: Infos, table: Table, s: Slot, ids: set<Id>): set<Id> {
    set o | o in infos && (o in ids || Holds(table, s, o))
  }

  lemma {:induction false} SwapRanked(infos: Infos, random: seq<Id>, p1: nat, p2: nat)
    requires Ranked(infos, random) && p1 < |random| && p2 < |random| && p1 != p2
    ensures random[p1] in infos && random[p2] in infos && random[p1] != random[p2]
    ensures var id1, id2 := random[p1], random[p2];
            var infos' := infos[id1 := infos[id1].(nRandomPos := p2)][id2 := infos[id2].(nRandomPos := p1)];
            Ranked(infos', random[p1 := id2][p2 := id1]) && SameButPos(infos, infos')
  {
    var id1, id2 := random[p1], random[p2];
    assert PosOk(infos, random, p1) && PosOk(infos, random, p2);
    var infos' := infos[id1 := infos[id1].(nRandomPos := p2)][id2 := infos[id2].(nRandomPos := p1)];
    var random' := random[p1 := id2][p2 := id1];
    forall i: nat | i < |random'|
      ensures PosOk(infos', random', i)
    {
      assert PosOk(infos, random, i);
    }
    forall id | id in infos'
      ensures RankOk(infos', random', id)
    {
      assert RankOk(infos, random, id);
    }
  }
}
