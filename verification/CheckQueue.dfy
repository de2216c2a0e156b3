/**
 The script-check queue (src/checkqueue.h): one master and any number of workers
 share a queue of checks under one mutex.

 A step of the state machine is one critical section, or the evaluation of one
 check outside the lock.  Every interleaving of the steps is a run, and a thread
 that waits on a condition variable may wake at any time.
 */
module CheckQueue {
  import opened Numbers

  type Check = nat

  /** Where a thread is.  `batch` holds the checks it has taken and not yet accounted for. */
  datatype Pc =
    | Outside                                       // not in Loop
    | AtLock(batch: seq<Check>,
             fOk: bool)          // about to enter the critical section; an empty batch on the first iteration
    | Waiting                                       // blocked on its condition variable
    | Working(batch: seq<Check>, done: nat, fOk: bool)
    | Returned(result: bool)                        // the master, on return from Wait
  {
    function Taken(): seq<Check> {
      if AtLock? || Working? then batch else []
    }

    /** Counted in nTotal: has been through the critical section of its current Loop call. */
    predicate Inside() {
      Waiting? || Working? || (AtLock? && batch != [])
    }
  }

  const MASTER := 0

  /**
   The fields of CCheckQueue, the threads, whether condMaster has been notified since the master went to sleep,
   and the history of the session: the checks added and those accounted for.
   */
  datatype State = State(
    queue: seq<Check>, nIdle: int, nTotal: int, fAllOk: bool, nTodo: int, nBatchSize: nat,
    threads: seq<Pc>, notified: bool, added: multiset<Check>, finished: multiset<Check>)

  /** The last `n` elements, last first. */
  function TakeBack(queue: seq<Check>, n: nat): (r: seq<Check>)
    requires n <= |queue|
    ensures |r| == n
    ensures multiset(r) == multiset(queue[|queue| - n..])
  {
    if n == 0 then
      assert queue[|queue|..] == [];
      []
    else
      assert queue[|queue| - n..] == [queue[|queue| - n]] + queue[|queue| - (n - 1)..];
      TakeBack(queue, n - 1) + [queue[|queue| - n]]
  }

  /** How many checks to take: smaller batches as the queue drains, at least one. */
  function BatchSize(s: State): (n: int)
    requires s.queue != [] && s.nTotal + s.nIdle + 1 > 0
    ensures 1 <= n <= |s.queue|
  {
    Share(|s.queue|, s.nTotal + s.nIdle + 1);
    Max(1, Min(s.nBatchSize, |s.queue| / (s.nTotal + s.nIdle + 1)))
  }

  lemma {:induction false} Share(n: nat, d: int)
    requires d > 0
    ensures 0 <= n / d <= n
  {
    var q := n / d;
    assert n == d * q + n % d;
    if q < 0 {
      Product(d, -q);
    } else {
      Product(d, q);
    }
  }

  lemma {:induction false} Product(d: int, q: int)
    requires d > 0 && q >= 0
    ensures d * q >= q && d * -q == -(d * q)
  {
    assert (d - 1) * q >= 0;
  }

  // ---------------------------------------------------------------- steps

  /** The loop head, with the lock held: return, sleep or take a batch. */
  function Proceed(s: State, t: nat): State
    requires t < |s.threads| && s.nTotal + s.nIdle + 1 > 0
  {
    if s.queue == [] then
      if t == MASTER && s.nTodo == 0 then
        s.(nTotal := s.nTotal - 1, fAllOk := true, threads := s.threads[t := Returned(s.fAllOk)],
           added := multiset{}, finished := multiset{})
      else
        s.(nIdle := s.nIdle + 1, threads := s.threads[t := Waiting], notified := s.notified && t != MASTER)
    else
      var n := BatchSize(s);
      s.(queue := s.queue[..|s.queue| - n], threads := s.threads[t := Working(TakeBack(s.queue, n), 0, s.fAllOk)])
  }

  /** The clean-up of the previous iteration, or the registration on the first one. */
  function CleanUp(s: State, t: nat): State
    requires t < |s.threads| && s.threads[t].AtLock?
  {
    var AtLock(batch, fOk) := s.threads[t];
    if batch != [] then
      var nTodo := s.nTodo - |batch|;
      s.(fAllOk := s.fAllOk && fOk, nTodo := nTodo, finished := s.finished + multiset(batch),
         notified := s.notified || (nTodo == 0 && t != MASTER), threads := s.threads[t := Working([], 0, fOk)])
    else
      s.(nTotal := s.nTotal + 1, threads := s.threads[t := Working([], 0, fOk)])
  }

  datatype Step =
    | EnterStep(t: nat)
    | LockStep(t: nat)
    | WakeStep(t: nat)
    | EvaluateStep(t: nat)
    | AddStep(checks: seq<Check>)
    | LeaveStep

  predicate StepTo(ok: Check -> bool, s: State, s': State, step: Step) {
    match step
    case EnterStep(t) => Enter(s, s', t)
    case LockStep(t) => Lock(s, s', t)
    case WakeStep(t) => Wake(s, s', t)
    case EvaluateStep(t) => Evaluate(ok, s, s', t)
    case AddStep(checks) => Add(s, s', checks)
    case LeaveStep => Leave(s, s')
  }

  ghost predicate Next(ok: Check -> bool, s: State, s': State) {
    exists step :: StepTo(ok, s, s', step)
  }

  /** A worker starts, or the master calls Wait. */
  predicate Enter(s: State, s': State, t: nat) {
    && t < |s.threads| && s.threads[t].Outside?
    && s' == s.(threads := s.threads[t := AtLock([], true)])
  }

  predicate Lock(s: State, s': State, t: nat) {
    && t < |s.threads| && s.threads[t].AtLock?
    && (var c := CleanUp(s, t);
        && c.nTotal + c.nIdle + 1 > 0
        && s' == Proceed(c, t))
  }

  predicate Wake(s: State, s': State, t: nat) {
    && t < |s.threads| && s.threads[t].Waiting?
    && (var w := s.(nIdle := s.nIdle - 1, threads := s.threads[t := Working([], 0, true)]);
        && w.nTotal + w.nIdle + 1 > 0
        && s' == Proceed(w, t))
  }

  /** One check of the batch, evaluated only while everything has succeeded; then back to the lock. */
  predicate Evaluate(ok: Check -> bool, s: State, s': State, t: nat) {
    && t < |s.threads| && s.threads[t].Working?
    && (var Working(batch, done, fOk) := s.threads[t];
        if done < |batch|
        then s' == s.(threads := s.threads[t := Working(batch, done + 1, fOk && ok(batch[done]))])
        else s' == s.(threads := s.threads[t := AtLock(batch, fOk)]))
  }

  /** The master adds checks between Wait calls. */
  predicate Add(s: State, s': State, checks: seq<Check>) {
    && s.threads != [] && s.threads[MASTER].Outside?
    && s' == s.(queue := s.queue + checks, nTodo := s.nTodo + |checks|, added := s.added + multiset(checks))
  }

  predicate Leave(s: State, s': State) {
    && s.threads != [] && s.threads[MASTER].Returned?
    && s' == s.(threads := s.threads[MASTER := Outside])
  }

  predicate Init(s: State) {
    && s.threads != [] && (forall t :: 0 <= t < |s.threads| ==> s.threads[t].Outside?)
    && s.queue == [] && s.nIdle == 0 && s.nTotal == 0 && s.fAllOk && s.nTodo == 0 && !s.notified
    && s.added == multiset{} && s.finished == multiset{}
  }

  // ---------------------------------------------------------------- counting over threads

  ghost function Held(threads: seq<Pc>): multiset<Check> {
    if threads == [] then multiset{} else multiset(threads[0].Taken()) + Held(threads[1..])
  }

  lemma {:induction false} HeldUpdate(threads: seq<Pc>, t: nat, pc: Pc)
    requires t < |threads|
    ensures multiset(threads[t].Taken()) <= Held(threads)
    ensures Held(threads[t := pc]) + multiset(threads[t].Taken()) == Held(threads) + multiset(pc.Taken())
    decreases |threads|
  {
    var a, rest := multiset(threads[0].Taken()), Held(threads[1..]);
    if t > 0 {
      assert threads[t := pc][1..] == threads[1..][t - 1 := pc];
      HeldUpdate(threads[1..], t - 1, pc);
      AddBoth(a, Held(threads[1..][t - 1 := pc]), multiset(threads[t].Taken()), rest, multiset(pc.Taken()));
    } else {
      assert threads[t := pc][1..] == threads[1..];
      AddBoth(rest, multiset(pc.Taken()), a, a, multiset(pc.Taken()));
    }
  }

  lemma {:induction false} AddBoth(a: multiset<Check>, b: multiset<Check>, c: multiset<Check>, d: multiset<Check>,
                                   e: multiset<Check>)
    requires b + c == d + e
    ensures (a + b) + c == (a + d) + e && (b + a) + c == (d + a) + e
  {
    forall x ensures ((a + b) + c)[x] == ((a + d) + e)[x] && ((b + a) + c)[x] == ((d + a) + e)[x] {
      assert (b + c)[x] == (d + e)[x];
    }
  }

  datatype Kind = IdleKind | InsideKind

  function Is(k: Kind, pc: Pc): bool {
    match k case IdleKind => pc.Waiting? case InsideKind => pc.Inside()
  }

  ghost function Count(k: Kind, threads: seq<Pc>): nat {
    if threads == [] then 0 else (if Is(k, threads[0]) then 1 else 0) + Count(k, threads[1..])
  }

  lemma {:induction false} CountUpdate(k: Kind, threads: seq<Pc>, t: nat, pc: Pc)
    requires t < |threads|
    ensures Count(k, threads[t := pc]) == Count(k, threads) - (if Is(k, threads[t]) then 1 else 0)
            + (if Is(k, pc) then 1 else 0)
    decreases |threads|
  {
    if t > 0 {
      assert threads[t := pc][1..] == threads[1..][t - 1 := pc];
      CountUpdate(k, threads[1..], t - 1, pc);
    }
  }

  // ---------------------------------------------------------------- the invariant

  ghost predicate AllGood(ok: Check -> bool, m: multiset<Check>) {
    forall c :: c in m ==> ok(c)
  }

  /**
   A local result is true only if all checks done so far succeed, and false only if some check of
   the session fails.
   */
  ghost predicate ThreadOk(ok: Check -> bool, added: multiset<Check>, pc: Pc) {
    && (pc.Working? ==> pc.done <= |pc.batch| && pc.batch != [])
    && (if Local(pc) then AllGood(ok, multiset(Done(pc))) else pc.Taken() != [] && !AllGood(ok, added))
  }

  function Local(pc: Pc): bool {
    if pc.AtLock? || pc.Working? then pc.fOk else true
  }

  function Done(pc: Pc): seq<Check> {
    if pc.AtLock? then pc.batch else if pc.Working? && pc.done <= |pc.batch| then pc.batch[..pc.done] else []
  }

  /** Every check added in the session is in one place: queued, taken by one thread, or accounted for. */
  ghost predicate Conserved(s: State) {
    && s.added == multiset(s.queue) + Held(s.threads) + s.finished
    && s.nTodo == |s.queue| + |Held(s.threads)|
    && s.nIdle == Count(IdleKind, s.threads)
    && s.nTotal == Count(InsideKind, s.threads)
  }

  ghost predicate Verdict(ok: Check -> bool, s: State) {
    && (if s.fAllOk then AllGood(ok, s.finished) else !AllGood(ok, s.added))
    && forall t {:trigger OkAt(ok, s.added, s.threads, t)} :: 0 <= t < |s.threads| ==> OkAt(ok, s.added, s.threads, t)
  }

  ghost predicate OkAt(ok: Check -> bool, added: multiset<Check>, threads: seq<Pc>, t: nat)
    requires t < |threads|
  {
    ThreadOk(ok, added, threads[t])
  }

  /** A sleeping master has an empty queue, and has been notified exactly if nothing is left to do. */
  ghost predicate NoLostWakeup(s: State) {
    && s.threads != []
    && (s.threads[MASTER].Waiting? ==> s.queue == [] && (s.nTodo == 0 <==> s.notified))
    && forall t :: 0 < t < |s.threads| ==> !s.threads[t].Returned?
  }

  ghost predicate Inv(ok: Check -> bool, s: State) {
    Conserved(s) && Verdict(ok, s) && NoLostWakeup(s)
  }

  lemma {:induction false} ThreadChange(s: State, t: nat, pc: Pc)
    requires t < |s.threads| && Conserved(s)
    ensures Held(s.threads[t := pc]) + multiset(s.threads[t].Taken()) == Held(s.threads) + multiset(pc.Taken())
    ensures |Held(s.threads[t := pc])| + |s.threads[t].Taken()| == |Held(s.threads)| + |pc.Taken()|
    ensures Count(IdleKind, s.threads[t := pc]) == s.nIdle - (if s.threads[t].Waiting? then 1 else 0)
            + (if pc.Waiting? then 1 else 0)
    ensures Count(InsideKind, s.threads[t := pc]) == s.nTotal - (if s.threads[t].Inside() then 1 else 0)
            + (if pc.Inside() then 1 else 0)
  {
    HeldUpdate(s.threads, t, pc);
    SameSize(Held(s.threads[t := pc]), multiset(s.threads[t].Taken()), Held(s.threads), multiset(pc.Taken()));
    CountUpdate(IdleKind, s.threads, t, pc);
    CountUpdate(InsideKind, s.threads, t, pc);
  }

  lemma {:induction false} SameSize(a: multiset<Check>, b: multiset<Check>, c: multiset<Check>, d: multiset<Check>)
    requires a + b == c + d
    ensures |a| + |b| == |c| + |d|
  {
    assert |a + b| == |a| + |b| && |c + d| == |c| + |d|;
  }

  lemma {:induction false} InitHolds(ok: Check -> bool, s: State)
    requires Init(s)
    ensures Inv(ok, s)
  {
    AllOutside(s.threads);
  }

  lemma {:induction false} AllOutside(threads: seq<Pc>)
    requires forall t :: 0 <= t < |threads| ==> threads[t].Outside?
    ensures Held(threads) == multiset{} && Count(IdleKind, threads) == 0 && Count(InsideKind, threads) == 0
  {
    if threads != [] {
      AllOutside(threads[1..]);
    }
  }

  // ---------------------------------------------------------------- every step keeps the invariant

  /** A step of one thread that takes and releases no check. */
  lemma {:induction false} OneThread(s: State, t: nat, pc: Pc)
    requires t < |s.threads| && Conserved(s)
    requires multiset(pc.Taken()) == multiset(s.threads[t].Taken()) && |pc.Taken()| == |s.threads[t].Taken()|
    ensures Conserved(s.(threads := s.threads[t := pc],
                         nIdle := s.nIdle - (if s.threads[t].Waiting? then 1 else 0) + (if pc.Waiting? then 1 else 0),
                         nTotal := s.nTotal - (if s.threads[t].Inside() then 1 else 0)
                         + (if pc.Inside() then 1 else 0)))
  {
    ThreadChange(s, t, pc);
    SameHeld(Held(s.threads[t := pc]), Held(s.threads), multiset(pc.Taken()));
  }

  lemma {:induction false} SameHeld(a: multiset<Check>, b: multiset<Check>, c: multiset<Check>)
    requires a + c == b + c
    ensures a == b
  {
    forall x ensures a[x] == b[x] {
      assert (a + c)[x] == (b + c)[x];
    }
  }

  lemma {:induction false} OthersOk(ok: Check -> bool, added: multiset<Check>, threads: seq<Pc>, t: nat, pc: Pc)
    requires t < |threads| && ThreadOk(ok, added, pc)
    requires forall u {:trigger OkAt(ok, added, threads, u)} :: 0 <= u < |threads| && u != t ==>
               OkAt(ok, added, threads, u)
    ensures forall u {:trigger OkAt(ok, added, threads[t := pc], u)} :: 0 <= u < |threads| ==>
              OkAt(ok, added, threads[t := pc], u)
  {
    var threads' := threads[t := pc];
    forall u | 0 <= u < |threads|
      ensures OkAt(ok, added, threads', u)
    {
      if u != t {
        assert OkAt(ok, added, threads, u);
      }
    }
  }

  lemma {:induction false} EnterKeeps(ok: Check -> bool, s: State, s': State, t: nat)
    requires Inv(ok, s) && Enter(s, s', t)
    ensures Inv(ok, s')
    ensures !Returns(s, s')
  {
    OneThread(s, t, AtLock([], true));
    OthersOk(ok, s.added, s.threads, t, AtLock([], true));
  }

  lemma {:induction false} EvaluateOne(ok: Check -> bool, added: multiset<Check>, batch: seq<Check>, done: nat,
                                       fOk: bool)
    requires ThreadOk(ok, added, Working(batch, done, fOk)) && multiset(batch) <= added
    ensures done < |batch| ==> ThreadOk(ok, added, Working(batch, done + 1, fOk && ok(batch[done])))
    ensures done == |batch| ==> ThreadOk(ok, added, AtLock(batch, fOk))
  {
    if done < |batch| {
      assert batch[..done + 1] == batch[..done] + [batch[done]];
      assert batch[done] in multiset(batch);
      assert batch[done] in added;
    } else {
      assert batch[..done] == batch;
    }
  }

  lemma {:induction false} EvaluateKeeps(ok: Check -> bool, s: State, s': State, t: nat)
    requires Inv(ok, s) && Evaluate(ok, s, s', t)
    ensures Inv(ok, s')
    ensures !Returns(s, s')
  {
    WorkingHasBatch(ok, s, t);
    EvaluateConserves(ok, s, s', t);
    TakenIsAdded(s, t);
    EvaluateVerdict(ok, s, s', t);
    EvaluateWakes(ok, s, s', t);
  }

  lemma {:induction false} WorkingHasBatch(ok: Check -> bool, s: State, t: nat)
    requires Verdict(ok, s) && t < |s.threads| && s.threads[t].Working?
    ensures s.threads[t].batch != []
  {
    assert OkAt(ok, s.added, s.threads, t);
  }

  lemma {:induction false} EvaluateWakes(ok: Check -> bool, s: State, s': State, t: nat)
    requires NoLostWakeup(s) && Evaluate(ok, s, s', t)
    ensures NoLostWakeup(s') && !Returns(s, s')
  {
  }

  lemma {:induction false} EvaluateConserves(ok: Check -> bool, s: State, s': State, t: nat)
    requires Conserved(s) && Evaluate(ok, s, s', t) && s.threads[t].batch != []
    ensures Conserved(s')
  {
    var pc := s'.threads[t];
    OneThread(s, t, pc);
    assert pc.Taken() == s.threads[t].Taken() && pc.Inside() && !pc.Waiting?;
    assert s' == s.(threads := s.threads[t := pc]);
  }

  lemma {:induction false} TakenIsAdded(s: State, t: nat)
    requires Conserved(s) && t < |s.threads|
    ensures multiset(s.threads[t].Taken()) <= s.added
  {
    HeldUpdate(s.threads, t, s.threads[t]);
  }

  lemma {:induction false} EvaluateVerdict(ok: Check -> bool, s: State, s': State, t: nat)
    requires Verdict(ok, s) && Evaluate(ok, s, s', t) && multiset(s.threads[t].Taken()) <= s.added
    ensures Verdict(ok, s')
  {
    var Working(batch, done, fOk) := s.threads[t];
    assert OkAt(ok, s.added, s.threads, t);
    EvaluateOne(ok, s.added, batch, done, fOk);
    OthersOk(ok, s.added, s.threads, t, s'.threads[t]);
  }

  lemma {:induction false} AddKeeps(ok: Check -> bool, s: State, s': State, checks: seq<Check>)
    requires Inv(ok, s) && Add(s, s', checks)
    ensures Inv(ok, s')
    ensures !Returns(s, s')
  {
    assert multiset(s.queue + checks) == multiset(s.queue) + multiset(checks);
    if !AllGood(ok, s.added) {
      var c :| c in s.added && !ok(c);
      assert c in s'.added;
    }
    forall t | 0 <= t < |s.threads|
      ensures OkAt(ok, s'.added, s.threads, t)
    {
      assert OkAt(ok, s.added, s.threads, t);
    }
  }

  lemma {:induction false} LeaveKeeps(ok: Check -> bool, s: State, s': State)
    requires Inv(ok, s) && Leave(s, s')
    ensures Inv(ok, s')
    ensures !Returns(s, s')
  {
    OneThread(s, MASTER, Outside);
    OthersOk(ok, s.added, s.threads, MASTER, Outside);
  }

  /** Inside the critical section: the invariant, with nothing in the hands of thread `t`. */
  ghost predicate Holding(ok: Check -> bool, s: State, t: nat) {
    && t < |s.threads| && s.threads[t].Working? && s.threads[t].batch == []
    && Conserved(s)
    && (if s.fAllOk then AllGood(ok, s.finished) else !AllGood(ok, s.added))
    && (forall u {:trigger OkAt(ok, s.added, s.threads, u)} :: 0 <= u < |s.threads| && u != t ==>
        OkAt(ok, s.added, s.threads, u))
    && NoLostWakeup(s)
  }

  lemma {:induction false} CleanUpConserves(s: State, t: nat)
    requires Conserved(s) && t < |s.threads| && s.threads[t].AtLock?
    ensures Conserved(CleanUp(s, t))
  {
    var AtLock(batch, fOk) := s.threads[t];
    var pc := Working([], 0, fOk);
    ThreadChange(s, t, pc);
    var h, h' := Held(s.threads), Held(s.threads[t := pc]);
    Released(s.added, multiset(s.queue), h, h', multiset(batch), s.finished);
  }

  lemma {:induction false} Released(added: multiset<Check>, q: multiset<Check>, h: multiset<Check>,
                                    h': multiset<Check>, b: multiset<Check>, f: multiset<Check>)
    requires added == q + h + f && h' + b == h + multiset{}
    ensures added == q + h' + (f + b)
  {
    forall x ensures added[x] == (q + h' + (f + b))[x] {
      assert (h' + b)[x] == (h + multiset{})[x];
    }
  }

  lemma {:induction false} CleanUpHolds(ok: Check -> bool, s: State, t: nat)
    requires Inv(ok, s) && t < |s.threads| && s.threads[t].AtLock?
    ensures Holding(ok, CleanUp(s, t), t)
  {
    CleanUpConserves(s, t);
    CleanUpVerdict(ok, s, t);
  }

  lemma {:induction false} CleanUpVerdict(ok: Check -> bool, s: State, t: nat)
    requires Verdict(ok, s) && t < |s.threads| && s.threads[t].AtLock?
    ensures var c := CleanUp(s, t);
            && (if c.fAllOk then AllGood(ok, c.finished) else !AllGood(ok, c.added))
            && (forall u {:trigger OkAt(ok, c.added, c.threads, u)} :: 0 <= u < |c.threads| && u != t ==>
                OkAt(ok, c.added, c.threads, u))
  {
    assert OkAt(ok, s.added, s.threads, t);
    var c := CleanUp(s, t);
    forall u | 0 <= u < |s.threads| && u != t
      ensures OkAt(ok, c.added, c.threads, u)
    {
      assert OkAt(ok, s.added, s.threads, u);
    }
  }

  lemma {:induction false} WakeHolds(ok: Check -> bool, s: State, t: nat)
    requires Inv(ok, s) && t < |s.threads| && s.threads[t].Waiting?
    ensures Holding(ok, s.(nIdle := s.nIdle - 1, threads := s.threads[t := Working([], 0, true)]), t)
  {
    OneThread(s, t, Working([], 0, true));
    var w := s.(nIdle := s.nIdle - 1, threads := s.threads[t := Working([], 0, true)]);
    forall u | 0 <= u < |s.threads| && u != t
      ensures OkAt(ok, w.added, w.threads, u)
    {
      assert OkAt(ok, s.added, s.threads, u);
    }
  }

  lemma {:induction false} TakeConserves(s: State, t: nat, n: nat, fOk: bool)
    requires Conserved(s) && t < |s.threads| && s.threads[t].Working? && s.threads[t].batch == []
    requires 1 <= n <= |s.queue|
    ensures Conserved(s.(queue := s.queue[..|s.queue| - n],
                         threads := s.threads[t := Working(TakeBack(s.queue, n), 0, fOk)]))
  {
    var pc := Working(TakeBack(s.queue, n), 0, fOk);
    ThreadChange(s, t, pc);
    var rest := s.queue[..|s.queue| - n];
    assert s.queue == rest + s.queue[|s.queue| - n..];
    Moved(s.added, multiset(s.queue), Held(s.threads), s.finished, multiset(rest), Held(s.threads[t := pc]),
          multiset(pc.batch));
  }

  lemma {:induction false} Moved(added: multiset<Check>, q: multiset<Check>, h: multiset<Check>, f: multiset<Check>,
                                 q': multiset<Check>, h': multiset<Check>, b: multiset<Check>)
    requires added == q + h + f && q == q' + b && h' + multiset{} == h + b
    ensures added == q' + h' + f
  {
    forall x ensures added[x] == (q' + h' + f)[x] {
      assert (h' + multiset{})[x] == (h + b)[x];
    }
  }

  lemma {:induction false} NothingTaken(threads: seq<Pc>)
    requires |Held(threads)| == 0
    ensures Held(threads) == multiset{}
    ensures forall t :: 0 <= t < |threads| ==> threads[t].Taken() == []
  {
    if threads != [] {
      assert |multiset(threads[0].Taken())| == |threads[0].Taken()|;
      NothingTaken(threads[1..]);
    }
  }

  /**
   The master returns only when nothing is queued or taken and every check of the session is accounted for.
   Its result says whether all of them succeed, and the next session starts clean.
   */
  lemma {:induction false} ReturnIsRight(ok: Check -> bool, s: State)
    requires Holding(ok, s, MASTER) && s.queue == [] && s.nTodo == 0 && s.nTotal + s.nIdle + 1 > 0
    ensures s.added == s.finished && Held(s.threads) == multiset{}
    ensures s.fAllOk <==> AllGood(ok, s.added)
    ensures Inv(ok, Proceed(s, MASTER))
  {
    NothingTaken(s.threads);
    OneThread(s, MASTER, Returned(s.fAllOk));
    var s' := Proceed(s, MASTER);
    NothingTaken(s'.threads);
    forall u | 0 <= u < |s.threads|
      ensures OkAt(ok, s'.added, s'.threads, u)
    {
      if u != MASTER {
        assert OkAt(ok, s.added, s.threads, u);
        assert s.threads[u].Taken() == [];
      }
    }
  }

  /** The loop head keeps the invariant. */
  lemma {:induction false} ProceedKeeps(ok: Check -> bool, s: State, t: nat)
    requires Holding(ok, s, t)
    ensures s.nTotal + s.nIdle + 1 > 0
    ensures Inv(ok, Proceed(s, t))
    ensures Proceed(s, t).threads[t].Returned? <==> t == MASTER && s.queue == [] && s.nTodo == 0
  {
    if s.queue == [] {
      if t == MASTER && s.nTodo == 0 {
        ReturnIsRight(ok, s);
      } else {
        WaitIsRight(ok, s, t);
      }
    } else {
      TakeIsRight(ok, s, t);
    }
  }

  lemma {:induction false} WaitIsRight(ok: Check -> bool, s: State, t: nat)
    requires Holding(ok, s, t) && s.queue == [] && (t != MASTER || s.nTodo != 0) && s.nTotal + s.nIdle + 1 > 0
    ensures Inv(ok, Proceed(s, t))
  {
    OneThread(s, t, Waiting);
    OthersOk(ok, s.added, s.threads, t, Waiting);
  }

  lemma {:induction false} TakeIsRight(ok: Check -> bool, s: State, t: nat)
    requires Holding(ok, s, t) && s.queue != [] && s.nTotal + s.nIdle + 1 > 0
    ensures Inv(ok, Proceed(s, t))
  {
    var n := BatchSize(s);
    TakeBatch(ok, s, t, n);
    var pc := Working(TakeBack(s.queue, n), 0, s.fAllOk);
    assert Proceed(s, t) == s.(queue := s.queue[..|s.queue| - n], threads := s.threads[t := pc]);
  }

  lemma {:induction false} TakeBatch(ok: Check -> bool, s: State, t: nat, n: nat)
    requires Holding(ok, s, t) && 1 <= n <= |s.queue|
    ensures Inv(ok, s.(queue := s.queue[..|s.queue| - n],
                       threads := s.threads[t := Working(TakeBack(s.queue, n), 0, s.fAllOk)]))
  {
    var pc := Working(TakeBack(s.queue, n), 0, s.fAllOk);
    TakeConserves(s, t, n, s.fAllOk);
    assert Done(pc) == [];
    OthersOk(ok, s.added, s.threads, t, pc);
  }

  // ---------------------------------------------------------------- main results

  /** The master returns from Wait in this step. */
  predicate Returns(s: State, s': State) {
    s.threads != [] && s'.threads != [] && !s.threads[MASTER].Returned? && s'.threads[MASTER].Returned?
  }

  /** The result is exact, nothing of the session is left, and the queue is as new. */
  ghost predicate ExactReturn(ok: Check -> bool, s: State, s': State)
    requires Returns(s, s')
  {
    && (s'.threads[MASTER].result <==> AllGood(ok, s.added))
    && s'.queue == [] && s'.nTodo == 0 && s'.fAllOk
    && Held(s'.threads) == multiset{} && s'.added == multiset{}
  }

  lemma {:induction false} LockKeeps(ok: Check -> bool, s: State, s': State, t: nat)
    requires Inv(ok, s) && Lock(s, s', t)
    ensures Inv(ok, s')
    ensures Returns(s, s') ==> ExactReturn(ok, s, s')
  {
    var c := CleanUp(s, t);
    CleanUpHolds(ok, s, t);
    ProceedKeeps(ok, c, t);
    if Returns(s, s') {
      ReturnIsRight(ok, c);
      NothingTaken(s'.threads);
    }
  }

  lemma {:induction false} WakeKeeps(ok: Check -> bool, s: State, s': State, t: nat)
    requires Inv(ok, s) && Wake(s, s', t)
    ensures Inv(ok, s')
    ensures Returns(s, s') ==> ExactReturn(ok, s, s')
  {
    var w := s.(nIdle := s.nIdle - 1, threads := s.threads[t := Working([], 0, true)]);
    WakeHolds(ok, s, t);
    ProceedKeeps(ok, w, t);
    if Returns(s, s') {
      ReturnIsRight(ok, w);
      NothingTaken(s'.threads);
    }
  }

  lemma {:induction false} NextKeeps(ok: Check -> bool, s: State, s': State)
    requires Inv(ok, s) && Next(ok, s, s')
    ensures Inv(ok, s')
    ensures Returns(s, s') ==> ExactReturn(ok, s, s')
  {
    var step :| StepTo(ok, s, s', step);
    StepKeeps(ok, s, s', step);
  }

  lemma {:induction false} StepKeeps(ok: Check -> bool, s: State, s': State, step: Step)
    requires Inv(ok, s) && StepTo(ok, s, s', step)
    ensures Inv(ok, s')
    ensures Returns(s, s') ==> ExactReturn(ok, s, s')
  {
    match step
    case EnterStep(t) => EnterKeeps(ok, s, s', t);
    case LockStep(t) => LockKeeps(ok, s, s', t);
    case WakeStep(t) => WakeKeeps(ok, s, s', t);
    case EvaluateStep(t) => EvaluateKeeps(ok, s, s', t);
    case AddStep(checks) => AddKeeps(ok, s, s', checks);
    case LeaveStep => LeaveKeeps(ok, s, s');
  }

  ghost predicate IsRun(ok: Check -> bool, run: seq<State>) {
    && run != [] && Init(run[0])
    && forall i :: 0 <= i < |run| - 1 ==> Next(ok, run[i], run[i + 1])
  }

  /** In every interleaving, at every moment: the invariant holds. */
  lemma {:induction false} EveryRun(ok: Check -> bool, run: seq<State>, i: nat)
    requires IsRun(ok, run) && i < |run|
    ensures Inv(ok, run[i])
  {
    if i == 0 {
      InitHolds(ok, run[0]);
    } else {
      EveryRun(ok, run, i - 1);
      assert Next(ok, run[i - 1], run[i - 1 + 1]);
      NextKeeps(ok, run[i - 1], run[i]);
    }
  }

  /**
   When Wait returns, in any run, nothing is queued or in the hands of a thread, the result is true exactly if every
   check added since the previous Wait succeeds, and the queue is as new.
   */
  lemma {:induction false} WaitIsExact(ok: Check -> bool, run: seq<State>, i: nat)
    requires IsRun(ok, run) && i + 1 < |run| && Returns(run[i], run[i + 1])
    ensures ExactReturn(ok, run[i], run[i + 1])
  {
    EveryRun(ok, run, i);
    assert Next(ok, run[i], run[i + 1]);
    NextKeeps(ok, run[i], run[i + 1]);
  }

  lemma {:induction false} SomeoneHolds(threads: seq<Pc>) returns (t: nat)
    requires |Held(threads)| > 0
    ensures t < |threads| && threads[t].Taken() != []
  {
    if threads[0].Taken() != [] {
      t := 0;
    } else {
      t := SomeoneHolds(threads[1..]);
      t := t + 1;
    }
  }

  /** A step of some thread other than a wake-up that goes back to sleep. */
  predicate UsefulBy(ok: Check -> bool, s: State, s': State, t: nat) {
    Lock(s, s', t) || Evaluate(ok, s, s', t) || (Wake(s, s', t) && t < |s'.threads| && !s'.threads[t].Waiting?)
  }

  ghost predicate Useful(ok: Check -> bool, s: State, s': State) {
    exists t :: UsefulBy(ok, s, s', t)
  }

  /** While the master is in Wait some thread can make a useful step: no notification is lost. */
  lemma {:induction false} NeverStuck(ok: Check -> bool, s: State) returns (s': State)
    requires Inv(ok, s) && !s.threads[MASTER].Outside? && !s.threads[MASTER].Returned?
    ensures Useful(ok, s, s')
    ensures s.threads[MASTER].Waiting? && s.notified ==> Returns(s, s')
  {
    if s.threads[MASTER].Waiting? && s.notified {
      s' := CanWake(ok, s, MASTER);
      assert UsefulBy(ok, s, s', MASTER);
    } else {
      var t: nat := MASTER;
      if s.threads[MASTER].Waiting? {
        t := SomeoneHolds(s.threads);
      }
      s' := CanMove(ok, s, t);
    }
  }

  lemma {:induction false} CanMove(ok: Check -> bool, s: State, t: nat) returns (s': State)
    requires Inv(ok, s) && t < |s.threads| && (s.threads[t].AtLock? || s.threads[t].Working?)
    ensures Useful(ok, s, s')
  {
    if s.threads[t].AtLock? {
      s' := CanLock(ok, s, t);
    } else {
      s' := CanEvaluate(ok, s, t);
    }
    assert UsefulBy(ok, s, s', t);
  }

  /** How many steps a thread needs at most to be done with what it has taken. */
  function Weight(pc: Pc): nat {
    match pc
    case Working(batch, done, _) => (if done <= |batch| then |batch| - done else 0) + 2
    case AtLock(_, _) => 1
    case _ => 0
  }

  ghost function Load(threads: seq<Pc>): nat {
    if threads == [] then 0 else Weight(threads[0]) + Load(threads[1..])
  }

  lemma {:induction false} LoadUpdate(threads: seq<Pc>, t: nat, pc: Pc)
    requires t < |threads|
    ensures Load(threads[t := pc]) == Load(threads) - Weight(threads[t]) + Weight(pc)
    decreases |threads|
  {
    if t > 0 {
      assert threads[t := pc][1..] == threads[1..][t - 1 := pc];
      LoadUpdate(threads[1..], t - 1, pc);
    } else {
      assert threads[t := pc][1..] == threads[1..];
    }
  }

  ghost function Remaining(s: State): nat {
    4 * |s.queue| + Load(s.threads)
  }

  lemma {:induction false} UsefulProgress(ok: Check -> bool, s: State, s': State, t: nat)
    requires Inv(ok, s) && UsefulBy(ok, s, s', t)
    ensures Inv(ok, s')
    ensures Remaining(s') < Remaining(s) || Returns(s, s')
  {
    if Evaluate(ok, s, s', t) {
      assert OkAt(ok, s.added, s.threads, t);
      EvaluateKeeps(ok, s, s', t);
      LoadUpdate(s.threads, t, s'.threads[t]);
    } else if Lock(s, s', t) {
      LockKeeps(ok, s, s', t);
      LockProgress(s, s', t);
    } else {
      WakeKeeps(ok, s, s', t);
      WakeProgress(s, s', t);
    }
  }

  /** At the loop head a thread takes on less than it takes from the queue. */
  lemma {:induction false} ProceedProgress(s: State, t: nat)
    requires t < |s.threads| && s.nTotal + s.nIdle + 1 > 0
    ensures var s' := Proceed(s, t);
            && t < |s'.threads| && s'.threads == s.threads[t := s'.threads[t]]
            && (if s'.threads[t].Working? then 4 * |s'.queue| + Weight(s'.threads[t]) < 4 * |s.queue|
                else s'.queue == s.queue && Weight(s'.threads[t]) == 0)
            && (!s'.threads[t].Working? && !s'.threads[t].Waiting? ==> t == MASTER && s'.threads[t].Returned?)
  {
  }

  lemma {:induction false} LockProgress(s: State, s': State, t: nat)
    requires Lock(s, s', t)
    ensures Remaining(s') < Remaining(s)
  {
    ProceedProgress(CleanUp(s, t), t);
    assert s'.threads == s.threads[t := s'.threads[t]];
    LoadUpdate(s.threads, t, s'.threads[t]);
  }

  lemma {:induction false} WakeProgress(s: State, s': State, t: nat)
    requires Wake(s, s', t) && t < |s'.threads| && !s'.threads[t].Waiting?
    ensures Remaining(s') < Remaining(s) || Returns(s, s')
  {
    ProceedProgress(s.(nIdle := s.nIdle - 1, threads := s.threads[t := Working([], 0, true)]), t);
    assert s'.threads == s.threads[t := s'.threads[t]];
    LoadUpdate(s.threads, t, s'.threads[t]);
  }

  /**
   However the useful steps are scheduled, the master returns from Wait after no more of them than the work at hand
   calls for.
   */
  lemma {:induction false} WaitEnds(ok: Check -> bool, path: seq<State>)
    requires path != [] && Inv(ok, path[0])
    requires forall i {:trigger path[i]} :: 0 <= i < |path| - 1 ==>
               Useful(ok, path[i], path[i + 1]) && !Returns(path[i], path[i + 1])
    ensures |path| - 1 <= Remaining(path[0])
    decreases |path|
  {
    if |path| > 1 {
      var t :| UsefulBy(ok, path[0], path[1], t);
      UsefulProgress(ok, path[0], path[1], t);
      forall i {:trigger path[1..][i]} | 0 <= i < |path[1..]| - 1
        ensures Useful(ok, path[1..][i], path[1..][i + 1]) && !Returns(path[1..][i], path[1..][i + 1])
      {
        assert path[1..][i] == path[i + 1] && path[1..][i + 1] == path[i + 2];
      }
      WaitEnds(ok, path[1..]);
    }
  }

  lemma {:induction false} CanLock(ok: Check -> bool, s: State, t: nat) returns (s': State)
    requires Inv(ok, s) && t < |s.threads| && s.threads[t].AtLock?
    ensures Lock(s, s', t)
  {
    CleanUpHolds(ok, s, t);
    ProceedKeeps(ok, CleanUp(s, t), t);
    s' := Proceed(CleanUp(s, t), t);
  }

  lemma {:induction false} CanEvaluate(ok: Check -> bool, s: State, t: nat) returns (s': State)
    requires Inv(ok, s) && t < |s.threads| && s.threads[t].Working?
    ensures Evaluate(ok, s, s', t)
  {
    var Working(batch, done, fOk) := s.threads[t];
    var pc := if done < |batch| then Working(batch, done + 1, fOk && ok(batch[done])) else AtLock(batch, fOk);
    s' := s.(threads := s.threads[t := pc]);
  }

  lemma {:induction false} CanWake(ok: Check -> bool, s: State, t: nat) returns (s': State)
    requires Inv(ok, s) && t < |s.threads| && s.threads[t].Waiting?
    ensures Wake(s, s', t)
    ensures t == MASTER && s.notified ==> s'.threads[MASTER].Returned?
  {
    var w := s.(nIdle := s.nIdle - 1, threads := s.threads[t := Working([], 0, true)]);
    WakeHolds(ok, s, t);
    ProceedKeeps(ok, w, t);
    s' := Proceed(w, t);
  }
}
