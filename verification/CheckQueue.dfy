/** The parallel check queue: one master adds batches of checks and then joins the workers until all are done.
    Each critical section of the mutex is one step; threads interleave freely between steps. */
module CheckQueue {
  import opened Arithmetic

  type Check = nat
  type Tid = nat
  const MASTER: Tid := 0

  datatype Thread =
    | Outside                                   // not in the loop
    | AtTop(batch: seq<Check>, ok: bool)        // about to lock, with a finished batch not yet acknowledged
    | Running(batch: seq<Check>, next: nat, ok: bool)
    | Asleep(notified: bool)                    // in the condition wait

  /** One completed Wait: what it returned and the checks added for it. */
  datatype Answer = Answer(value: bool, checks: seq<Check>)

  /** The shared variables, the threads, and the history needed to say what Wait promises. */
  datatype State = State(
    queue: seq<Check>, nIdle: int, nTotal: int, allOk: bool, nTodo: int, batchSize: nat,
    threads: map<Tid, Thread>,
    added: seq<Check>, acked: multiset<Check>, answers: seq<Answer>)

  function Initial(batchSize: nat, workers: set<Tid>): State {
    State([], 0, 0, true, 0, batchSize, map t | t in workers + {MASTER} :: Outside, [], multiset{}, [])
  }

  datatype Step =
    | Start(t: Tid)                                   // a worker thread, or the master calling Wait, enters the loop
    | AddChecks(checks: seq<Check>, woken: set<Tid>)
    | Enter(t: Tid)                                   // the critical section at the top of the loop
    | Wake(t: Tid)                                    // return from the condition wait, also a spurious one
    | Work(t: Tid)                                    // run one check outside the mutex, or finish the batch

  // ----- the steps

  predicate IsAsleep(s: State, t: Tid) {
    t in s.threads && s.threads[t].Asleep?
  }

  function SetThread(s: State, t: Tid, th: Thread): State {
    s.(threads := s.threads[t := th])
  }

  lemma QuotientBound(a: nat, d: int)
    requires d > 0
    ensures 0 <= a / d <= a
  {
    var q := a / d;
    assert a == d * q + a % d;
    Scales(q, d);
  }

  lemma Scales(q: int, d: int)
    requires d > 0
    ensures (q < 0 ==> d * q <= -d) && (q >= 0 ==> d * q >= q)
  {
  }

  /** How many checks a thread takes at once: at least one, never more than there are. */
  function BatchLength(queued: nat, batchSize: nat, sharers: int): (n: int)
    requires sharers > 0 && queued > 0
    ensures 1 <= n <= queued
  {
    QuotientBound(queued, sharers);
    Max(1, Min(batchSize, queued / sharers))
  }

  /** The last n checks of the queue, last first, and the rest. */
  function TakeBack(queue: seq<Check>, n: nat): (r: (seq<Check>, seq<Check>))
    requires n <= |queue|
    ensures |r.0| == n && |r.1| == |queue| - n
    ensures multiset(r.0) + multiset(r.1) == multiset(queue)
  {
    if n == 0 then ([], queue)
    else
      var last := |queue| - 1;
      var (batch, rest) := TakeBack(queue[..last], n - 1);
      assert queue == queue[..last] + [queue[last]];
      ([queue[last]] + batch, rest)
  }

  /** The inner loop up to taking a batch, going to sleep, or the master's return. */
  function Proceed(s: State, t: Tid): State
    requires s.nTotal + s.nIdle + 1 > 0
  {
    if s.queue == [] then
      if t == MASTER && s.nTodo == 0 then
        s.(nTotal := s.nTotal - 1, allOk := true,
           added := [], acked := multiset{}, answers := s.answers + [Answer(s.allOk, s.added)])
      else SetThread(s, t, Asleep(false)).(nIdle := s.nIdle + 1)
    else
      var (batch, rest) := TakeBack(s.queue, BatchLength(|s.queue|, s.batchSize, s.nTotal + s.nIdle + 1));
      SetThread(s, t, Running(batch, 0, s.allOk)).(queue := rest)
  }

  function NotifyMaster(s: State): State {
    if IsAsleep(s, MASTER) then SetThread(s, MASTER, Asleep(true)) else s
  }

  /** The acknowledgement of a finished batch, or the count of a thread that has just started. */
  function CleanUp(s: State, t: Tid, batch: seq<Check>, ok: bool): State {
    if batch == [] then s.(nTotal := s.nTotal + 1)
    else
      var u := s.(allOk := s.allOk && ok, nTodo := s.nTodo - |batch|, acked := s.acked + multiset(batch));
      if u.nTodo == 0 && t != MASTER then NotifyMaster(u) else u
  }

  /** notify_one for a single check, notify_all for more. */
  predicate WakesWorkers(s: State, checks: seq<Check>, woken: set<Tid>) {
    && (forall t :: t in woken ==> t != MASTER && IsAsleep(s, t))
    && (|checks| == 0 ==> woken == {})
    && (|checks| == 1 ==> |woken| <= 1)
    && (|checks| > 1 ==> forall t :: t in s.threads && t != MASTER && IsAsleep(s, t) ==> t in woken)
  }

  function WakeAll(threads: map<Tid, Thread>, woken: set<Tid>): map<Tid, Thread> {
    map t | t in threads :: if t in woken then Asleep(true) else threads[t]
  }

  predicate Enabled(s: State, step: Step) {
    match step
    case Start(t) => t in s.threads && s.threads[t].Outside?
    case AddChecks(checks, woken) =>
      MASTER in s.threads && s.threads[MASTER].Outside? && WakesWorkers(s, checks, woken)
    case Enter(t) => t in s.threads && s.threads[t].AtTop?
    case Wake(t) => IsAsleep(s, t)
    case Work(t) => t in s.threads && s.threads[t].Running?
  }

  /** While a thread holds the lock its batch is put away: it counts as outside. */
  function Locked(s: State, t: Tid): State {
    SetThread(s, t, Outside)
  }

  function AfterEnter(s: State, t: Tid): State
    requires t in s.threads && s.threads[t].AtTop?
  {
    CleanUp(Locked(s, t), t, s.threads[t].batch, s.threads[t].ok)
  }

  function AfterWake(s: State, t: Tid): State {
    Locked(s, t).(nIdle := s.nIdle - 1)
  }

  function Next(ev: Check -> bool, s: State, step: Step): State
    requires Enabled(s, step) && Inv(ev, s)
  {
    match step
    case Start(t) => SetThread(s, t, AtTop([], true))
    case AddChecks(checks, woken) =>
      s.(queue := s.queue + checks, nTodo := s.nTodo + |checks|, added := s.added + checks,
         threads := WakeAll(s.threads, woken))
    case Enter(t) => EnterKeeps(ev, s, t); MidCounts(ev, AfterEnter(s, t), t); Proceed(AfterEnter(s, t), t)
    case Wake(t) => WakeKeeps(ev, s, t); MidCounts(ev, AfterWake(s, t), t); Proceed(AfterWake(s, t), t)
    case Work(t) => SetThread(s, t, Worked(ev, s.threads[t]))
  }

  /** The work loop runs a check only while no earlier one has failed. */
  function Worked(ev: Check -> bool, th: Thread): Thread
    requires th.Running?
  {
    if th.next < |th.batch| then Running(th.batch, th.next + 1, if th.ok then ev(th.batch[th.next]) else false)
    else AtTop(th.batch, th.ok)
  }

  // ----- sums over the threads

  function BatchOf(th: Thread): seq<Check> {
    match th
    case AtTop(batch, _) => batch
    case Running(batch, _, _) => batch
    case _ => []
  }

  /** The checks in batches that have not been acknowledged. */
  ghost function Batches(threads: map<Tid, Thread>): multiset<Check>
    decreases |threads|
  {
    if threads == map[] then multiset{}
    else
      var t :| t in threads;
      multiset(BatchOf(threads[t])) + Batches(threads - {t})
  }

  lemma {:induction false} BatchesOf(threads: map<Tid, Thread>, t: Tid)
    requires t in threads
    ensures Batches(threads) == multiset(BatchOf(threads[t])) + Batches(threads - {t})
    decreases |threads|
  {
    var u :| u in threads && Batches(threads) == multiset(BatchOf(threads[u])) + Batches(threads - {u});
    if u != t {
      BatchesOf(threads - {u}, t);
      BatchesOf(threads - {t}, u);
      assert threads - {u} - {t} == threads - {t} - {u};
    }
  }

  lemma BatchesSet(threads: map<Tid, Thread>, t: Tid, th: Thread)
    requires t in threads
    ensures Batches(threads[t := th]) + multiset(BatchOf(threads[t])) == Batches(threads) + multiset(BatchOf(th))
  {
    BatchesOf(threads, t);
    BatchesOf(threads[t := th], t);
    assert threads[t := th] - {t} == threads - {t};
  }

  function Sleepers(threads: map<Tid, Thread>): set<Tid> {
    set t | t in threads && threads[t].Asleep?
  }

  predicate IsCounted(th: Thread) {
    th.Asleep? || th.Running? || (th.AtTop? && th.batch != [])
  }

  /** The threads that have been through their first critical section. */
  function Counted(threads: map<Tid, Thread>): set<Tid> {
    set t | t in threads && IsCounted(threads[t])
  }

  lemma CountsSet(threads: map<Tid, Thread>, t: Tid, th: Thread)
    requires t in threads
    ensures |Sleepers(threads[t := th])|
         == |Sleepers(threads)| - (if threads[t].Asleep? then 1 else 0) + (if th.Asleep? then 1 else 0)
    ensures |Counted(threads[t := th])|
         == |Counted(threads)| - (if IsCounted(threads[t]) then 1 else 0) + (if IsCounted(th) then 1 else 0)
  {
    SleepersSet(threads, t, th);
    var after := threads[t := th];
    hide IsCounted;
    assert Counted(after) - {t} == Counted(threads) - {t};
    SizeWithout(Counted(after), t);
    SizeWithout(Counted(threads), t);
  }

  lemma SleepersSet(threads: map<Tid, Thread>, t: Tid, th: Thread)
    requires t in threads
    ensures |Sleepers(threads[t := th])|
         == |Sleepers(threads)| - (if threads[t].Asleep? then 1 else 0) + (if th.Asleep? then 1 else 0)
  {
    var after := threads[t := th];
    assert Sleepers(after) - {t} == Sleepers(threads) - {t};
    SizeWithout(Sleepers(after), t);
    SizeWithout(Sleepers(threads), t);
  }

  lemma SizeWithout(x: set<Tid>, t: Tid)
    ensures |x| == |x - {t}| + (if t in x then 1 else 0)
  {
    if t !in x { assert x - {t} == x; }
  }

  // ----- what every step keeps

  ghost predicate HasBad(ev: Check -> bool, checks: seq<Check>) {
    exists c :: c in checks && !ev(c)
  }

  ghost predicate ThreadOk(ev: Check -> bool, added: seq<Check>, th: Thread) {
    match th
    case Running(batch, next, ok) =>
      && 0 < |batch| && next <= |batch|
      && (ok ==> forall i :: 0 <= i < next ==> ev(batch[i]))
      && (!ok ==> HasBad(ev, added))
    case AtTop(batch, ok) =>
      && (batch == [] ==> ok)
      && (ok ==> forall i :: 0 <= i < |batch| ==> ev(batch[i]))
      && (!ok ==> HasBad(ev, added))
    case _ => true
  }

  ghost predicate ThreadsOk(ev: Check -> bool, added: seq<Check>, threads: map<Tid, Thread>) {
    forall t :: t in threads ==> ThreadOk(ev, added, threads[t])
  }

  /** Every added check is in the queue, in exactly one batch, or acknowledged; nTodo counts the first two. */
  ghost predicate Conserved(s: State) {
    && multiset(s.added) == multiset(s.queue) + Batches(s.threads) + s.acked
    && s.nTodo == |s.queue| + |Batches(s.threads)|
  }

  ghost predicate Verdicts(ev: Check -> bool, s: State) {
    && ThreadsOk(ev, s.added, s.threads)
    && (s.allOk ==> forall c :: c in s.acked ==> ev(c))
    && (!s.allOk ==> HasBad(ev, s.added))
    && (forall i :: 0 <= i < |s.answers| ==> (s.answers[i].value <==> !HasBad(ev, s.answers[i].checks)))
  }

  /** A master that waits has work outstanding, or its wake-up is on the way. */
  ghost predicate MasterSafe(s: State) {
    && MASTER in s.threads
    && (s.threads[MASTER].Asleep? ==> s.queue == [] && (s.nTodo > 0 || s.threads[MASTER].notified))
  }

  /** `held` is 1 while some thread is inside a critical section past its start, else 0. */
  ghost predicate Tallied(s: State, held: int) {
    s.nIdle == |Sleepers(s.threads)| && s.nTotal == |Counted(s.threads)| + held
  }

  ghost predicate Inv(ev: Check -> bool, s: State) {
    Conserved(s) && Verdicts(ev, s) && MasterSafe(s) && Tallied(s, 0)
  }

  /** What holds in a critical section once the clean-up is done. */
  ghost predicate Mid(ev: Check -> bool, s: State, t: Tid) {
    && t in s.threads && s.threads[t].Outside?
    && Conserved(s) && Verdicts(ev, s) && MasterSafe(s) && Tallied(s, 1)
  }

  // ----- inside a critical section

  /** Replacing one thread by another with the same checks moves no check. */
  lemma SetConserves(s: State, t: Tid, th: Thread, held: int)
    requires Conserved(s) && Tallied(s, held) && t in s.threads && BatchOf(th) == BatchOf(s.threads[t])
    ensures Conserved(SetThread(s, t, th))
    ensures s.threads[t].Asleep? == th.Asleep? && IsCounted(s.threads[t]) == IsCounted(th) ==> Tallied(SetThread(s, t, th), held)
  {
    BatchesSet(s.threads, t, th);
    CountsSet(s.threads, t, th);
    var after := s.threads[t := th];
    assert Batches(after) == Batches(after) + multiset(BatchOf(th)) - multiset(BatchOf(th));
    assert Batches(s.threads) == Batches(s.threads) + multiset(BatchOf(th)) - multiset(BatchOf(th));
  }

  lemma WakeKeeps(ev: Check -> bool, s: State, t: Tid)
    requires Inv(ev, s) && IsAsleep(s, t)
    ensures Mid(ev, AfterWake(s, t), t)
  {
    SetConserves(s, t, Outside, 0);
    CountsSet(s.threads, t, Outside);
    hide Batches;
  }

  /** Moving a batch from a thread to the acknowledged checks. */
  lemma AckConserves(s: State, t: Tid, allOk: bool)
    requires Conserved(s) && t in s.threads
    ensures var batch := BatchOf(s.threads[t]);
            Conserved(Locked(s, t).(allOk := allOk, nTodo := s.nTodo - |batch|, acked := s.acked + multiset(batch)))
  {
    BatchesSet(s.threads, t, Outside);
    var batch := BatchOf(s.threads[t]);
    var after := s.threads[t := Outside];
    assert multiset(BatchOf(Outside)) == multiset{};
    assert Batches(after) + multiset(batch) == Batches(s.threads);
    assert |Batches(after)| + |batch| == |Batches(s.threads)|;
  }

  lemma NotifyConserves(s: State, held: int)
    requires Conserved(s) && Tallied(s, held)
    ensures Conserved(NotifyMaster(s)) && Tallied(NotifyMaster(s), held)
  {
    if IsAsleep(s, MASTER) { SetConserves(s, MASTER, Asleep(true), held); }
  }

  lemma EnterConserved(s: State, t: Tid)
    requires Conserved(s) && Tallied(s, 0) && t in s.threads && s.threads[t].AtTop?
    ensures Conserved(AfterEnter(s, t)) && Tallied(AfterEnter(s, t), 1)
  {
    hide Conserved;
    var th := s.threads[t];
    CountsSet(s.threads, t, Outside);
    AckConserves(s, t, s.allOk && th.ok);
    if th.batch == [] {
      SetConserves(s, t, Outside, 0);
      CounterConserves(Locked(s, t), AfterEnter(s, t));
    } else {
      var u := Locked(s, t).(allOk := s.allOk && th.ok, nTodo := s.nTodo - |th.batch|, acked := s.acked + multiset(th.batch));
      NotifyConserves(u, 1);
    }
  }

  /** The thread counters have no part in where the checks are. */
  lemma CounterConserves(s: State, u: State)
    requires Conserved(s) && u.added == s.added && u.queue == s.queue && u.threads == s.threads
    requires u.acked == s.acked && u.nTodo == s.nTodo
    ensures Conserved(u)
  {
  }

  lemma MidCounts(ev: Check -> bool, s: State, t: Tid)
    requires Mid(ev, s, t)
    ensures s.nTotal >= 1 && s.nIdle >= 0 && s.nTodo >= 0
  {
  }

  lemma AckVerdicts(ev: Check -> bool, s: State, t: Tid, nTodo: int)
    requires Verdicts(ev, s) && t in s.threads && s.threads[t].AtTop?
    ensures var th := s.threads[t];
            Verdicts(ev, Locked(s, t).(allOk := s.allOk && th.ok, nTodo := nTodo, acked := s.acked + multiset(th.batch)))
  {
    hide HasBad;
    var batch := s.threads[t].batch;
    assert ThreadOk(ev, s.added, s.threads[t]);
    forall c | c in multiset(batch) && s.threads[t].ok ensures ev(c) {
      var i :| 0 <= i < |batch| && batch[i] == c;
    }
  }

  lemma NotifyVerdicts(ev: Check -> bool, s: State)
    requires Verdicts(ev, s)
    ensures Verdicts(ev, NotifyMaster(s))
  {
    hide HasBad;
  }

  lemma EnterVerdicts(ev: Check -> bool, s: State, t: Tid)
    requires Verdicts(ev, s) && t in s.threads && s.threads[t].AtTop?
    ensures Verdicts(ev, AfterEnter(s, t))
  {
    var th := s.threads[t];
    if th.batch == [] {
      StartVerdicts(ev, s, t);
    } else {
      hide Verdicts, NotifyMaster;
      AckVerdicts(ev, s, t, s.nTodo - |th.batch|);
      NotifyVerdicts(ev, Locked(s, t).(allOk := s.allOk && th.ok, nTodo := s.nTodo - |th.batch|,
                                       acked := s.acked + multiset(th.batch)));
    }
  }

  lemma StartVerdicts(ev: Check -> bool, s: State, t: Tid)
    requires Verdicts(ev, s) && t in s.threads
    ensures Verdicts(ev, Locked(s, t).(nTotal := s.nTotal + 1))
  {
    hide HasBad;
  }

  lemma EnterKeeps(ev: Check -> bool, s: State, t: Tid)
    requires Inv(ev, s) && t in s.threads && s.threads[t].AtTop?
    ensures Mid(ev, AfterEnter(s, t), t)
  {
    EnterConserved(s, t);
    EnterVerdicts(ev, s, t);
    EnterSafe(s, t);
    hide Conserved, Verdicts, Tallied, MasterSafe;
  }

  /** Whoever acknowledges the last check wakes a waiting master. */
  lemma EnterSafe(s: State, t: Tid)
    requires t in s.threads && s.threads[t].AtTop? && MasterSafe(s) && AfterEnter(s, t).nTodo >= 0
    ensures MasterSafe(AfterEnter(s, t)) && t in AfterEnter(s, t).threads && AfterEnter(s, t).threads[t].Outside?
  {
    hide Batches;
  }

  // ----- leaving a critical section

  /** With nothing outstanding every batch is empty. */
  lemma NoBatches(s: State, t: Tid)
    requires Conserved(s) && s.nTodo == 0 && t in s.threads
    ensures BatchOf(s.threads[t]) == [] && Batches(s.threads) == multiset{} && s.acked == multiset(s.added)
  {
    BatchesOf(s.threads, t);
    assert |Batches(s.threads)| == |BatchOf(s.threads[t])| + |Batches(s.threads - {t})|;
    assert |s.queue| == 0 && |Batches(s.threads)| == 0;
    assert multiset(s.queue) == multiset{};
  }

  /** The master returns true exactly when every check added for it evaluates to true. */
  lemma ReturnKeeps(ev: Check -> bool, s: State)
    requires Mid(ev, s, MASTER) && s.queue == [] && s.nTodo == 0
    ensures Inv(ev, Proceed(s, MASTER))
    ensures s.allOk <==> !HasBad(ev, s.added)
  {
    var t := Proceed(s, MASTER);
    NoBatches(s, MASTER);
    forall x | x in s.threads ensures ThreadOk(ev, [], s.threads[x]) {
      NoBatches(s, x);
      assert ThreadOk(ev, s.added, s.threads[x]);
    }
    forall c | c in s.added ensures c in s.acked {}
  }

  lemma SleepKeeps(ev: Check -> bool, s: State, t: Tid)
    requires Mid(ev, s, t) && s.queue == [] && !(t == MASTER && s.nTodo == 0)
    ensures Inv(ev, Proceed(s, t))
  {
    SetConserves(s, t, Asleep(false), 1);
    CountsSet(s.threads, t, Asleep(false));
    hide Batches;
  }

  lemma TakeConserves(s: State, t: Tid, batch: seq<Check>, rest: seq<Check>, ok: bool)
    requires Conserved(s) && t in s.threads && s.threads[t].Outside? && |batch| + |rest| == |s.queue|
    requires multiset(batch) + multiset(rest) == multiset(s.queue)
    ensures Conserved(SetThread(s, t, Running(batch, 0, ok)).(queue := rest))
  {
    var th := Running(batch, 0, ok);
    BatchesSet(s.threads, t, th);
    var after := s.threads[t := th];
    assert multiset(BatchOf(s.threads[t])) == multiset{};
    assert Batches(after) == Batches(s.threads) + multiset(batch);
    assert |Batches(after)| == |Batches(s.threads)| + |batch|;
  }

  lemma TakeKeeps(ev: Check -> bool, s: State, t: Tid, batch: seq<Check>, rest: seq<Check>)
    requires Mid(ev, s, t) && s.queue != [] && |batch| > 0 && |batch| + |rest| == |s.queue|
    requires multiset(batch) + multiset(rest) == multiset(s.queue)
    ensures Inv(ev, SetThread(s, t, Running(batch, 0, s.allOk)).(queue := rest))
  {
    hide Conserved;
    TakeConserves(s, t, batch, rest, s.allOk);
    CountsSet(s.threads, t, Running(batch, 0, s.allOk));
    assert s.threads[MASTER].Asleep? ==> s.queue == [];
  }

  lemma ProceedKeeps(ev: Check -> bool, s: State, t: Tid)
    requires Mid(ev, s, t) && s.nTotal + s.nIdle + 1 > 0
    ensures Inv(ev, Proceed(s, t))
    ensures s.answers <= Proceed(s, t).answers
  {
    hide Mid, Inv;
    if s.queue == [] {
      if t == MASTER && s.nTodo == 0 { ReturnKeeps(ev, s); } else { SleepKeeps(ev, s, t); }
    } else {
      var (batch, rest) := TakeBack(s.queue, BatchLength(|s.queue|, s.batchSize, s.nTotal + s.nIdle + 1));
      TakeKeeps(ev, s, t, batch, rest);
    }
  }

  // ----- the other steps

  lemma {:induction false} BatchesEqual(a: map<Tid, Thread>, b: map<Tid, Thread>)
    requires a.Keys == b.Keys && forall t :: t in a ==> BatchOf(a[t]) == BatchOf(b[t])
    ensures Batches(a) == Batches(b)
    decreases |a|
  {
    if a != map[] {
      var t :| t in a;
      BatchesOf(a, t);
      BatchesOf(b, t);
      assert (a - {t}).Keys == (b - {t}).Keys;
      BatchesEqual(a - {t}, b - {t});
    } else {
      assert b == map[];
    }
  }

  lemma AddConserves(s: State, checks: seq<Check>, woken: set<Tid>)
    requires Conserved(s) && Tallied(s, 0) && WakesWorkers(s, checks, woken)
    ensures var u := s.(queue := s.queue + checks, nTodo := s.nTodo + |checks|, added := s.added + checks,
                        threads := WakeAll(s.threads, woken));
            Conserved(u) && Tallied(u, 0)
  {
    var after := WakeAll(s.threads, woken);
    WokenSame(s, checks, woken);
    BatchesEqual(s.threads, after);
    hide WakeAll, Batches, Sleepers, Counted;
    assert multiset(s.queue + checks) == multiset(s.queue) + multiset(checks);
    assert multiset(s.added + checks) == multiset(s.added) + multiset(checks);
  }

  lemma WokenSame(s: State, checks: seq<Check>, woken: set<Tid>)
    requires WakesWorkers(s, checks, woken)
    ensures var after := WakeAll(s.threads, woken);
            && after.Keys == s.threads.Keys && (forall t :: t in after ==> BatchOf(after[t]) == BatchOf(s.threads[t]))
            && Sleepers(after) == Sleepers(s.threads) && Counted(after) == Counted(s.threads)
  {
  }

  lemma AddKeeps(ev: Check -> bool, s: State, checks: seq<Check>, woken: set<Tid>)
    requires Inv(ev, s) && Enabled(s, AddChecks(checks, woken))
    ensures Inv(ev, Next(ev, s, AddChecks(checks, woken)))
  {
    AddConserves(s, checks, woken);
    var u := Next(ev, s, AddChecks(checks, woken));
    hide Conserved, Tallied;
    if HasBad(ev, s.added) {
      var c :| c in s.added && !ev(c);
      assert c in u.added;
    }
    forall t | t in u.threads ensures ThreadOk(ev, u.added, u.threads[t]) {
      assert ThreadOk(ev, s.added, s.threads[t]);
    }
    assert MASTER !in woken;
  }

  lemma StartKeeps(ev: Check -> bool, s: State, t: Tid)
    requires Inv(ev, s) && Enabled(s, Start(t))
    ensures Inv(ev, Next(ev, s, Start(t)))
  {
    SetConserves(s, t, AtTop([], true), 0);
    hide Batches;
  }

  lemma WorkKeeps(ev: Check -> bool, s: State, t: Tid)
    requires Inv(ev, s) && Enabled(s, Work(t))
    ensures Inv(ev, Next(ev, s, Work(t)))
  {
    hide Conserved, Tallied, HasBad;
    var th := s.threads[t];
    assert ThreadOk(ev, s.added, th);
    WorkSound(ev, s, t);
    WorkedSame(ev, th);
    SetConserves(s, t, Worked(ev, th), 0);
  }

  lemma WorkedSame(ev: Check -> bool, th: Thread)
    requires th.Running? && 0 < |th.batch|
    ensures var w := Worked(ev, th); IsCounted(w) && !w.Asleep? && BatchOf(w) == th.batch
  {
  }

  /** A check that fails is one that was added. */
  lemma WorkSound(ev: Check -> bool, s: State, t: Tid)
    requires Conserved(s) && t in s.threads && s.threads[t].Running? && ThreadOk(ev, s.added, s.threads[t])
    ensures ThreadOk(ev, s.added, Worked(ev, s.threads[t]))
  {
    var th := s.threads[t];
    if th.next < |th.batch| && th.ok && !ev(th.batch[th.next]) {
      BatchesOf(s.threads, t);
      var c := th.batch[th.next];
      assert c in multiset(th.batch);
      assert c in multiset(s.added);
    }
  }

  lemma StepKeeps(ev: Check -> bool, s: State, step: Step)
    requires Inv(ev, s) && Enabled(s, step)
    ensures Inv(ev, Next(ev, s, step))
    ensures s.answers <= Next(ev, s, step).answers
  {
    hide Inv, Mid, Proceed, CleanUp, WakeAll;
    match step
    case Start(t) => StartKeeps(ev, s, t);
    case AddChecks(checks, woken) => AddKeeps(ev, s, checks, woken);
    case Enter(t) =>
      EnterKeeps(ev, s, t);
      MidCounts(ev, AfterEnter(s, t), t);
      ProceedKeeps(ev, AfterEnter(s, t), t);
      CleanUpAnswers(Locked(s, t), t, s.threads[t].batch, s.threads[t].ok);
    case Wake(t) =>
      WakeKeeps(ev, s, t);
      MidCounts(ev, AfterWake(s, t), t);
      ProceedKeeps(ev, AfterWake(s, t), t);
    case Work(t) => WorkKeeps(ev, s, t);
  }

  lemma CleanUpAnswers(s: State, t: Tid, batch: seq<Check>, ok: bool)
    ensures CleanUp(s, t, batch, ok).answers == s.answers
  {
  }

  lemma InitialInv(ev: Check -> bool, batchSize: nat, workers: set<Tid>)
    ensures Inv(ev, Initial(batchSize, workers))
  {
    var s := Initial(batchSize, workers);
    AllOutside(s.threads);
    assert Sleepers(s.threads) == {} && Counted(s.threads) == {};
  }

  lemma {:induction false} AllOutside(threads: map<Tid, Thread>)
    requires forall t :: t in threads ==> threads[t].Outside?
    ensures Batches(threads) == multiset{}
    decreases |threads|
  {
    if threads != map[] {
      var t :| t in threads;
      BatchesOf(threads, t);
      AllOutside(threads - {t});
    }
  }

  // ----- every run

  /** Takes the steps of a schedule one after the other, stopping at one that cannot be taken. */
  function Run(ev: Check -> bool, s: State, schedule: seq<Step>): State
    requires Inv(ev, s)
    decreases |schedule|
  {
    if schedule == [] || !Enabled(s, schedule[0]) then s
    else (StepKeeps(ev, s, schedule[0]); Run(ev, Next(ev, s, schedule[0]), schedule[1..]))
  }

  /** After every interleaving, each check is in one place only, the count of outstanding checks is exact, and
      every completed Wait has answered whether all the checks added for it hold. */
  lemma {:induction false} RunSafe(ev: Check -> bool, s: State, schedule: seq<Step>)
    requires Inv(ev, s)
    ensures Inv(ev, Run(ev, s, schedule)) && s.answers <= Run(ev, s, schedule).answers
    decreases |schedule|
  {
    hide Inv, Next, Enabled;
    if schedule != [] && Enabled(s, schedule[0]) {
      StepKeeps(ev, s, schedule[0]);
      RunSafe(ev, Next(ev, s, schedule[0]), schedule[1..]);
    }
  }

  /** The same, spelled out for runs that start with an idle queue. */
  lemma Promises(ev: Check -> bool, batchSize: nat, workers: set<Tid>, schedule: seq<Step>)
    ensures Inv(ev, Initial(batchSize, workers))
    ensures var s := Run(ev, Initial(batchSize, workers), schedule);
            && multiset(s.added) == multiset(s.queue) + Batches(s.threads) + s.acked
            && s.nTodo == |s.queue| + |Batches(s.threads)|
            && (forall i :: 0 <= i < |s.answers| ==>
                  (s.answers[i].value <==> forall c :: c in s.answers[i].checks ==> ev(c)))
  {
    InitialInv(ev, batchSize, workers);
    RunSafe(ev, Initial(batchSize, workers), schedule);
  }

  // ----- Wait always comes back

  predicate InWait(s: State) {
    MASTER in s.threads && !s.threads[MASTER].Outside?
  }

  /** A step some thread can take on its own; a spurious wake-up is not one. */
  predicate Progress(s: State, step: Step) {
    Enabled(s, step) && (step.Enter? || step.Work? || (step.Wake? && s.threads[step.t].notified))
  }

  lemma {:induction false} SomeBatch(threads: map<Tid, Thread>)
    requires |Batches(threads)| > 0
    ensures exists t :: t in threads && BatchOf(threads[t]) != []
    decreases |threads|
  {
    var t :| t in threads && Batches(threads) == multiset(BatchOf(threads[t])) + Batches(threads - {t});
    if BatchOf(threads[t]) == [] {
      SomeBatch(threads - {t});
    }
  }

  /** While the master waits, some thread can move: no wake-up is ever lost. */
  lemma NeverStuck(ev: Check -> bool, s: State)
    requires Inv(ev, s) && InWait(s)
    ensures exists step :: Progress(s, step)
  {
    var th := s.threads[MASTER];
    match th
    case AtTop(_, _) => assert Progress(s, Enter(MASTER));
    case Running(_, _, _) => assert Progress(s, Work(MASTER));
    case Asleep(notified) =>
      if notified {
        assert Progress(s, Wake(MASTER));
      } else {
        SomeBatch(s.threads);
        var t :| t in s.threads && BatchOf(s.threads[t]) != [];
        assert Progress(s, if s.threads[t].AtTop? then Enter(t) else Work(t));
      }
  }

  // ----- and after a bounded number of steps

  function Weight(th: Thread): nat {
    match th
    case Outside => 0
    case AtTop(_, _) => 2
    case Running(batch, next, _) => 3 + (if next <= |batch| then |batch| - next else 0)
    case Asleep(notified) => if notified then 1 else 0
  }

  ghost function Weights(threads: map<Tid, Thread>): nat
    decreases |threads|
  {
    if threads == map[] then 0
    else
      var t :| t in threads;
      Weight(threads[t]) + Weights(threads - {t})
  }

  lemma {:induction false} WeightsOf(threads: map<Tid, Thread>, t: Tid)
    requires t in threads
    ensures Weights(threads) == Weight(threads[t]) + Weights(threads - {t})
    decreases |threads|
  {
    var u :| u in threads && Weights(threads) == Weight(threads[u]) + Weights(threads - {u});
    if u != t {
      WeightsOf(threads - {u}, t);
      WeightsOf(threads - {t}, u);
      assert threads - {u} - {t} == threads - {t} - {u};
    }
  }

  lemma WeightsSet(threads: map<Tid, Thread>, t: Tid, th: Thread)
    requires t in threads
    ensures Weights(threads[t := th]) == Weights(threads) - Weight(threads[t]) + Weight(th)
  {
    WeightsOf(threads, t);
    WeightsOf(threads[t := th], t);
    assert threads[t := th] - {t} == threads - {t};
  }

  /** An upper bound on the steps left before all threads are asleep or gone. */
  ghost function WorkLeft(s: State): nat {
    4 * |s.queue| + Weights(s.threads)
  }

  lemma ProceedLighter(s: State, t: Tid)
    requires t in s.threads && s.threads[t].Outside? && s.nTotal + s.nIdle + 1 > 0
    ensures WorkLeft(Proceed(s, t)) <= WorkLeft(s)
  {
    var u := Proceed(s, t);
    if s.queue == [] {
      WeightsSet(s.threads, t, Asleep(false));
    } else {
      var (batch, rest) := TakeBack(s.queue, BatchLength(|s.queue|, s.batchSize, s.nTotal + s.nIdle + 1));
      WeightsSet(s.threads, t, Running(batch, 0, s.allOk));
    }
  }

  lemma EnterLighter(s: State, t: Tid)
    requires t in s.threads && s.threads[t].AtTop?
    ensures WorkLeft(AfterEnter(s, t)) <= WorkLeft(s) - 1
    ensures t in AfterEnter(s, t).threads && AfterEnter(s, t).threads[t].Outside?
  {
    WeightsSet(s.threads, t, Outside);
    var l := Locked(s, t);
    if IsAsleep(l, MASTER) { WeightsSet(l.threads, MASTER, Asleep(true)); }
  }

  lemma WakeLighter(s: State, t: Tid)
    requires IsAsleep(s, t) && s.threads[t].notified
    ensures WorkLeft(AfterWake(s, t)) <= WorkLeft(s) - 1
    ensures t in AfterWake(s, t).threads && AfterWake(s, t).threads[t].Outside?
  {
    WeightsSet(s.threads, t, Outside);
  }

  lemma WorkLighter(ev: Check -> bool, s: State, t: Tid)
    requires t in s.threads && s.threads[t].Running? && s.threads[t].next <= |s.threads[t].batch|
    ensures WorkLeft(SetThread(s, t, Worked(ev, s.threads[t]))) < WorkLeft(s)
  {
    WeightsSet(s.threads, t, Worked(ev, s.threads[t]));
  }

  /** Every step of progress uses up some of a fixed supply, so no schedule of them goes on for ever. */
  lemma ProgressLighter(ev: Check -> bool, s: State, step: Step)
    requires Inv(ev, s) && Progress(s, step)
    ensures WorkLeft(Next(ev, s, step)) < WorkLeft(s)
  {
    assert step.Work? ==> ThreadOk(ev, s.added, s.threads[step.t]);
    hide Inv, Mid, Proceed, CleanUp, WorkLeft, AfterEnter, AfterWake, Worked;
    match step
    case Enter(t) =>
      EnterKeeps(ev, s, t);
      MidCounts(ev, AfterEnter(s, t), t);
      EnterLighter(s, t);
      ProceedLighter(AfterEnter(s, t), t);
    case Wake(t) =>
      WakeKeeps(ev, s, t);
      MidCounts(ev, AfterWake(s, t), t);
      WakeLighter(s, t);
      ProceedLighter(AfterWake(s, t), t);
    case Work(t) => WorkLighter(ev, s, t);
  }

  /** The other steps of a Wait: a spurious wake-up adds nothing, and a worker that starts adds two steps. */
  lemma OtherStep(ev: Check -> bool, s: State, step: Step)
    requires Inv(ev, s) && InWait(s) && Enabled(s, step) && !Progress(s, step)
    ensures WorkLeft(Next(ev, s, step)) <= WorkLeft(s) + if step.Start? then 2 else 0
  {
    hide Inv, Mid, Proceed, CleanUp, WorkLeft, AfterWake;
    match step
    case Start(t) => StartHeavier(s, t);
    case Wake(t) =>
      WakeKeeps(ev, s, t);
      MidCounts(ev, AfterWake(s, t), t);
      SpuriousWake(s, t);
      ProceedLighter(AfterWake(s, t), t);
  }

  lemma StartHeavier(s: State, t: Tid)
    requires t in s.threads && s.threads[t].Outside?
    ensures WorkLeft(SetThread(s, t, AtTop([], true))) == WorkLeft(s) + 2
  {
    WeightsSet(s.threads, t, AtTop([], true));
  }

  lemma SpuriousWake(s: State, t: Tid)
    requires IsAsleep(s, t)
    ensures WorkLeft(AfterWake(s, t)) <= WorkLeft(s)
    ensures t in AfterWake(s, t).threads && AfterWake(s, t).threads[t].Outside?
  {
    WeightsSet(s.threads, t, Outside);
  }

  /** The steps of progress that a schedule takes before the master's Wait is over. */
  ghost function ProgressSteps(ev: Check -> bool, s: State, schedule: seq<Step>): nat
    requires Inv(ev, s)
    decreases |schedule|
  {
    if schedule == [] || !InWait(s) || !Enabled(s, schedule[0]) then 0
    else
      StepKeeps(ev, s, schedule[0]);
      (if Progress(s, schedule[0]) then 1 else 0) + ProgressSteps(ev, Next(ev, s, schedule[0]), schedule[1..])
  }

  function Starts(schedule: seq<Step>): nat {
    if schedule == [] then 0 else (if schedule[0].Start? then 1 else 0) + Starts(schedule[1..])
  }

  /** Whatever the schedule, with any number of spurious wake-ups and of workers that start meanwhile, Wait is over after
      a bounded number of steps of progress. */
  lemma {:induction false} WaitBounded(ev: Check -> bool, s: State, schedule: seq<Step>)
    requires Inv(ev, s)
    ensures ProgressSteps(ev, s, schedule) <= WorkLeft(s) + 2 * Starts(schedule)
    decreases |schedule|
  {
    hide Inv, Next, WorkLeft, Progress, Enabled, InWait;
    if schedule != [] && InWait(s) && Enabled(s, schedule[0]) {
      StepKeeps(ev, s, schedule[0]);
      if Progress(s, schedule[0]) {
        ProgressLighter(ev, s, schedule[0]);
      } else {
        OtherStep(ev, s, schedule[0]);
      }
      WaitBounded(ev, Next(ev, s, schedule[0]), schedule[1..]);
    }
  }
}
