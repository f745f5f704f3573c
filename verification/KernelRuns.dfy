/** Whole runs of the threading layer: every operation, in any order, from boot. */
module KernelRuns {
  import opened ThreadLists
  import opened ThreadTable
  import opened ThreadSteps
  import opened SleepQueue
  import opened Scheduling

  // ----- life cycle of a thread -----

  /** `thread_create`: a free row is taken and its fields are reset. */
  function Created(k: Table, t: int, p: Priority): (r: Table)
    requires Shape(k) && 0 < t < MAX_THREADS
    ensures Shape(r)
  {
    k.(rows := k.rows[t := k.rows[t].(state := NonReady, sleepsOn := 0, next := -1, priority := p)])
  }

  lemma FreeIsNowhere(k: Table, t: int)
    requires Inv(k) && 0 < t < MAX_THREADS && (k.rows[t].state == Free || k.rows[t].state == NonReady)
    ensures t !in k.arrivals && k.rows[t].sleepsOn == 0 && k.rows[t].wakeupTime == 0 && t != k.current
    ensures t !in k.sleepers && forall h | 0 <= h < BUCKETS :: t !in k.chains[h]
  {
    assert Placed(k, t);
    forall h | 0 <= h < BUCKETS ensures t !in k.chains[h] {
      assert ChainOk(k, h);
    }
  }

  lemma CreatedKeeps(k: Table, t: int, p: Priority)
    requires Inv(k) && 0 < t < MAX_THREADS && k.rows[t].state == Free
    ensures Inv(Created(k, t, p))
  {
    var after := Created(k, t, p);
    FreeIsNowhere(k, t);
    ReadyFrame(k, after);
    SleepersFrame(k, after);
    forall h | 0 <= h < BUCKETS ensures ChainOk(after, h) {
      assert ChainOk(k, h);
      ChainFrame(k, after, h);
    }
    forall u | 0 < u < MAX_THREADS ensures Placed(after, u) {
      assert Placed(k, u);
    }
  }

  /** `thread_run` on a created thread. */
  lemma StartKeeps(k: Table, t: int)
    requires Inv(k) && 0 < t < MAX_THREADS && k.rows[t].state == NonReady
    ensures Inv(ArriveReady(k, t))
  {
    FreeIsNowhere(k, t);
    ArriveReadyKeeps(k, t);
  }

  /** `thread_finish`. */
  lemma FinishKeeps(k: Table)
    requires Inv(k) && AwakeAndRunning(k)
    ensures Inv(WithState(k, k.current, Dying))
  {
    var after := WithState(k, k.current, Dying);
    SameChains(k, after);
    SleepersFrame(k, after);
    assert k.current !in k.arrivals by { assert Placed(k, k.current); }
    ReadyFrame(k, after);
    forall u | 0 < u < MAX_THREADS ensures Placed(after, u) {
      assert Placed(k, u);
    }
  }

  // ----- runs -----

  datatype Step =
    | Create(thread: int, priority: Priority)
    | Start(thread: int)
    | SleepOn(resource: int)
    | SleepFor(time: int)
    | WakeFirst(resource: int)
    | WakeEvery(resource: int)
    | Finish
    | Switch(now: int)

  /** What the callers of each operation must respect. Wake-ups may come at any moment, also from
      an interrupt between going onto the queue and the context switch. */
  predicate Enabled(k: Table, step: Step) {
    Shape(k) && match step
    case Create(t, _) => 0 < t < MAX_THREADS && k.rows[t].state == Free
    case Start(t) => 0 < t < MAX_THREADS && k.rows[t].state == NonReady
    case SleepOn(r) => AwakeAndRunning(k) && r > 0
    case SleepFor(time) => AwakeAndRunning(k) && time != 0
    case WakeFirst(r) => r > 0
    case WakeEvery(r) => r > 0
    case Finish => AwakeAndRunning(k)
    case Switch(_) => true
  }

  ghost function After(k: Table, step: Step): Table
    requires Inv(k) && Enabled(k, step)
  {
    match step
    case Create(t, p) => Created(k, t, p)
    case Start(t) => ArriveReady(k, t)
    case SleepOn(r) => Enqueue(k, r)
    case SleepFor(time) => SleepUntil(k, time)
    case WakeFirst(r) => Wake(k, r)
    case WakeEvery(r) => WakeAll(k, r)
    case Finish => WithState(k, k.current, Dying)
    case Switch(now) => Schedule(k, now)
  }

  lemma StepKeeps(k: Table, step: Step)
    requires Inv(k) && Enabled(k, step)
    ensures Inv(After(k, step))
  {
    match step
    case Create(t, p) => CreatedKeeps(k, t, p);
    case Start(t) => StartKeeps(k, t);
    case SleepOn(r) => EnqueueKeeps(k, r);
    case SleepFor(time) => SleepUntilKeeps(k, time);
    case WakeFirst(r) => WakeKeeps(k, r);
    case WakeEvery(_) =>
    case Finish => FinishKeeps(k);
    case Switch(_) =>
  }

  /** The table that `thread_table_init` and `sleepq_init` leave. */
  function Boot(): Table {
    Table(seq(MAX_THREADS, i => Thread(if i == IDLE then Ready else Free, 0, -1, -1, 0, Normal)),
          seq(BUCKETS, _ => -1), -1, -1, -1, IDLE, [], seq(BUCKETS, _ => []), [])
  }

  lemma BootInv()
    ensures Inv(Boot())
  {
    var k := Boot();
    forall h | 0 <= h < BUCKETS ensures ChainOk(k, h) {
      assert k.chains[h] == [] && k.heads[h] == -1;
    }
    forall t | 0 < t < MAX_THREADS ensures Placed(k, t) {
      assert k.rows[t].state == Free;
    }
  }

  /** One step. From an inconsistent table anything might follow; `ReachableInv` shows that no run
      ever gets to one. */
  ghost predicate Follows(k: Table, step: Step, next: Table) {
    Enabled(k, step) && (Inv(k) ==> next == After(k, step))
  }

  lemma FollowsKeeps(k: Table, step: Step, next: Table)
    requires Inv(k) && Follows(k, step, next)
    ensures Inv(next)
  {
    StepKeeps(k, step);
  }

  lemma FollowsIsAfter(k: Table, step: Step, next: Table)
    requires Inv(k) && Follows(k, step, next)
    ensures Enabled(k, step) && next == After(k, step)
  {
    hide InvBut, After;
  }

  /** `run` lists the tables of a run from boot that takes `steps`. */
  ghost predicate IsRun(run: seq<Table>, steps: seq<Step>) {
    && |run| == |steps| + 1
    && run[0] == Boot()
    && forall i | 0 <= i < |steps| :: Follows(run[i], steps[i], run[i + 1])
  }

  /** Every table that any run from boot reaches is consistent. */
  lemma {:induction false} ReachableInv(run: seq<Table>, steps: seq<Step>, n: nat)
    requires IsRun(run, steps) && n < |run|
    ensures Inv(run[n])
  {
    hide InvBut, Follows, Boot;
    BootInv();
    if n > 0 {
      ReachableInv(run, steps, n - 1);
      FollowsKeeps(run[n - 1], steps[n - 1], run[n]);
    }
  }

  // ----- what consistency means -----

  predicate OnReadyList(k: Table, t: int) { t in ReadyOrder(k.rows, k.arrivals) }

  predicate OnChain(k: Table, t: int, h: int) { 0 <= h < |k.chains| && t in k.chains[h] }

  predicate OnTimedList(k: Table, t: int) { t in k.sleepers }

  /** In a consistent table every thread is in exactly one place: the ready list holds exactly the
      READY threads, a SLEEPING thread is on exactly one hash chain or on the timed list and not
      both, and threads in any other state (unless on their way to sleep) are on no list. */
  lemma ExactlyOnePlace(k: Table, t: int)
    requires Inv(k) && 0 < t < MAX_THREADS
    ensures OnReadyList(k, t) <==> k.rows[t].state == Ready
    ensures forall h :: OnChain(k, t, h) <==> k.rows[t].sleepsOn != 0 && h == Bucket(k.rows[t].sleepsOn)
    ensures OnTimedList(k, t) <==> k.rows[t].wakeupTime != 0
    ensures k.rows[t].state == Sleeping ==> (k.rows[t].sleepsOn != 0) != OnTimedList(k, t)
    ensures k.rows[t].state != Sleeping && t != k.current ==> k.rows[t].sleepsOn == 0 && !OnTimedList(k, t)
    ensures k.rows[t].state == Ready ==> k.rows[t].sleepsOn == 0 && !OnTimedList(k, t)
  {
    assert Placed(k, t);
    ReadyOrderMembers(k.rows, k.arrivals);
    forall h ensures OnChain(k, t, h) <==> k.rows[t].sleepsOn != 0 && h == Bucket(k.rows[t].sleepsOn) {
      if 0 <= h < BUCKETS { assert ChainOk(k, h); }
    }
  }

  /** The thread that runs is queued on a resource only while it is on its way to sleep. */
  lemma RunnerInQueue(k: Table, resource: int)
    requires Inv(k) && resource > 0 && k.current in Queue(k, resource)
    ensures Shape(k) && k.current != IDLE && k.rows[k.current].state == Running && k.rows[k.current].wakeupTime == 0
  {
    OnResourceMembers(k.rows, k.chains[Bucket(resource)], resource);
    assert ChainOk(k, Bucket(resource)) && k.current in k.chains[Bucket(resource)];
    assert Placed(k, k.current);
  }

  /** A thread with nothing to wait for goes from the processor to the ready list. */
  lemma RetireReadies(k: Table, now: int)
    requires Inv(k) && AwakeAndRunning(k)
    ensures Retire(k, now).arrivals == k.arrivals + [k.current]
  {
  }

  /** A wake-up that arrives after the thread has queued itself but before it has been switched out
      is not lost: the switch finds nothing to wait for and puts the thread on the ready list. */
  lemma EarlyWakeIsNotLost(k: Table, resource: int, now: int)
    requires Inv(k) && resource > 0 && Queue(k, resource) != [] && Queue(k, resource)[0] == k.current
    ensures var t, woken := k.current, Wake(k, resource);
            && Inv(woken) && woken.current == t && AwakeAndRunning(woken)
            && Retire(woken, now).arrivals == woken.arrivals + [t]
  {
    hide InvBut, Queue, Wake, Retire;
    RunnerInQueue(k, resource);
    WakeKeeps(k, resource);
    WakeEffect(k, resource);
    RetireReadies(Wake(k, resource), now);
  }

  /** The same of waking all, wherever on the queue the thread is. */
  lemma EarlyWakeAllIsNotLost(k: Table, resource: int, now: int)
    requires Inv(k) && resource > 0 && k.current in Queue(k, resource)
    ensures var t, woken := k.current, WakeAll(k, resource);
            && Inv(woken) && woken.current == t && AwakeAndRunning(woken)
            && Retire(woken, now).arrivals == woken.arrivals + [t]
  {
    hide InvBut, Queue, WakeAll, Retire;
    RunnerInQueue(k, resource);
    WakeAllEffect(k, resource, resource);
    RetireReadies(WakeAll(k, resource), now);
  }

  // ----- what waits stays waiting -----

  /** Nobody has changed what any thread waits for, or the chains. */
  ghost predicate SameWaits(k: Table, after: Table) {
    && after.chains == k.chains && |after.rows| == |k.rows|
    && forall t | 0 <= t < |k.rows| :: after.rows[t].sleepsOn == k.rows[t].sleepsOn
  }

  lemma ArriveWaits(k: Table, t: int)
    requires Shape(k) && ReadyOk(k) && 0 < t < MAX_THREADS
    ensures SameWaits(k, ArriveReady(k, t))
  {
    hide ReadyOk, ReadyOrder, OfPriority, LinksAfterInsert;
  }

  lemma ExpireOneWaits(k: Table)
    requires Inv(k) && k.sleepers != [] && k.current == IDLE
    ensures SameWaits(k, ExpireOne(k))
  {
    PopSleeperKeeps(k);
    ArriveWaits(PopSleeper(k), k.sleepers[0]);
  }

  lemma {:induction false} ExpireWaits(k: Table, now: int)
    requires Inv(k) && k.current == IDLE
    ensures SameWaits(k, Expire(k, now))
    decreases |k.sleepers|
  {
    hide InvBut, ExpireOne;
    if Expire(k, now) != k {
      ExpireOneWaits(k);
      ExpireWaits(ExpireOne(k), now);
    }
  }

  lemma RetireWaits(k: Table, now: int)
    requires Inv(k)
    ensures SameWaits(k, Retire(k, now))
  {
    if k.current == IDLE {
      ExpireWaits(k, now);
    } else if k.rows[k.current].state != Dying && k.rows[k.current].sleepsOn == 0 && k.rows[k.current].wakeupTime == 0 {
      ArriveWaits(k, k.current);
    }
  }

  lemma RetireSleeps(k: Table, now: int)
    requires Inv(k) && k.current != IDLE && k.rows[k.current].sleepsOn != 0
    ensures Shape(Retire(k, now)) && Retire(k, now).rows[k.current].state == Sleeping
  {
    assert Placed(k, k.current);
  }

  /** Without a wake-up the switch really puts the thread to sleep, where the queue still holds it. */
  lemma SwitchKeepsWaiter(k: Table, resource: int, now: int)
    requires Inv(k) && k.current != IDLE && resource > 0 && k.current in Queue(k, resource)
    ensures var t, after := k.current, Retire(k, now);
            && after.rows[t].state == Sleeping
            && Queue(after, resource) == Queue(k, resource)
  {
    hide InvBut, Retire, OnResource;
    InvShape(k);
    OnResourceMembers(k.rows, k.chains[Bucket(resource)], resource);
    RetireSleeps(k, now);
    RetireWaits(k, now);
    OnResourceFrame(k.rows, Retire(k, now).rows, k.chains[Bucket(resource)], resource);
  }

  /** A context switch, with whatever wake-ups by time come with it, leaves the queue of every resource as
      it was. */
  lemma SwitchKeepsQueues(k: Table, now: int, resource: int)
    requires Inv(k)
    ensures Queue(Schedule(k, now), resource) == Queue(k, resource)
  {
    hide InvBut, Retire, OnResource;
    RetireWaits(k, now);
    var mid := Retire(k, now);
    DispatchWaits(mid);
    InvShape(k);
    OnResourceFrame(k.rows, Schedule(k, now).rows, k.chains[Bucket(resource)], resource);
  }

  lemma DispatchWaits(k: Table)
    requires Inv(k) && k.current == IDLE
    ensures SameWaits(k, Dispatch(k))
  {
    hide ReadyOrder, OfPriority;
  }
}
