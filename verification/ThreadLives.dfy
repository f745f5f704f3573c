/** The life of each row of the thread table over whole runs: free, created, started, dead and free again. */
module ThreadLives {
  import opened Sequences
  import opened ThreadLists
  import opened ThreadTable
  import opened ThreadSteps
  import opened SleepQueue
  import opened Scheduling
  import opened KernelRuns
  import opened Kernel

  datatype Phase = Unused | Made | Alive

  function PhaseOf(state: ThreadState): Phase {
    match state
    case Free => Unused
    case NonReady => Made
    case _ => Alive
  }

  ghost predicate SamePhases(k: Table, after: Table) {
    |after.rows| == |k.rows| && forall t | 0 <= t < |k.rows| :: PhaseOf(after.rows[t].state) == PhaseOf(k.rows[t].state)
  }

  // ----- what one step does -----

  lemma EnqueuePhases(k: Table, resource: int)
    requires Inv(k) && AwakeAndRunning(k) && resource > 0
    ensures SamePhases(k, Enqueue(k, resource))
  {
    hide LinksAfterInsert;
  }

  lemma SleepUntilPhases(k: Table, time: int)
    requires Inv(k) && AwakeAndRunning(k)
    ensures SamePhases(k, SleepUntil(k, time))
  {
    hide LinksAfterInsert, SleepSpot;
  }

  lemma WakePhases(k: Table, resource: int)
    requires Inv(k) && resource > 0
    ensures SamePhases(k, Wake(k, resource))
  {
    hide InvBut, Queue;
    InvShape(k);
    if Queue(k, resource) != [] { WakeEffect(k, resource); }
  }

  lemma WakeAllPhases(k: Table, resource: int)
    requires Inv(k) && resource > 0
    ensures SamePhases(k, WakeAll(k, resource))
  {
    hide InvBut, Queue, WakeAll;
    WakeAllEffect(k, resource, resource);
  }

  lemma ExpireOnePhases(k: Table)
    requires Inv(k) && k.sleepers != [] && k.current == IDLE
    ensures SamePhases(k, ExpireOne(k))
  {
    var t := k.sleepers[0];
    PopSleeperKeeps(k);
    assert t in k.sleepers && Placed(k, t);
    ArriveRows(PopSleeper(k), t);
  }

  lemma {:induction false} ExpirePhases(k: Table, now: int)
    requires Inv(k) && k.current == IDLE
    ensures SamePhases(k, Expire(k, now))
    decreases |k.sleepers|
  {
    hide InvBut, ExpireOne;
    if Expire(k, now) != k {
      ExpireOnePhases(k);
      ExpirePhases(ExpireOne(k), now);
    }
  }

  /** The phase of row `t` after a step. */
  function NextPhase(k: Table, step: Step, t: int): Phase
    requires Shape(k) && 0 <= t < MAX_THREADS
  {
    match step
    case Create(u, _) => if u == t then Made else PhaseOf(k.rows[t].state)
    case Start(u) => if u == t then Alive else PhaseOf(k.rows[t].state)
    case Switch(_) => if t == k.current && k.rows[t].state == Dying then Unused else PhaseOf(k.rows[t].state)
    case _ => PhaseOf(k.rows[t].state)
  }

  lemma RunnerIs(k: Table)
    requires Inv(k)
    ensures Shape(k) && ReadyOk(k)
    ensures k.current != IDLE ==> k.rows[k.current].state == Running || k.rows[k.current].state == Dying
  {
    if k.current != IDLE { assert Placed(k, k.current); }
  }

  lemma RetirePhase(k: Table, now: int, t: int)
    requires Inv(k) && 0 < t < MAX_THREADS
    ensures Shape(Retire(k, now)) && PhaseOf(Retire(k, now).rows[t].state) == NextPhase(k, Switch(now), t)
  {
    hide InvBut, Expire, ArriveReady;
    RunnerIs(k);
    if k.current == IDLE {
      ExpirePhases(k, now);
      InvShape(Expire(k, now));
    } else {
      if k.rows[k.current].state != Dying && k.rows[k.current].sleepsOn == 0 && k.rows[k.current].wakeupTime == 0 {
        ArriveRows(k, k.current);
      }
    }
  }

  lemma DispatchPhases(k: Table, t: int)
    requires Inv(k) && k.current == IDLE && 0 < t < MAX_THREADS
    ensures Shape(Dispatch(k)) && PhaseOf(Dispatch(k).rows[t].state) == PhaseOf(k.rows[t].state)
  {
    hide ReadyOrder, OfPriority;
    if ReadyOrder(k.rows, k.arrivals) != [] { DepartKeeps(k); }
  }

  lemma StepPhase(k: Table, step: Step, t: int)
    requires Inv(k) && Enabled(k, step) && 0 < t < MAX_THREADS
    ensures Shape(k) && Shape(After(k, step)) && PhaseOf(After(k, step).rows[t].state) == NextPhase(k, step, t)
  {
    hide InvBut, Wake, WakeAll, Enqueue, SleepUntil, Retire, Dispatch, ArriveReady;
    InvShape(k);
    StepKeeps(k, step);
    InvShape(After(k, step));
    match step {
      case Create(_, _) =>
      case Start(u) =>
        RunnerIs(k);
        ArriveRows(k, u);
      case SleepOn(r) => EnqueuePhases(k, r);
      case SleepFor(time) => SleepUntilPhases(k, time);
      case WakeFirst(r) => WakePhases(k, r);
      case WakeEvery(r) => WakeAllPhases(k, r);
      case Finish => FinishPhase(k);
      case Switch(now) =>
        RetirePhase(k, now, t);
        DispatchPhases(Retire(k, now), t);
    }
  }

  lemma FinishPhase(k: Table)
    requires Shape(k) && AwakeAndRunning(k)
    ensures SamePhases(k, WithState(k, k.current, Dying))
  {
  }

  // ----- what runs do -----

  function Creations(steps: seq<Step>, t: int, n: nat): nat
    requires n <= |steps|
  {
    if n == 0 then 0 else Creations(steps, t, n - 1) + if steps[n - 1].Create? && steps[n - 1].thread == t then 1 else 0
  }

  function Starts(steps: seq<Step>, t: int, n: nat): nat
    requires n <= |steps|
  {
    if n == 0 then 0 else Starts(steps, t, n - 1) + if steps[n - 1].Start? && steps[n - 1].thread == t then 1 else 0
  }

  /** How often thread `t` was switched away from when it had finished. */
  function Deaths(run: seq<Table>, steps: seq<Step>, t: int, n: nat): nat
    requires n <= |steps| && n <= |run|
  {
    if n == 0 then 0
    else
      var k := run[n - 1];
      Deaths(run, steps, t, n - 1)
      + if steps[n - 1].Switch? && k.current == t && 0 <= t < |k.rows| && k.rows[t].state == Dying then 1 else 0
  }

  /** In every run a row is FREE exactly when its thread has died as often as it was created, and NONREADY exactly when
      it was created once more than started; at any other time it has been created and started once more than it has
      died. */
  lemma {:induction false} LivesOverRun(run: seq<Table>, steps: seq<Step>, n: nat, t: int)
    requires IsRun(run, steps) && n < |run| && 0 < t < MAX_THREADS
    ensures Shape(run[n])
    ensures var state := run[n].rows[t].state;
            var created, started, died := Creations(steps, t, n), Starts(steps, t, n), Deaths(run, steps, t, n);
            && (state == Free <==> created == died) && (state == NonReady <==> created == started + 1)
            && died <= started <= created <= died + 1
  {
    hide InvBut, Follows, Boot, After;
    ReachableInv(run, steps, n);
    InvShape(run[n]);
    if n == 0 {
      AllFreeAtFirst();
    } else {
      LivesOverRun(run, steps, n - 1, t);
      ReachableInv(run, steps, n - 1);
      FollowsIsAfter(run[n - 1], steps[n - 1], run[n]);
      StepPhase(run[n - 1], steps[n - 1], t);
      Demands(run[n - 1], steps[n - 1], t);
    }
  }

  lemma AllFreeAtFirst()
    ensures |Boot().rows| == MAX_THREADS && forall t | 0 < t < MAX_THREADS :: Boot().rows[t].state == Free
  {
  }

  lemma Demands(k: Table, step: Step, t: int)
    requires Enabled(k, step) && 0 < t < MAX_THREADS
    ensures step.Create? && step.thread == t ==> k.rows[t].state == Free
    ensures step.Start? && step.thread == t ==> k.rows[t].state == NonReady
  {
  }

  // ----- creating threads -----

  lemma AllTaken(ids: seq<int>, n: nat)
    requires n > 0 && Distinct(ids) && forall x | x in ids :: 0 < x < n
    ensures |ids| <= n - 1
    ensures |ids| == n - 1 <==> forall t | 0 < t < n :: t in ids
  {
    hide Distinct, Below;
    SizeBelow(n);
    SizeOfDistinct(ids);
    var rows := Below(n) - {0};
    assert |rows| == n - 1;
    forall x | x in Members(ids) ensures x in rows { assert x in ids; }
    CardinalityMonotone(Members(ids), rows);
    if |ids| == n - 1 {
      assert rows == Members(ids) + (rows - Members(ids));
      assert rows - Members(ids) == {};
      forall t | 0 < t < n ensures t in ids { assert t in rows; }
    }
    if forall t | 0 < t < n :: t in ids {
      assert rows <= Members(ids);
      assert rows == Members(ids);
    }
  }

  /** Right after boot every row but the idle thread's can be had by a creation, of either kind, once; then there is none
      left. */
  method CreateAll(priorities: seq<Priority>) returns (ids: seq<int>, last: int)
    requires |priorities| == MAX_THREADS - 1
    ensures |ids| == MAX_THREADS - 1 && Distinct(ids) && (forall x | x in ids :: 0 < x < MAX_THREADS) && last == -1
  {
    hide InvBut, Boot, Distinct;
    var s := new ThreadSystem();
    AllFreeAtFirst();
    ids := [];
    NoneTwice();
    while |ids| < MAX_THREADS - 1
      invariant s.Valid() && fresh(s) && fresh(s.table) && fresh(s.hashtable)
      invariant Distinct(ids) && |ids| <= MAX_THREADS - 1 && forall x | x in ids :: 0 < x < MAX_THREADS
      invariant |s.Snap().rows| == MAX_THREADS
      invariant forall t | 0 < t < MAX_THREADS :: s.Snap().rows[t].state == Free <==> t !in ids
    {
      AllTaken(ids, MAX_THREADS);
      var tid;
      if priorities[|ids|] == High {
        tid := s.ThreadCreateWithPriority(High);
      } else {
        tid := s.ThreadCreate();
      }
      assert tid != -1;
      OneMoreId(ids, tid);
      ids := ids + [tid];
    }
    AllTaken(ids, MAX_THREADS);
    last := s.ThreadCreate();
  }

  lemma NoneTwice()
    ensures Distinct([])
  {
  }

  lemma OneMoreId(ids: seq<int>, tid: int)
    requires Distinct(ids) && tid !in ids
    ensures Distinct(ids + [tid])
  {
  }

  /** Creates and starts a thread: if a row is free, the thread stands on the ready list behind all others of its
      priority, and a HIGH one before all NORMAL ones. */
  method CreateAndRun(s: ThreadSystem, p: Priority) returns (tid: int)
    requires s.Valid()
    modifies s, s.table
    ensures s.Valid()
    ensures tid == -1 <==> forall t | 0 < t < MAX_THREADS :: old(s.Snap()).rows[t].state != Free
    ensures tid != -1 ==>
              && 0 < tid < MAX_THREADS && s.Snap().rows[tid].state == Ready && s.Snap().rows[tid].priority == p
              && OfPriority(s.Snap().rows, s.arrivals, p) == old(OfPriority(s.Snap().rows, s.arrivals, p)) + [tid]
              && forall q | q != p :: OfPriority(s.Snap().rows, s.arrivals, q) == old(OfPriority(s.Snap().rows, s.arrivals, q))
  {
    hide InvBut, OfPriority, ReadyOrder, ArriveReady;
    ghost var k := s.Snap();
    tid := s.ThreadCreateWithPriority(p);
    if tid != -1 {
      CreatedArrives(k, tid, p);
      s.ThreadRun(tid);
    }
  }

  lemma CreatedArrives(k: Table, t: int, p: Priority)
    requires Inv(k) && 0 < t < MAX_THREADS && k.rows[t].state == Free
    ensures var made := Created(k, t, p);
            && Shape(made) && ReadyOk(made)
            && var after := ArriveReady(made, t);
               && |after.rows| == MAX_THREADS && after.rows[t].state == Ready && after.rows[t].priority == p
               && OfPriority(after.rows, after.arrivals, p) == OfPriority(k.rows, k.arrivals, p) + [t]
               && forall q | q != p :: OfPriority(after.rows, after.arrivals, q) == OfPriority(k.rows, k.arrivals, q)
  {
    var made := Created(k, t, p);
    CreatedKeeps(k, t, p);
    var after := ArriveReady(made, t);
    FreeIsNowhere(k, t);
    assert (k.arrivals + [t])[..|k.arrivals|] == k.arrivals;
    forall q: Priority ensures OfPriority(after.rows, k.arrivals, q) == OfPriority(k.rows, k.arrivals, q) {
      OfPriorityFrame(k.rows, after.rows, k.arrivals, q);
    }
  }
}
