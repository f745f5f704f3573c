/** Whose turn it is, over whole runs: threads of one priority run in the order in which they became ready, NORMAL ones only
    when no HIGH one is ready, and timed sleepers are woken by the idle thread's switches. */
module Turns {
  import opened Sequences
  import opened ThreadLists
  import opened ThreadTable
  import opened ThreadSteps
  import opened SleepQueue
  import opened Scheduling
  import opened KernelRuns
  import opened SleepOrder
  import opened Kernel

  /** The ready threads of one priority, in the order in which they became ready. */
  function Line(k: Table, p: Priority): seq<int> { OfPriority(k.rows, k.arrivals, p) }

  // ----- lines under steps -----

  /** Threads become ready, and those that were stay as they were. */
  ghost predicate Grows(k: Table, after: Table) {
    && Shape(k) && Shape(after) && k.arrivals <= after.arrivals
    && forall t | 0 <= t < MAX_THREADS && t in k.arrivals :: after.rows[t].priority == k.rows[t].priority
  }

  lemma {:induction false} OfPriorityConcat(rows: seq<Thread>, xs: seq<int>, ys: seq<int>, p: Priority)
    ensures OfPriority(rows, xs + ys, p) == OfPriority(rows, xs, p) + OfPriority(rows, ys, p)
    decreases |ys|
  {
    if ys == [] {
      assert xs + ys == xs;
    } else {
      assert (xs + ys)[..|xs + ys| - 1] == xs + ys[..|ys| - 1];
      OfPriorityConcat(rows, xs, ys[..|ys| - 1], p);
    }
  }

  lemma LineGrows(k: Table, after: Table, p: Priority)
    requires Grows(k, after)
    ensures Line(k, p) <= Line(after, p)
  {
    hide OfPriority;
    var more := after.arrivals[|k.arrivals|..];
    assert after.arrivals == k.arrivals + more;
    OfPriorityConcat(after.rows, k.arrivals, more, p);
    OfPriorityFrame(k.rows, after.rows, k.arrivals, p);
  }

  lemma CreatedGrows(k: Table, t: int, p: Priority)
    requires Inv(k) && 0 < t < MAX_THREADS && k.rows[t].state == Free
    ensures Grows(k, Created(k, t, p))
  {
    FreeIsNowhere(k, t);
  }

  lemma StartGrows(k: Table, t: int)
    requires Inv(k) && 0 < t < MAX_THREADS
    ensures Grows(k, ArriveReady(k, t))
  {
    hide ReadyOrder, OfPriority, ArriveReady;
    ArriveRows(k, t);
  }

  lemma EnqueueGrows(k: Table, resource: int)
    requires Inv(k) && AwakeAndRunning(k) && resource > 0
    ensures Grows(k, Enqueue(k, resource))
  {
    hide LinksAfterInsert;
  }

  lemma SleepUntilGrows(k: Table, time: int)
    requires Inv(k) && AwakeAndRunning(k)
    ensures Grows(k, SleepUntil(k, time))
  {
    hide LinksAfterInsert, SleepSpot;
  }

  lemma WakeGrows(k: Table, resource: int)
    requires Inv(k) && resource > 0
    ensures Grows(k, Wake(k, resource))
  {
    hide InvBut, Queue;
    InvShape(k);
    if Queue(k, resource) != [] { WakeEffect(k, resource); }
  }

  lemma WakeAllGrows(k: Table, resource: int)
    requires Inv(k) && resource > 0
    ensures Grows(k, WakeAll(k, resource))
  {
    hide InvBut, Queue, WakeAll;
    WakeAllEffect(k, resource, resource);
  }

  lemma ExpireOneGrows(k: Table)
    requires Inv(k) && k.sleepers != [] && k.current == IDLE
    ensures Grows(k, ExpireOne(k))
  {
    hide ReadyOrder, OfPriority, ArriveReady;
    PopSleeperKeeps(k);
    ArriveRows(PopSleeper(k), k.sleepers[0]);
  }

  lemma {:induction false} ExpireGrows(k: Table, now: int)
    requires Inv(k) && k.current == IDLE
    ensures Grows(k, Expire(k, now))
    decreases |k.sleepers|
  {
    hide InvBut, ExpireOne;
    InvShape(k);
    if Expire(k, now) != k {
      ExpireOneGrows(k);
      ExpireGrows(ExpireOne(k), now);
      var one := ExpireOne(k);
      forall t | t in k.arrivals ensures t in one.arrivals {}
    }
  }

  lemma RetireGrows(k: Table, now: int)
    requires Inv(k)
    ensures Grows(k, Retire(k, now))
  {
    hide Expire, ArriveReady, ReadyOrder, OfPriority, Placed;
    if k.current == IDLE {
      ExpireGrows(k, now);
    } else if k.rows[k.current].state != Dying && k.rows[k.current].sleepsOn == 0 && k.rows[k.current].wakeupTime == 0 {
      ArriveRows(k, k.current);
    }
  }

  // ----- who runs next -----

  /** The line that a dispatch takes from is the HIGH one, unless that is empty, and it takes the first thread. */
  lemma DispatchTakes(k: Table)
    requires Inv(k) && k.current == IDLE
    ensures var after, highs, normals := Dispatch(k), Line(k, High), Line(k, Normal);
            && Shape(after)
            && (highs != [] ==> after.current == highs[0] != IDLE && Line(after, High) == highs[1..] && Line(after, Normal) == normals)
            && (highs == [] && normals != [] ==>
                  after.current == normals[0] != IDLE && Line(after, High) == [] && Line(after, Normal) == normals[1..])
            && (highs == [] && normals == [] ==> after.current == IDLE && after.arrivals == k.arrivals == [])
            && (after.current != IDLE ==> after.rows[after.current].priority == if highs != [] then High else Normal)
  {
    hide OfPriority, Placed, ChainsOk, SleepersOk;
    var highs, normals, order := Line(k, High), Line(k, Normal), ReadyOrder(k.rows, k.arrivals);
    LinesHold(k);
    if order == [] {
      NobodyReady(k);
    } else {
      DepartKeeps(k);
      var t := order[0];
      OfPriorityWithout(k.rows, k.arrivals, t, High);
      OfPriorityWithout(k.rows, k.arrivals, t, Normal);
      FirstOfTwo(highs, normals);
      SameLines(k, t);
    }
  }

  lemma LinesHold(k: Table)
    requires Inv(k)
    ensures Distinct(Line(k, High) + Line(k, Normal))
    ensures forall p, x | x in Line(k, p) :: 0 < x < MAX_THREADS && k.rows[x].priority == p
  {
    hide OfPriority, ChainsOk, SleepersOk, Placed;
    assert ReadyOrder(k.rows, k.arrivals) == Line(k, High) + Line(k, Normal);
    forall p: Priority ensures forall x :: x in Line(k, p) <==> x in k.arrivals && HasPriority(k.rows, x, p) {
      OfPriorityMembers(k.rows, k.arrivals, p);
    }
  }

  lemma NobodyReady(k: Table)
    requires Inv(k) && ReadyOrder(k.rows, k.arrivals) == []
    ensures k.arrivals == []
  {
    hide ReadyOrder;
    if k.arrivals != [] {
      assert k.arrivals[0] in k.arrivals;
      ReadyOrderMembers(k.rows, k.arrivals);
      assert false;
    }
  }

  lemma FirstOfTwo(a: seq<int>, b: seq<int>)
    requires Distinct(a + b) && a + b != []
    ensures var t := (a + b)[0];
            && Without(a, t) == (if a == [] then [] else a[1..]) && Without(b, t) == (if a == [] then b[1..] else b)
  {
    var all := a + b;
    var t := all[0];
    if a == [] {
      assert all == b;
      RestWithout(b);
    } else {
      forall i, j | 0 <= i < j < |a| ensures a[i] != a[j] { assert all[i] == a[i] && all[j] == a[j]; }
      RestWithout(a);
      forall j | 0 <= j < |b| ensures b[j] != t { assert all[|a| + j] == b[j]; }
      WithoutAbsent(b, t);
    }
  }

  lemma RestWithout(xs: seq<int>)
    requires Distinct(xs) && xs != []
    ensures Without(xs, xs[0]) == xs[1..]
  {
    WithoutIsRemoveAt(xs, 0);
  }

  /** Marking the chosen thread as running changes no line. */
  lemma SameLines(k: Table, t: int)
    requires Inv(k) && k.current == IDLE && ReadyOrder(k.rows, k.arrivals) != [] && t == ReadyOrder(k.rows, k.arrivals)[0]
    ensures Shape(Dispatch(k)) && Dispatch(k).current == t
    ensures forall p :: Line(Dispatch(k), p) == OfPriority(k.rows, Without(k.arrivals, t), p)
    ensures forall x | 0 <= x < MAX_THREADS :: Dispatch(k).rows[x].priority == k.rows[x].priority
  {
    hide OfPriority, ReadyOrder;
    DepartKeeps(k);
    var after := Dispatch(k);
    forall p ensures Line(after, p) == OfPriority(k.rows, Without(k.arrivals, t), p) {
      OfPriorityFrame(k.rows, after.rows, Without(k.arrivals, t), p);
    }
  }

  // ----- turns over runs -----

  /** The step is a switch to a thread of priority `p`. */
  predicate Serves(step: Step, next: Table, p: Priority) {
    step.Switch? && 0 < next.current < |next.rows| && next.rows[next.current].priority == p
  }

  lemma SwitchLine(k: Table, now: int, p: Priority)
    requires Inv(k)
    ensures var after := Schedule(k, now);
            if Serves(Switch(now), after, p) then Line(k, p) <= [after.current] + Line(after, p) else Line(k, p) <= Line(after, p)
  {
    hide InvBut, Retire, Dispatch, Line;
    var mid := Retire(k, now);
    RetireGrows(k, now);
    LineGrows(k, mid, p);
    DispatchTakes(mid);
    assert forall q | Line(mid, q) != [] :: Line(mid, q) == [Line(mid, q)[0]] + Line(mid, q)[1..];
    InvShape(Schedule(k, now));
  }

  /** One step leaves a line as it is, but for threads that join at its end and the first one, which leaves when it is
      switched to. */
  lemma LineStep(k: Table, step: Step, p: Priority)
    requires Inv(k) && Enabled(k, step)
    ensures var after := After(k, step);
            if Serves(step, after, p) then Line(k, p) <= [after.current] + Line(after, p) else Line(k, p) <= Line(after, p)
  {
    hide InvBut, Wake, WakeAll, Enqueue, SleepUntil, Retire, Dispatch, ArriveReady, Line;
    match step {
      case Create(t, q) => CreatedGrows(k, t, q);
      case Start(t) => StartGrows(k, t);
      case SleepOn(r) => EnqueueGrows(k, r);
      case SleepFor(time) => SleepUntilGrows(k, time);
      case WakeFirst(r) => WakeGrows(k, r);
      case WakeEvery(r) => WakeAllGrows(k, r);
      case Finish => FinishGrows(k);
      case Switch(now) =>
        SwitchLine(k, now, p);
    }
    if !step.Switch? { LineGrows(k, After(k, step), p); }
  }

  lemma FinishGrows(k: Table)
    requires Shape(k) && AwakeAndRunning(k)
    ensures Grows(k, WithState(k, k.current, Dying))
  {
  }

  /** The number of switches to threads of priority `p` from state `n` to state `m`. */
  function Served(run: seq<Table>, steps: seq<Step>, p: Priority, n: nat, m: nat): nat
    requires n <= m <= |steps| < |run|
    decreases m
  {
    if m == n then 0 else Served(run, steps, p, n, m - 1) + if Serves(steps[m - 1], run[m], p) then 1 else 0
  }

  /** In every run a ready thread moves up by one place in the line of its priority with each switch to a thread of that
      line, until it is its own turn. */
  lemma {:induction false} TurnsInOrder(run: seq<Table>, steps: seq<Step>, p: Priority, n: nat, m: nat, i: nat)
    requires IsRun(run, steps) && n <= m < |run| && i < |Line(run[n], p)| && Served(run, steps, p, n, m) <= i
    ensures var j := i - Served(run, steps, p, n, m);
            j < |Line(run[m], p)| && Line(run[m], p)[j] == Line(run[n], p)[i]
    decreases m
  {
    hide InvBut, Follows, Boot, Line, Serves, After;
    if m > n {
      TurnsInOrder(run, steps, p, n, m - 1, i);
      ReachableInv(run, steps, m - 1);
      FollowsIsAfter(run[m - 1], steps[m - 1], run[m]);
      LineStep(run[m - 1], steps[m - 1], p);
    }
  }

  /** When as many switches to its line have been made as threads stood before it, the next one is to it. */
  lemma ThenItsTurn(run: seq<Table>, steps: seq<Step>, p: Priority, n: nat, m: nat, i: nat)
    requires IsRun(run, steps) && n <= m < |steps| && i < |Line(run[n], p)| && Served(run, steps, p, n, m) == i
    requires Serves(steps[m], run[m + 1], p)
    ensures run[m + 1].current == Line(run[n], p)[i]
  {
    hide InvBut, Follows, Boot, Line, After;
    TurnsInOrder(run, steps, p, n, m, i);
    ReachableInv(run, steps, m);
    FollowsIsAfter(run[m], steps[m], run[m + 1]);
    LineStep(run[m], steps[m], p);
  }

  /** A switch goes to a NORMAL thread only when no HIGH one is ready, and to the idle thread only when nobody is. */
  lemma HighGoesFirst(run: seq<Table>, steps: seq<Step>, m: nat)
    requires IsRun(run, steps) && m < |steps| && steps[m].Switch?
    ensures var next := run[m + 1];
            && (Serves(steps[m], next, Normal) ==> Line(next, High) == [])
            && (next.current == IDLE ==> next.arrivals == [])
            && (next.current != IDLE ==> exists p :: Serves(steps[m], next, p))
  {
    hide InvBut, Follows, Boot, Retire, Dispatch, OfPriority;
    ReachableInv(run, steps, m);
    FollowsIsAfter(run[m], steps[m], run[m + 1]);
    DispatchTakes(Retire(run[m], steps[m].now));
    var next := run[m + 1];
    ReachableInv(run, steps, m + 1);
    InvShape(next);
    assert next.current != IDLE ==> Serves(steps[m], next, next.rows[next.current].priority);
  }

  // ----- sleeping for a time -----

  /** The step makes the idle thread's switch at a time later than `time`. */
  predicate WakesAfter(k: Table, step: Step, time: int) { step.Switch? && k.current == IDLE && time < step.now }

  /** Thread `t` is on the timed list until `time`. */
  predicate SleepsTill(k: Table, t: int, time: int) {
    t in k.sleepers && 0 < t < |k.rows| && k.rows[t].wakeupTime == time
  }

  lemma SleepsAfter(k: Table, time: int)
    requires Inv(k) && AwakeAndRunning(k) && time != 0
    ensures SleepsTill(SleepUntil(k, time), k.current, time)
  {
    hide SleepSpot, LinksAfterInsert;
    InsertAtMembers(k.sleepers, SleepSpot(k.rows, k.sleepers, time, 0), k.current);
  }

  lemma TimedStep(k: Table, step: Step, t: int, time: int)
    requires Inv(k) && Enabled(k, step) && SleepsTill(k, t, time) && !WakesAfter(k, step, time)
    ensures SleepsTill(After(k, step), t, time)
  {
    hide InvBut, After, DueCount, SleepUntil, SleepSpot, Enabled;
    if step.SleepFor? {
      MayRun(k, step);
      SleepParts(k, step.time);
      InsertAtMembers(k.sleepers, SleepSpot(k.rows, k.sleepers, step.time, 0), k.current);
      AfterSleepFor(k, step);
      TimeOf(k.rows, SleepUntil(k, step.time).rows, k.current, step.time, t);
    } else {
      var m := StepLeaves(k, step);
      InvShape(k);
      if step.Switch? && k.current == IDLE { StaysBehind(k, t, step.now); }
    }
  }

  lemma MayRun(k: Table, step: Step)
    requires Enabled(k, step) && step.SleepFor?
    ensures AwakeAndRunning(k) && step.time != 0
  {
  }

  lemma AfterSleepFor(k: Table, step: Step)
    requires Inv(k) && Enabled(k, step) && step.SleepFor?
    ensures After(k, step) == SleepUntil(k, step.time)
  {
    hide InvBut, SleepUntil;
  }

  lemma TimeOf(rows: seq<Thread>, after: seq<Thread>, c: int, time: int, t: int)
    requires 0 <= c < |rows| && Times(after) == Times(rows)[c := time] && 0 <= t < |rows| && t != c
    ensures |after| == |rows| && after[t].wakeupTime == rows[t].wakeupTime
  {
    assert |Times(after)| == |after|;
    assert Times(after)[t] == Times(rows)[t];
  }

  /** A sleeper who is not due is behind those that a wake-up pass moves, and one who is due is among them. */
  lemma StaysBehind(k: Table, t: int, now: int)
    requires Inv(k) && k.current == IDLE && t in k.sleepers && 0 <= t < |k.rows|
    ensures var n := DueCount(Times(k.rows), k.sleepers, now);
            (t in k.sleepers[n..] <==> k.rows[t].wakeupTime >= now) && (t in k.sleepers[..n] <==> k.rows[t].wakeupTime < now)
  {
    hide InvBut, DueCount;
    InvShape(k);
    ExpireEffect(k, now);
    CutByTime(Times(k.rows), k.sleepers, DueCount(Times(k.rows), k.sleepers, now), t, now);
  }

  lemma CutByTime(times: seq<int>, xs: seq<int>, n: nat, t: int, now: int)
    requires n <= |xs| && (forall i | 0 <= i < |xs| :: 0 <= xs[i] < |times|) && t in xs
    requires (forall i | 0 <= i < n :: times[xs[i]] < now) && forall i | n <= i < |xs| :: times[xs[i]] >= now
    ensures 0 <= t < |times| && (t in xs[n..] <==> times[t] >= now) && (t in xs[..n] <==> times[t] < now)
  {
    var i :| 0 <= i < |xs| && xs[i] == t;
    if i < n { assert xs[..n][i] == t; } else { assert xs[n..][i - n] == t; }
  }

  /** From its `thread_sleep` on, a thread sleeps until the first switch from the idle thread later than its time. */
  lemma {:induction false} SleepsUntilDue(run: seq<Table>, steps: seq<Step>, i: nat, n: nat)
    requires IsRun(run, steps) && i < n <= |steps| && steps[i].SleepFor?
    requires forall j | i < j < n :: !WakesAfter(run[j], steps[j], steps[i].time)
    ensures SleepsTill(run[n], run[i].current, steps[i].time)
    decreases n
  {
    hide InvBut, Follows, Boot, SleepsTill, After, SleepUntil, Enabled, WakesAfter;
    RunStep(run, steps, n);
    FollowsIsAfter(run[n - 1], steps[n - 1], run[n]);
    if n == i + 1 {
      MayRun(run[i], steps[i]);
      SleepsAfter(run[i], steps[i].time);
      AfterSleepFor(run[i], steps[i]);
    } else {
      SleepsUntilDue(run, steps, i, n - 1);
      TimedStep(run[n - 1], steps[n - 1], run[i].current, steps[i].time);
    }
  }

  /** That switch takes it off the timed list; it is ready then, or runs. */
  lemma ThenItWakes(run: seq<Table>, steps: seq<Step>, i: nat, n: nat)
    requires IsRun(run, steps) && i < n < |steps| && steps[i].SleepFor?
    requires forall j | i < j < n :: !WakesAfter(run[j], steps[j], steps[i].time)
    requires WakesAfter(run[n], steps[n], steps[i].time)
    ensures var t, next := run[i].current, run[n + 1];
            t !in next.sleepers && (t in next.arrivals || t == next.current)
  {
    hide InvBut, Follows, Boot, After, SleepUntil, Enabled, Retire, Dispatch, Schedule, Expire, DueCount;
    var k, now, t := run[n], steps[n].now, run[i].current;
    SleepsUntilDue(run, steps, i, n);
    RunStep(run, steps, n + 1);
    FollowsIsAfter(k, steps[n], run[n + 1]);
    StaysBehind(k, t, now);
    ExpireEffect(k, now);
    AfterSwitch(k, steps[n]);
    SwitchReadies(k, now, t);
  }

  lemma AfterSwitch(k: Table, step: Step)
    requires Inv(k) && Enabled(k, step) && step.Switch?
    ensures After(k, step) == Schedule(k, step.now)
  {
    hide InvBut, Schedule;
  }

  /** Whoever the wake-up pass has readied is ready or runs after the switch. */
  lemma SwitchReadies(k: Table, now: int, t: int)
    requires Inv(k) && k.current == IDLE && t in Expire(k, now).arrivals && t !in Expire(k, now).sleepers
    ensures var next := Schedule(k, now);
            t !in next.sleepers && (t in next.arrivals || t == next.current)
  {
    hide InvBut, Expire, Dispatch;
    DispatchLeaves(Retire(k, now), t);
  }

  lemma DispatchLeaves(k: Table, t: int)
    requires Inv(k) && k.current == IDLE && t in k.arrivals
    ensures Dispatch(k).sleepers == k.sleepers && (t in Dispatch(k).arrivals || t == Dispatch(k).current)
  {
    hide ReadyOrder, OfPriority;
    if ReadyOrder(k.rows, k.arrivals) != [] {
      WithoutMembers(k.arrivals, ReadyOrder(k.rows, k.arrivals)[0]);
    } else {
      NobodyReady(k);
    }
  }

  /** The wake-up time is a sum on the 32-bit clock. At the time `later`, before the sleep is over, it looks as if it were
      over if and only if the clock wraps around between then and its end. */
  lemma WakesEarlyIff(start: nat, milliseconds: nat, later: nat)
    requires milliseconds < UINT32 && start <= later < start + milliseconds
    ensures (start + milliseconds) % UINT32 < later % UINT32 <==> later / UINT32 < (start + milliseconds) / UINT32
  {
  }
}
