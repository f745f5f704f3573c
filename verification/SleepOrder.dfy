/** The timed list is a stable queue: in every run, threads that wake at the same time stand on it in the
    order in which they went to sleep. */
module SleepOrder {
  import opened Sequences
  import opened ThreadLists
  import opened ThreadTable
  import opened ThreadSteps
  import opened SleepQueue
  import opened Scheduling
  import opened KernelRuns

  predicate HasTime(times: seq<int>, x: int, v: int) { 0 <= x < |times| && times[x] == v }

  /** The threads of `xs` that wake at time `v`, in order. */
  function AtTime(times: seq<int>, xs: seq<int>, v: int): seq<int> {
    if xs == [] then []
    else AtTime(times, xs[..|xs| - 1], v) + (if HasTime(times, xs[|xs| - 1], v) then [xs[|xs| - 1]] else [])
  }

  /** The threads of `xs` that are among `ys`, in the order of `xs`. */
  function Among(xs: seq<int>, ys: seq<int>): seq<int> {
    if xs == [] then []
    else Among(xs[..|xs| - 1], ys) + (if xs[|xs| - 1] in ys then [xs[|xs| - 1]] else [])
  }

  // ----- the two filters -----

  lemma {:induction false} AtTimeConcat(times: seq<int>, xs: seq<int>, ys: seq<int>, v: int)
    ensures AtTime(times, xs + ys, v) == AtTime(times, xs, v) + AtTime(times, ys, v)
  {
    hide HasTime;
    if ys == [] {
      assert xs + ys == xs;
    } else {
      AtTimeConcat(times, xs, ys[..|ys| - 1], v);
      assert (xs + ys)[..|xs + ys| - 1] == xs + ys[..|ys| - 1];
    }
  }

  lemma {:induction false} AtTimeNone(times: seq<int>, xs: seq<int>, v: int)
    requires forall i | 0 <= i < |xs| :: !HasTime(times, xs[i], v)
    ensures AtTime(times, xs, v) == []
  {
    if xs != [] { AtTimeNone(times, xs[..|xs| - 1], v); }
  }

  lemma {:induction false} AtTimeFrame(times: seq<int>, other: seq<int>, xs: seq<int>, v: int)
    requires forall i | 0 <= i < |xs| :: HasTime(times, xs[i], v) == HasTime(other, xs[i], v)
    ensures AtTime(times, xs, v) == AtTime(other, xs, v)
  {
    if xs != [] { AtTimeFrame(times, other, xs[..|xs| - 1], v); }
  }

  lemma {:induction false} AmongConcat(xs: seq<int>, more: seq<int>, ys: seq<int>)
    ensures Among(xs + more, ys) == Among(xs, ys) + Among(more, ys)
  {
    if more == [] {
      assert xs + more == xs;
    } else {
      AmongConcat(xs, more[..|more| - 1], ys);
      assert (xs + more)[..|xs + more| - 1] == xs + more[..|more| - 1];
    }
  }

  lemma AmongOne(x: int, ys: seq<int>)
    ensures Among([x], ys) == if x in ys then [x] else []
  {
    assert [x][..0] == [];
  }

  lemma {:induction false} FiltersCommute(times: seq<int>, xs: seq<int>, ys: seq<int>, v: int)
    ensures AtTime(times, Among(xs, ys), v) == Among(AtTime(times, xs, v), ys)
  {
    hide HasTime;
    if xs != [] {
      var most, x := xs[..|xs| - 1], xs[|xs| - 1];
      FiltersCommute(times, most, ys, v);
      AtTimeConcat(times, Among(most, ys), if x in ys then [x] else [], v);
      AmongConcat(AtTime(times, most, v), if HasTime(times, x, v) then [x] else [], ys);
      AmongOne(x, ys);
      assert [x][..0] == [];
    }
  }

  lemma {:induction false} AmongAll(xs: seq<int>, ys: seq<int>)
    requires forall i | 0 <= i < |xs| :: xs[i] in ys
    ensures Among(xs, ys) == xs
  {
    if xs != [] {
      var most, x := xs[..|xs| - 1], xs[|xs| - 1];
      assert forall i | 0 <= i < |most| :: most[i] == xs[i];
      AmongAll(most, ys);
      assert most + [x] == xs;
    }
  }

  lemma {:induction false} AmongNone(xs: seq<int>, ys: seq<int>)
    requires forall i | 0 <= i < |xs| :: xs[i] !in ys
    ensures Among(xs, ys) == []
  {
    if xs != [] {
      var most := xs[..|xs| - 1];
      assert forall i | 0 <= i < |most| :: most[i] == xs[i];
      AmongNone(most, ys);
    }
  }

  lemma AmongSuffix(xs: seq<int>, m: nat)
    requires Distinct(xs) && m <= |xs|
    ensures Among(xs, xs[m..]) == xs[m..]
  {
    hide Among;
    var front, ys := xs[..m], xs[m..];
    assert xs == front + ys;
    AmongConcat(front, ys, ys);
    AmongAll(ys, ys);
    forall i | 0 <= i < |front| ensures front[i] !in ys {
      forall j | 0 <= j < |ys| ensures ys[j] != front[i] { assert ys[j] == xs[m + j] && front[i] == xs[i]; }
    }
    AmongNone(front, ys);
  }

  // ----- stability -----

  /** For every time, the sleepers of that time are listed as `fell` has them. */
  ghost predicate Stable(k: Table, fell: seq<int>) {
    forall v :: AtTime(Times(k.rows), k.sleepers, v) == AtTime(Times(k.rows), fell, v)
  }

  /** Leading sleepers may leave; the others keep their time. */
  ghost predicate OnlyLeave(k: Table, after: Table, m: nat) {
    && m <= |k.sleepers| && after.sleepers == k.sleepers[m..] && |after.rows| == |k.rows|
    && forall x | x in after.sleepers && 0 <= x < |k.rows| :: after.rows[x].wakeupTime == k.rows[x].wakeupTime
  }

  lemma LeavingKeepsStable(k: Table, after: Table, m: nat, fell: seq<int>)
    requires Stable(k, fell) && Distinct(k.sleepers) && OnlyLeave(k, after, m)
    ensures Stable(after, Among(fell, after.sleepers))
  {
    hide AtTime, Among, Distinct;
    var ys := after.sleepers;
    AmongSuffix(k.sleepers, m);
    forall v ensures AtTime(Times(after.rows), ys, v) == AtTime(Times(after.rows), Among(fell, ys), v) {
      FiltersCommute(Times(k.rows), fell, ys, v);
      FiltersCommute(Times(k.rows), k.sleepers, ys, v);
      MembersFrame(k, after, ys, v);
      AmongMembers(fell, ys);
      MembersFrame(k, after, Among(fell, ys), v);
    }
  }

  lemma {:induction false} AmongMembers(xs: seq<int>, ys: seq<int>)
    ensures forall i | 0 <= i < |Among(xs, ys)| :: Among(xs, ys)[i] in ys
  {
    if xs != [] { AmongMembers(xs[..|xs| - 1], ys); }
  }

  lemma MembersFrame(k: Table, after: Table, xs: seq<int>, v: int)
    requires |after.rows| == |k.rows|
    requires forall x | x in after.sleepers && 0 <= x < |k.rows| :: after.rows[x].wakeupTime == k.rows[x].wakeupTime
    requires forall i | 0 <= i < |xs| :: xs[i] in after.sleepers
    ensures AtTime(Times(k.rows), xs, v) == AtTime(Times(after.rows), xs, v)
  {
    AtTimeFrame(Times(k.rows), Times(after.rows), xs, v);
  }

  /** Inserting `t` behind everybody who wakes no later puts it behind everybody of its own time. */
  lemma InsertedAtTime(times: seq<int>, xs: seq<int>, p: nat, t: int, time: int, v: int)
    requires p <= |xs| && 0 <= t < |times| && t !in xs
    requires forall i | p <= i < |xs| :: 0 <= xs[i] < |times| && times[xs[i]] > time
    ensures AtTime(times[t := time], InsertAt(xs, p, t), v) == AtTime(times, xs, v) + (if v == time then [t] else [])
  {
    hide AtTime;
    var after, front, back := times[t := time], xs[..p], xs[p..];
    assert InsertAt(xs, p, t) == front + ([t] + back) && front + back == xs;
    AtTimeConcat(after, front, [t] + back, v);
    AtTimeConcat(after, [t], back, v);
    AtTimeConcat(after, front, back, v);
    AtTimeFrame(times, after, xs, v);
    AtTimeOne(after, t, v);
    if v == time { AtTimeNone(after, back, v); }
  }

  lemma AtTimeOne(times: seq<int>, x: int, v: int)
    ensures AtTime(times, [x], v) == if HasTime(times, x, v) then [x] else []
  {
    assert [x][..0] == [];
  }

  lemma AppendedAtTime(times: seq<int>, fell: seq<int>, t: int, time: int, v: int)
    requires 0 <= t < |times| && t !in fell
    ensures AtTime(times[t := time], fell + [t], v) == AtTime(times, fell, v) + (if v == time then [t] else [])
  {
    hide AtTime;
    AtTimeConcat(times[t := time], fell, [t], v);
    AtTimeFrame(times, times[t := time], fell, v);
    AtTimeOne(times[t := time], t, v);
  }

  /** A thread goes to sleep behind everybody who wakes no later. */
  lemma FallingKeepsStable(k: Table, time: int, fell: seq<int>)
    requires Inv(k) && AwakeAndRunning(k) && time != 0 && Stable(k, fell) && k.current !in fell
    ensures Stable(SleepUntil(k, time), fell + [k.current])
  {
    hide AtTime, InvBut, SleepUntil, SleepSpot;
    SleepParts(k, time);
    LaterOnes(k, time);
    var after, times := SleepUntil(k, time), Times(k.rows);
    forall v ensures AtTime(Times(after.rows), after.sleepers, v) == AtTime(Times(after.rows), fell + [k.current], v) {
      InsertedAtTime(times, k.sleepers, SleepSpot(k.rows, k.sleepers, time, 0), k.current, time, v);
      AppendedAtTime(times, fell, k.current, time, v);
    }
  }

  /** What the insertion does to list and times. */
  lemma SleepParts(k: Table, time: int)
    requires Inv(k) && AwakeAndRunning(k) && time != 0
    ensures Shape(k) && SleepersOk(k) && k.current !in k.sleepers
    ensures forall i | 0 <= i < |k.sleepers| :: 0 <= k.sleepers[i] < |k.rows|
    ensures var p, after := SleepSpot(k.rows, k.sleepers, time, 0), SleepUntil(k, time);
            after.sleepers == InsertAt(k.sleepers, p, k.current) && Times(after.rows) == Times(k.rows)[k.current := time]
  {
    hide SleepSpot, WakeOrder, Placed, ReadyOk, ChainsOk;
    RunnerIsNoSleeper(k);
    SleepersInRange(k);
  }

  lemma LaterOnes(k: Table, time: int)
    requires Shape(k) && SleepersOk(k)
    ensures var p := SleepSpot(k.rows, k.sleepers, time, 0);
            forall i | p <= i < |k.sleepers| :: 0 <= k.sleepers[i] < |Times(k.rows)| && Times(k.rows)[k.sleepers[i]] > time
  {
    hide Linked;
    var times, p := Times(k.rows), SleepSpot(k.rows, k.sleepers, time, 0);
    forall i | p <= i < |k.sleepers| ensures times[k.sleepers[i]] > time {
      assert i == p || times[k.sleepers[p]] <= times[k.sleepers[i]];
    }
  }

  // ----- what the other steps do to the timed list -----

  /** The timed list and the times of all rows are the same. */
  ghost predicate SameTimes(k: Table, after: Table) {
    && after.sleepers == k.sleepers && |after.rows| == |k.rows|
    && forall t | 0 <= t < |k.rows| :: after.rows[t].wakeupTime == k.rows[t].wakeupTime
  }

  lemma ArriveTimes(k: Table, t: int)
    requires Shape(k) && ReadyOk(k) && 0 < t < MAX_THREADS
    ensures SameTimes(k, ArriveReady(k, t))
  {
    hide ReadyOk, ReadyOrder, OfPriority, LinksAfterInsert;
  }

  lemma EnqueueTimes(k: Table, resource: int)
    requires Inv(k) && AwakeAndRunning(k) && resource > 0
    ensures SameTimes(k, Enqueue(k, resource))
  {
    hide LinksAfterInsert;
  }

  lemma WakeSameTimes(k: Table, resource: int)
    requires Inv(k) && resource > 0
    ensures SameTimes(k, Wake(k, resource))
  {
    hide InvBut, Queue;
    InvShape(k);
    if Queue(k, resource) != [] { WakeEffect(k, resource); }
  }

  lemma WakeAllSameTimes(k: Table, resource: int)
    requires Inv(k) && resource > 0
    ensures SameTimes(k, WakeAll(k, resource))
  {
    hide InvBut, Queue, WakeAll;
    WakeAllEffect(k, resource, resource);
  }

  lemma {:induction false} ExpireTimes(k: Table, now: int, x: int)
    requires Inv(k) && k.current == IDLE && x in Expire(k, now).sleepers && 0 <= x < MAX_THREADS
    ensures Shape(k) && Shape(Expire(k, now)) && x in k.sleepers
    ensures Expire(k, now).rows[x].wakeupTime == k.rows[x].wakeupTime
    decreases |k.sleepers|
  {
    hide InvBut, ExpireOne;
    InvShape(k);
    if Expire(k, now) != k {
      ExpireTimes(ExpireOne(k), now, x);
      ExpireOneTimes(k);
    }
  }

  lemma ExpireLeaves(k: Table, now: int)
    requires Inv(k) && k.current == IDLE
    ensures OnlyLeave(k, Expire(k, now), DueCount(Times(k.rows), k.sleepers, now))
  {
    hide InvBut, Expire, DueCount;
    ExpireMovesPrefix(k, now);
    InvShape(k);
    InvShape(Expire(k, now));
    forall x | x in Expire(k, now).sleepers && 0 <= x < MAX_THREADS
      ensures Expire(k, now).rows[x].wakeupTime == k.rows[x].wakeupTime {
      ExpireTimes(k, now, x);
    }
  }

  lemma RetireLeaves(k: Table, now: int)
    requires Inv(k)
    ensures OnlyLeave(k, Retire(k, now), if k.current == IDLE then DueCount(Times(k.rows), k.sleepers, now) else 0)
  {
    hide Placed, DueCount;
    if k.current == IDLE {
      ExpireLeaves(k, now);
    } else if k.rows[k.current].state != Dying && k.rows[k.current].sleepsOn == 0 && k.rows[k.current].wakeupTime == 0 {
      ArriveTimes(k, k.current);
    }
  }

  lemma DispatchTimes(k: Table)
    requires Inv(k) && k.current == IDLE
    ensures SameTimes(k, Dispatch(k))
  {
    hide ReadyOrder, OfPriority;
  }

  lemma SwitchLeaves(k: Table, now: int) returns (m: nat)
    requires Inv(k)
    ensures OnlyLeave(k, Schedule(k, now), m) && m == if k.current == IDLE then DueCount(Times(k.rows), k.sleepers, now) else 0
  {
    hide InvBut, Retire, Dispatch, DueCount;
    m := if k.current == IDLE then DueCount(Times(k.rows), k.sleepers, now) else 0;
    RetireLeaves(k, now);
    DispatchTimes(Retire(k, now));
  }

  lemma StepLeaves(k: Table, step: Step) returns (m: nat)
    requires Inv(k) && Enabled(k, step) && !step.SleepFor?
    ensures OnlyLeave(k, After(k, step), m)
    ensures m == if step.Switch? && k.current == IDLE then DueCount(Times(k.rows), k.sleepers, step.now) else 0
  {
    hide InvBut, Schedule, Wake, WakeAll, Enqueue, ArriveReady, DueCount;
    m := 0;
    match step
    case Create(t, p) =>
    case Start(t) => StartsFromNowhere(k, t); ArriveTimes(k, t);
    case SleepOn(r) => EnqueueTimes(k, r);
    case SleepFor(_) =>
    case WakeFirst(r) => WakeSameTimes(k, r);
    case WakeEvery(r) => WakeAllSameTimes(k, r);
    case Finish =>
    case Switch(now) => m := SwitchLeaves(k, now);
  }

  lemma StartsFromNowhere(k: Table, t: int)
    requires Inv(k)
    ensures ReadyOk(k)
  {
  }

  // ----- over runs -----

  /** Who sleeps for a time in the `n`-th table of a run, in the order of falling asleep. */
  ghost function Fell(run: seq<Table>, steps: seq<Step>, n: nat): seq<int>
    requires n <= |steps| < |run|
  {
    if n == 0 then []
    else
      Among(Fell(run, steps, n - 1), run[n].sleepers) + if steps[n - 1].SleepFor? then [run[n - 1].current] else []
  }

  lemma RunStep(run: seq<Table>, steps: seq<Step>, n: nat)
    requires IsRun(run, steps) && 0 < n <= |steps|
    ensures Inv(run[n - 1]) && Follows(run[n - 1], steps[n - 1], run[n])
  {
    hide InvBut, Follows, Boot;
    ReachableInv(run, steps, n - 1);
  }

  lemma FellAreSleepers(run: seq<Table>, steps: seq<Step>, n: nat, x: int)
    requires IsRun(run, steps) && n <= |steps| && x in Fell(run, steps, n)
    ensures x in run[n].sleepers
  {
    hide InvBut, Follows, Boot, Among;
    if n > 0 {
      RunStep(run, steps, n);
      AmongMembers(Fell(run, steps, n - 1), run[n].sleepers);
      if steps[n - 1].SleepFor? { NewSleeper(run[n - 1], steps[n - 1], run[n]); }
    }
  }

  lemma NewSleeper(k: Table, step: Step, next: Table)
    requires Inv(k) && Follows(k, step, next) && step.SleepFor?
    ensures k.current in next.sleepers && k.current !in k.sleepers && next == SleepUntil(k, step.time) && step.time != 0 && AwakeAndRunning(k)
  {
    hide InvBut, SleepUntil, SleepSpot, SleepersOk;
    SleepParts(k, step.time);
    InsertAtMembers(k.sleepers, SleepSpot(k.rows, k.sleepers, step.time, 0), k.current);
  }

  /** In every reachable table the sleepers of each time stand in the order in which they fell asleep. */
  lemma {:induction false} ReachableStable(run: seq<Table>, steps: seq<Step>, n: nat)
    requires IsRun(run, steps) && n <= |steps|
    ensures Stable(run[n], Fell(run, steps, n))
  {
    hide InvBut, Follows, Boot, Stable;
    if n == 0 {
      NobodyAtBoot();
    } else {
      var k, step, fell := run[n - 1], steps[n - 1], Fell(run, steps, n - 1);
      ReachableStable(run, steps, n - 1);
      RunStep(run, steps, n);
      StableStep(k, step, run[n], fell) by {
        forall x | x in fell ensures x in k.sleepers { FellAreSleepers(run, steps, n - 1, x); }
      }
    }
  }

  lemma NobodyAtBoot()
    ensures Stable(Boot(), [])
  {
  }

  lemma {:induction false} StillListed(xs: seq<int>, ys: seq<int>, fell: seq<int>)
    requires forall x :: x in fell ==> x in xs
    requires forall x :: x in xs ==> x in ys
    ensures forall i | 0 <= i < |fell| :: fell[i] in ys
  {
    forall i | 0 <= i < |fell| ensures fell[i] in ys {
      var x := fell[i];
      assert x in fell;
      assert x in xs;
    }
  }

  lemma StableStep(k: Table, step: Step, next: Table, fell: seq<int>)
    requires Inv(k) && Follows(k, step, next) && Stable(k, fell) && forall x | x in fell :: x in k.sleepers
    ensures Stable(next, Among(fell, next.sleepers) + if step.SleepFor? then [k.current] else [])
  {
    hide InvBut, SleepUntil, Stable;
    if step.SleepFor? {
      NewSleeper(k, step, next);
      SleepParts(k, step.time);
      InsertAtMembers(k.sleepers, SleepSpot(k.rows, k.sleepers, step.time, 0), k.current);
      StillListed(k.sleepers, next.sleepers, fell);
      AmongAll(fell, next.sleepers);
      FallingKeepsStable(k, step.time, fell);
    } else {
      var m := StepLeaves(k, step);
      InvShape(k);
      LeavingKeepsStable(k, next, m, fell);
      assert Among(fell, next.sleepers) + [] == Among(fell, next.sleepers);
    }
  }

  // ----- said of two sleepers -----

  /** `x` comes before `y` in `xs`. */
  predicate Precedes(xs: seq<int>, x: int, y: int) { exists i, j :: 0 <= i < j < |xs| && xs[i] == x && xs[j] == y }

  lemma {:induction false} AtTimeHas(times: seq<int>, xs: seq<int>, v: int, x: int)
    ensures x in AtTime(times, xs, v) <==> x in xs && HasTime(times, x, v)
  {
    if xs != [] {
      AtTimeHas(times, xs[..|xs| - 1], v, x);
      assert xs == xs[..|xs| - 1] + [xs[|xs| - 1]];
    }
  }

  lemma PrecedesSnoc(xs: seq<int>, x: int, y: int, z: int)
    ensures Precedes(xs + [z], x, y) <==> Precedes(xs, x, y) || (x in xs && y == z)
  {
    var more := xs + [z];
    if Precedes(xs, x, y) {
      var i, j :| 0 <= i < j < |xs| && xs[i] == x && xs[j] == y;
      assert more[i] == x && more[j] == y;
    } else if x in xs && y == z {
      var i :| 0 <= i < |xs| && xs[i] == x;
      assert more[i] == x && more[|xs|] == y;
    }
    forall i, j | 0 <= i < j < |more| && more[i] == x && more[j] == y ensures Precedes(xs, x, y) || (x in xs && y == z) {
      assert xs[i] == x;
      if j < |xs| { assert xs[j] == y; }
    }
  }

  /** Filtering by a time neither loses nor invents an order among threads of that time. */
  lemma {:induction false} AtTimeOrder(times: seq<int>, xs: seq<int>, v: int, x: int, y: int)
    requires HasTime(times, x, v) && HasTime(times, y, v)
    ensures Precedes(AtTime(times, xs, v), x, y) <==> Precedes(xs, x, y)
  {
    hide Precedes, HasTime;
    if xs == [] {
      NothingPrecedes(x, y);
    } else {
      var most, z := xs[..|xs| - 1], xs[|xs| - 1];
      AtTimeOrder(times, most, v, x, y);
      assert xs == most + [z];
      PrecedesSnoc(most, x, y, z);
      PrecedesSnoc(AtTime(times, most, v), x, y, z);
      AtTimeHas(times, most, v, x);
      assert AtTime(times, most, v) + [] == AtTime(times, most, v);
    }
  }

  lemma NothingPrecedes(x: int, y: int)
    ensures !Precedes([], x, y)
  {
  }

  /** Two timed sleepers with the same wake-up time stand on the list in the order in which they fell asleep,
      in every table of every run, whatever was inserted and woken in between. */
  lemma EqualTimesInOrder(run: seq<Table>, steps: seq<Step>, n: nat, i: nat, j: nat)
    requires IsRun(run, steps) && n <= |steps| && i < j < |run[n].sleepers|
    ensures Shape(run[n]) && 0 <= run[n].sleepers[i] < MAX_THREADS && 0 <= run[n].sleepers[j] < MAX_THREADS
    ensures var x, y := run[n].sleepers[i], run[n].sleepers[j];
            && run[n].rows[x].wakeupTime <= run[n].rows[y].wakeupTime
            && (run[n].rows[x].wakeupTime == run[n].rows[y].wakeupTime ==> Precedes(Fell(run, steps, n), x, y))
  {
    hide InvBut, Follows, Boot, Fell, AtTime;
    ReachableInv(run, steps, n);
    ReachableStable(run, steps, n);
    var k, x, y := run[n], run[n].sleepers[i], run[n].sleepers[j];
    SortedPair(k, i, j);
    var times, v := Times(k.rows), k.rows[y].wakeupTime;
    if k.rows[x].wakeupTime == v {
      assert Precedes(k.sleepers, x, y);
      AtTimeOrder(times, k.sleepers, v, x, y);
      AtTimeOrder(times, Fell(run, steps, n), v, x, y);
    }
  }

  lemma SortedPair(k: Table, i: nat, j: nat)
    requires Inv(k) && i < j < |k.sleepers|
    ensures Shape(k) && 0 <= k.sleepers[i] < MAX_THREADS && 0 <= k.sleepers[j] < MAX_THREADS
    ensures k.rows[k.sleepers[i]].wakeupTime <= k.rows[k.sleepers[j]].wakeupTime
  {
    assert Times(k.rows)[k.sleepers[i]] <= Times(k.rows)[k.sleepers[j]];
  }
}
