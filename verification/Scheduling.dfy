/** Timed sleep, context switches and the life cycle of threads, as functions on snapshots. */
module Scheduling {
  import opened Sequences
  import opened ThreadLists
  import opened ThreadTable
  import opened ThreadSteps

  /** The rows with their `next_sleeper_id` links replaced. */
  function RelinkSleepers(rows: seq<Thread>, link: seq<int>): (r: seq<Thread>)
    requires |link| == |rows|
    ensures |r| == |rows| && SleeperLinks(r) == link && Links(r) == Links(rows)
  {
    seq(|rows|, i requires 0 <= i < |rows| => rows[i].(nextSleeper := link[i]))
  }

  // ----- going to sleep for a time -----

  /** First position, from `i` on, whose thread wakes later than `time`. */
  function SleepSpot(rows: seq<Thread>, xs: seq<int>, time: int, i: nat): (p: nat)
    requires i <= |xs| && forall j | 0 <= j < |xs| :: 0 <= xs[j] < |rows|
    ensures i <= p <= |xs|
    ensures forall j | i <= j < p :: rows[xs[j]].wakeupTime <= time
    ensures p < |xs| ==> time < rows[xs[p]].wakeupTime
    decreases |xs| - i
  {
    if i == |xs| || time < rows[xs[i]].wakeupTime then i else SleepSpot(rows, xs, time, i + 1)
  }

  /** `thread_sleep`: the running thread joins the timed sleepers behind everybody who wakes no
      later than `time`. */
  ghost function SleepUntil(k: Table, time: int): (r: Table)
    requires Shape(k) && SleepersOk(k)
    ensures Shape(r)
  {
    var t, p := k.current, SleepSpot(k.rows, k.sleepers, time, 0);
    k.(rows := RelinkSleepers(k.rows[t := k.rows[t].(wakeupTime := time)],
                              LinksAfterInsert(SleeperLinks(k.rows), k.sleepers, p, t)),
       sleeperHead := if p == 0 then t else k.sleeperHead,
       sleepers := InsertAt(k.sleepers, p, t))
  }

  /** The running thread is not among the sleepers while it is awake. */
  lemma RunnerIsNoSleeper(k: Table)
    requires Inv(k) && AwakeAndRunning(k)
    ensures k.current !in k.sleepers
  {
  }

  lemma InsertKeepsOrder(times: seq<int>, xs: seq<int>, p: nat, t: int, time: int)
    requires WakeOrder(times, xs) && p <= |xs| && 0 <= t < |times| && t !in xs
    requires forall j | 0 <= j < p :: times[xs[j]] <= time
    requires p < |xs| ==> time < times[xs[p]]
    ensures WakeOrder(times[t := time], InsertAt(xs, p, t))
  {
    var ys, after := InsertAt(xs, p, t), times[t := time];
    forall i | 0 <= i < |ys|
      ensures 0 <= ys[i] < |after|
      ensures after[ys[i]] == if i < p then times[xs[i]] else if i == p then time else times[xs[i - 1]]
    {
      if i < p { assert ys[i] == xs[i]; }
      if i > p { assert ys[i] == xs[i - 1]; }
    }
    forall i, j | 0 <= i < j < |ys| ensures after[ys[i]] <= after[ys[j]] {
      if i == p { assert times[xs[p]] <= times[xs[j - 1]]; }
    }
  }

  lemma SleepUntilSleepers(k: Table, time: int)
    requires Shape(k) && SleepersOk(k) && k.current != IDLE && k.current !in k.sleepers && time != 0
    ensures SleepersOk(SleepUntil(k, time))
  {
    var t, p, after := k.current, SleepSpot(k.rows, k.sleepers, time, 0), SleepUntil(k, time);
    InsertKeepsLinked(SleeperLinks(k.rows), k.sleeperHead, k.sleepers, p, t);
    InsertKeepsOrder(Times(k.rows), k.sleepers, p, t, time);
    assert Times(after.rows) == Times(k.rows)[t := time];
    assert forall x | x in after.sleepers :: after.rows[x].wakeupTime != 0 by {
      InsertAtMembers(k.sleepers, p, t);
    }
  }

  lemma SleepUntilPlaced(k: Table, time: int, u: int)
    requires Inv(k) && AwakeAndRunning(k) && time != 0 && 0 < u < MAX_THREADS
    ensures Placed(SleepUntil(k, time), u)
  {
    var p := SleepSpot(k.rows, k.sleepers, time, 0);
    InsertAtMembers(k.sleepers, p, k.current);
    assert Placed(k, u);
  }

  lemma SleepUntilKeepsInv(k: Table, time: int)
    requires Inv(k) && AwakeAndRunning(k) && time != 0
    ensures Inv(SleepUntil(k, time))
  {
    hide Placed, Linked, WakeOrder, Distinct;
    var after := SleepUntil(k, time);
    RunnerIsNoSleeper(k);
    SleepUntilSleepers(k, time);
    SameChains(k, after);
    ReadyFrame(k, after);
    forall u | 0 < u < MAX_THREADS ensures Placed(after, u) {
      SleepUntilPlaced(k, time, u);
    }
  }

  /** Going to sleep keeps the table consistent exactly when the wake-up time is not zero: zero is
      the mark for "not asleep", and a thread that carries it stays runnable while it is listed. */
  lemma SleepUntilKeeps(k: Table, time: int)
    requires Inv(k) && AwakeAndRunning(k)
    ensures Inv(SleepUntil(k, time)) <==> time != 0
  {
    if time != 0 {
      SleepUntilKeepsInv(k, time);
    } else {
      var after := SleepUntil(k, time);
      InsertAtMembers(k.sleepers, SleepSpot(k.rows, k.sleepers, time, 0), k.current);
      assert k.current in after.sleepers && after.rows[k.current].wakeupTime == 0;
    }
  }

  // ----- waking expired sleepers -----

  /** The first timed sleeper leaves the list, waits for no time any more, and becomes ready. */
  ghost function PopSleeper(k: Table): (r: Table)
    requires Shape(k) && SleepersOk(k) && k.sleepers != []
    ensures Shape(r)
  {
    var t := k.sleepers[0];
    k.(rows := k.rows[t := k.rows[t].(wakeupTime := 0, nextSleeper := -1)],
       sleeperHead := k.rows[t].nextSleeper,
       sleepers := k.sleepers[1..])
  }

  lemma RestKeepsOrder(times: seq<int>, xs: seq<int>, v: int)
    requires WakeOrder(times, xs) && Distinct(xs) && xs != []
    ensures WakeOrder(times[xs[0] := v], xs[1..])
  {
    var ys := xs[1..];
    forall i | 0 <= i < |ys| ensures 0 <= ys[i] < |times| && times[xs[0] := v][ys[i]] == times[ys[i]] {
      assert ys[i] == xs[i + 1];
    }
  }

  lemma PopSleeperSleepers(k: Table)
    requires Shape(k) && SleepersOk(k) && k.sleepers != []
    ensures SleepersOk(PopSleeper(k))
  {
    var xs, t, after := k.sleepers, k.sleepers[0], PopSleeper(k);
    var ys := xs[1..];
    RestLinked(SleeperLinks(k.rows), k.sleeperHead, xs);
    LinkedFrame(SleeperLinks(k.rows), SleeperLinks(after.rows), after.sleeperHead, ys);
    RestKeepsOrder(Times(k.rows), xs, 0);
    assert Times(after.rows) == Times(k.rows)[t := 0];
  }

  lemma PopSleeperKeeps(k: Table)
    requires Inv(k) && k.sleepers != [] && k.current == IDLE
    ensures InvBut(PopSleeper(k), k.sleepers[0])
    ensures 0 < k.sleepers[0] < MAX_THREADS && k.sleepers[0] !in k.arrivals
  {
    var xs, t, after := k.sleepers, k.sleepers[0], PopSleeper(k);
    assert t in xs;
    assert Placed(k, t);
    PopSleeperSleepers(k);
    ReadyFrame(k, after);
    SameChains(k, after);
    forall u | 0 < u < MAX_THREADS && u != t ensures Placed(after, u) {
      assert Placed(k, u);
      if u in xs { assert u in xs[1..]; }
    }
  }

  /** One round of `scheduler_wakeup_expired_sleepers`. */
  ghost function ExpireOne(k: Table): (r: Table)
    requires Inv(k) && k.sleepers != [] && k.current == IDLE
    ensures Inv(r) && r.current == IDLE && r.sleepers == k.sleepers[1..]
    ensures r.arrivals == k.arrivals + [k.sleepers[0]]
  {
    PopSleeperKeeps(k);
    ArriveReadyKeeps(PopSleeper(k), k.sleepers[0]);
    ArriveReady(PopSleeper(k), k.sleepers[0])
  }

  lemma ExpireOneRows(k: Table, x: int)
    requires Inv(k) && k.sleepers != [] && k.current == IDLE
    requires 0 <= x < MAX_THREADS && x != k.sleepers[0]
    ensures Shape(ExpireOne(k))
    ensures ExpireOne(k).rows[x] == k.rows[x].(next := ExpireOne(k).rows[x].next)
  {
    PopSleeperKeeps(k);
  }

  /** `scheduler_wakeup_expired_sleepers` at time `now`. */
  ghost function Expire(k: Table, now: int): (r: Table)
    requires Inv(k) && k.current == IDLE
    ensures Inv(r) && r.current == IDLE
    decreases |k.sleepers|
  {
    if k.sleepers != [] && k.rows[k.sleepers[0]].wakeupTime < now then Expire(ExpireOne(k), now) else k
  }

  /** Number of leading threads of `xs` whose time is before `now`. */
  function DueCount(times: seq<int>, xs: seq<int>, now: int): (n: nat)
    ensures n <= |xs|
  {
    if xs == [] || !(0 <= xs[0] < |times| && times[xs[0]] < now) then 0 else 1 + DueCount(times, xs[1..], now)
  }

  lemma {:induction false} DueCountFrame(times: seq<int>, other: seq<int>, xs: seq<int>, now: int)
    requires |times| == |other| && forall x | x in xs && 0 <= x < |times| :: times[x] == other[x]
    ensures DueCount(times, xs, now) == DueCount(other, xs, now)
  {
    if xs != [] {
      assert xs[0] in xs;
      DueCountFrame(times, other, xs[1..], now);
    }
  }

  /** On a list in wake order, the counted prefix is everyone who is due and nobody else. */
  lemma {:induction false} DueExactly(times: seq<int>, xs: seq<int>, now: int)
    requires WakeOrder(times, xs)
    ensures forall i | 0 <= i < DueCount(times, xs, now) :: times[xs[i]] < now
    ensures forall i | DueCount(times, xs, now) <= i < |xs| :: times[xs[i]] >= now
  {
    if xs != [] && times[xs[0]] < now {
      var ys, m := xs[1..], DueCount(times, xs[1..], now);
      DueExactly(times, ys, now);
      forall i | 0 <= i < m + 1 ensures times[xs[i]] < now { if i > 0 { assert ys[i - 1] == xs[i]; } }
      forall i | m + 1 <= i < |xs| ensures times[xs[i]] >= now { assert ys[i - 1] == xs[i]; }
    }
  }

  lemma ExpireOneTimes(k: Table)
    requires Inv(k) && k.sleepers != [] && k.current == IDLE
    ensures |Times(ExpireOne(k).rows)| == |Times(k.rows)| == MAX_THREADS
    ensures forall x | x in k.sleepers[1..] && 0 <= x < MAX_THREADS :: Times(ExpireOne(k).rows)[x] == Times(k.rows)[x]
  {
    forall x | x in k.sleepers[1..] && 0 <= x < MAX_THREADS
      ensures x != k.sleepers[0] && Times(ExpireOne(k).rows)[x] == Times(k.rows)[x]
    {
      ExpireOneRows(k, x);
    }
  }

  lemma SleepersInRange(k: Table)
    requires Inv(k)
    ensures |k.rows| == MAX_THREADS && forall i | 0 <= i < |k.sleepers| :: 0 < k.sleepers[i] < MAX_THREADS
  {
  }

  lemma OneMore(ready: seq<int>, xs: seq<int>, m: nat)
    requires m < |xs|
    ensures xs[1..][m..] == xs[m + 1..]
    ensures (ready + [xs[0]]) + xs[1..][..m] == ready + xs[..m + 1]
  {
    assert xs[..m + 1] == [xs[0]] + xs[1..][..m];
  }

  lemma {:induction false} ExpireMovesPrefix(k: Table, now: int)
    requires Inv(k) && k.current == IDLE
    ensures var n := DueCount(Times(k.rows), k.sleepers, now);
            && Expire(k, now).sleepers == k.sleepers[n..]
            && Expire(k, now).arrivals == k.arrivals + k.sleepers[..n]
    decreases |k.sleepers|
  {
    hide InvBut, ExpireOne;
    SleepersInRange(k);
    if DueCount(Times(k.rows), k.sleepers, now) > 0 {
      ExpireMovesPrefix(ExpireOne(k), now);
      ExpireOneTimes(k);
      DueCountFrame(Times(k.rows), Times(ExpireOne(k).rows), k.sleepers[1..], now);
      OneMore(k.arrivals, k.sleepers, DueCount(Times(k.rows), k.sleepers[1..], now));
    }
  }

  /** A wake-up pass moves exactly the sleepers whose time is over, in wake order, to the ready list:
      nobody wakes early, and nobody who is due stays behind. */
  lemma ExpireEffect(k: Table, now: int)
    requires Inv(k) && k.current == IDLE
    ensures var n, times := DueCount(Times(k.rows), k.sleepers, now), Times(k.rows);
            && Expire(k, now).sleepers == k.sleepers[n..]
            && Expire(k, now).arrivals == k.arrivals + k.sleepers[..n]
            && (forall i | 0 <= i < |k.sleepers| :: 0 <= k.sleepers[i] < |times|)
            && (forall i | 0 <= i < n :: times[k.sleepers[i]] < now)
            && (forall i | n <= i < |k.sleepers| :: times[k.sleepers[i]] >= now)
  {
    ExpireMovesPrefix(k, now);
    DueExactly(Times(k.rows), k.sleepers, now);
  }

  // ----- context switches -----

  /** Taking the running thread off the processor puts it in limbo. */
  lemma Detach(k: Table)
    requires Inv(k) && AwakeOrDying(k)
    ensures InvBut(k.(current := IDLE), k.current)
    ensures k.current !in k.arrivals
  {
    var after := k.(current := IDLE);
    assert Placed(k, k.current);
    SameChains(k, after);
    forall u | 0 < u < MAX_THREADS && u != k.current ensures Placed(after, u) {
      assert Placed(k, u);
    }
  }

  predicate AwakeOrDying(k: Table)
    requires Shape(k)
  {
    var row := k.rows[k.current];
    k.current != IDLE && row.sleepsOn == 0 && row.wakeupTime == 0
  }

  /** A running thread that waits for a resource or for time is now really asleep. */
  lemma FallAsleep(k: Table)
    requires Inv(k) && k.current != IDLE && !AwakeOrDying(k)
    ensures Inv(WithState(k, k.current, Sleeping).(current := IDLE))
  {
    var after := WithState(k, k.current, Sleeping).(current := IDLE);
    assert Placed(k, k.current);
    SameChains(k, after);
    SleepersFrame(k, after);
    ReadyFrame(k, after);
    forall u | 0 < u < MAX_THREADS ensures Placed(after, u) {
      assert Placed(k, u);
    }
  }

  /** What a switch does with a running thread that waits for nothing. */
  ghost function BackToReady(k: Table): Table
    requires Shape(k) && ReadyOk(k) && k.current != IDLE
  {
    ArriveReady(k, k.current).(current := IDLE)
  }

  /** The first half of `scheduler_schedule`: what becomes of the thread that was running. */
  ghost function Retire(k: Table, now: int): (r: Table)
    requires Inv(k)
    ensures Inv(r) && r.current == IDLE
  {
    var c := k.current;
    var row := k.rows[c];
    if c == IDLE then
      IdleStateIsFree(Expire(k, now), Ready);
      WithState(Expire(k, now), IDLE, Ready)
    else if row.state == Dying then
      assert Placed(k, c);
      Detach(k);
      LimboStateIsFree(k.(current := IDLE), c, Free);
      LeaveLimbo(WithState(k.(current := IDLE), c, Free), c);
      WithState(k, c, Free).(current := IDLE)
    else if row.sleepsOn != 0 || row.wakeupTime != 0 then
      FallAsleep(k);
      WithState(k, c, Sleeping).(current := IDLE)
    else
      Detach(k);
      ArriveReadyKeeps(k.(current := IDLE), c);
      BackToReady(k)
  }

  /** What comes of a wake-up time of zero: the thread waits for nothing, so the next switch puts it on the ready list,
      and it is still on the timed list. */
  lemma ZeroSleepEffect(k: Table)
    requires Inv(k) && AwakeAndRunning(k)
    ensures var t, asleep := k.current, SleepUntil(k, 0);
            && ReadyOk(asleep) && AwakeAndRunning(asleep) && asleep.current == t
            && var after := BackToReady(asleep);
               && t in after.arrivals && after.rows[t].state == Ready
               && t in after.sleepers && after.rows[t].wakeupTime == 0
  {
    var asleep := SleepUntil(k, 0);
    ReadyFrame(k, asleep);
    InsertAtMembers(k.sleepers, SleepSpot(k.rows, k.sleepers, 0, 0), k.current);
  }

  lemma IdleStateIsFree(k: Table, state: ThreadState)
    requires Inv(k) && k.current == IDLE && (state == Ready || state == Running)
    ensures Inv(WithState(k, IDLE, state))
  {
    var after := WithState(k, IDLE, state);
    SameChains(k, after);
    SleepersFrame(k, after);
    ReadyFrame(k, after);
    forall u | 0 < u < MAX_THREADS ensures Placed(after, u) {
      assert Placed(k, u);
    }
  }

  lemma LeaveLimbo(k: Table, t: int)
    requires InvBut(k, t) && 0 < t < MAX_THREADS && t !in k.arrivals
    requires k.rows[t].state == Free || k.rows[t].state == NonReady || k.rows[t].state == Running
    requires k.rows[t].state == Running <==> t == k.current
    ensures Inv(k)
  {
    assert Placed(k, t);
  }

  /** `scheduler_remove_first_ready` on a non-empty ready list. */
  ghost function Depart(k: Table): (r: Table)
    requires Shape(k) && ReadyOk(k) && ReadyOrder(k.rows, k.arrivals) != []
    ensures Shape(r)
  {
    var t := ReadyOrder(k.rows, k.arrivals)[0];
    k.(readyHead := k.rows[t].next,
       readyTail := if k.readyTail == t then -1 else k.readyTail,
       arrivals := Without(k.arrivals, t))
  }

  lemma DepartReadyOk(k: Table)
    requires Shape(k) && ReadyOk(k) && ReadyOrder(k.rows, k.arrivals) != []
    ensures ReadyOk(Depart(k))
  {
    var order := ReadyOrder(k.rows, k.arrivals);
    var t, after := order[0], Depart(k);
    ReadyOrderOfRemoval(k.rows, k.arrivals);
    RestLinked(Links(k.rows), k.readyHead, order);
    WithoutDistinct(k.arrivals, t);
    WithoutMembers(k.arrivals, t);
  }

  lemma DepartKeeps(k: Table)
    requires Inv(k) && ReadyOrder(k.rows, k.arrivals) != []
    ensures var t := ReadyOrder(k.rows, k.arrivals)[0];
            && 0 < t < MAX_THREADS && t in k.arrivals && k.rows[t].state == Ready
            && InvBut(Depart(k), t) && t !in Depart(k).arrivals
  {
    var order := ReadyOrder(k.rows, k.arrivals);
    var t, after := order[0], Depart(k);
    assert t in order;
    assert t in k.arrivals by { ReadyOrderMembers(k.rows, k.arrivals); }
    assert Placed(k, t);
    DepartReadyOk(k);
    SameChains(k, after);
    WithoutMembers(k.arrivals, t);
    forall u | 0 < u < MAX_THREADS && u != t ensures Placed(after, u) {
      assert Placed(k, u);
    }
  }

  /** The second half of `scheduler_schedule`: the first ready thread runs, or idle if there is none. */
  ghost function Dispatch(k: Table): (r: Table)
    requires Inv(k) && k.current == IDLE
  {
    var order := ReadyOrder(k.rows, k.arrivals);
    if order == [] then WithState(k, IDLE, Running)
    else
      DepartKeeps(k);
      WithState(Depart(k), order[0], Running).(current := order[0])
  }

  lemma AttachKeeps(k: Table, t: int)
    requires InvBut(k, t) && k.current == IDLE && 0 < t < MAX_THREADS && t !in k.arrivals && k.rows[t].state == Running
    ensures Inv(k.(current := t))
  {
    var after := k.(current := t);
    SameChains(k, after);
    assert Placed(after, t);
    forall u | 0 < u < MAX_THREADS && u != t ensures Placed(after, u) {
      assert Placed(k, u);
    }
  }

  lemma DispatchKeeps(k: Table)
    requires Inv(k) && k.current == IDLE
    ensures Inv(Dispatch(k))
  {
    var order := ReadyOrder(k.rows, k.arrivals);
    if order == [] {
      IdleStateIsFree(k, Running);
    } else {
      DepartKeeps(k);
      LimboStateIsFree(Depart(k), order[0], Running);
      AttachKeeps(WithState(Depart(k), order[0], Running), order[0]);
    }
  }

  /** `scheduler_schedule` at time `now`. */
  ghost function Schedule(k: Table, now: int): (r: Table)
    requires Inv(k)
    ensures Inv(r)
  {
    DispatchKeeps(Retire(k, now));
    Dispatch(Retire(k, now))
  }
}
