/** The threading layer as the kernel runs it: one table of rows updated in place, list heads, and
    loops that follow the links. Each method is proved equal to its step function on snapshots. */
module Kernel {
  import opened ThreadLists
  import opened ThreadTable
  import opened ThreadSteps
  import opened SleepQueue
  import opened Scheduling
  import opened KernelRuns

  const UINT32 := 0x1_0000_0000

  /** Position in a list by its link: what a pointer walk knows about where it is. */
  lemma LinkAt(link: seq<int>, head: int, xs: seq<int>, i: nat)
    requires Linked(link, head, xs) && i < |xs|
    ensures 0 < xs[i] < |link|
    ensures link[xs[i]] == if i + 1 < |xs| then xs[i + 1] else -1
    ensures link[xs[i]] == -1 <==> i + 1 == |xs|
  {
    if i + 1 < |xs| { assert link[xs[i]] == xs[i + 1]; }
  }

  /** In ready order the high-priority threads are exactly the first ones. */
  lemma OrderPriorities(rows: seq<Thread>, arrivals: seq<int>, j: nat)
    requires j < |ReadyOrder(rows, arrivals)|
    ensures var x := ReadyOrder(rows, arrivals)[j];
            HasPriority(rows, x, if j < |OfPriority(rows, arrivals, High)| then High else Normal)
  {
    var hs, ns := OfPriority(rows, arrivals, High), OfPriority(rows, arrivals, Normal);
    if j < |hs| {
      OfPriorityMembers(rows, arrivals, High);
      assert hs[j] in hs;
    } else {
      OfPriorityMembers(rows, arrivals, Normal);
      assert ns[j - |hs|] in ns;
    }
  }

  /** The shape of the table and of the chain around a `sleepq_add`. */
  lemma EnqueueFacts(k: Table, resource: int) returns (after: Table)
    requires Inv(k) && AwakeAndRunning(k) && resource > 0
    ensures Shape(k) && after == Enqueue(k, resource) && Inv(after) && Shape(after)
    ensures Linked(Links(k.rows), k.heads[Bucket(resource)], k.chains[Bucket(resource)])
    ensures k.current !in k.chains[Bucket(resource)]
  {
    EnqueueKeeps(k, resource);
    assert ChainOk(k, Bucket(resource));
    after := Enqueue(k, resource);
  }

  /** What the links of the ready list say before `t` joins at its spot. */
  lemma ArrivalFacts(k: Table, t: int)
    requires Shape(k) && ReadyOk(k) && 0 < t < MAX_THREADS && t !in k.arrivals
    ensures var order, p := ReadyOrder(k.rows, k.arrivals), ArrivalSpot(k, t);
            && k.readyHead == First(order) && k.readyTail == Last(order)
            && (forall i | 0 <= i < |order| :: 0 < order[i] < MAX_THREADS && order[i] != t)
            && (k.rows[t].priority == High && order != [] ==>
                  (k.rows[order[0]].priority == High <==> p > 0) && p == |OfPriority(k.rows, k.arrivals, High)|)
            && (k.rows[t].priority == Normal ==> p == |order|)
  {
    var order := ReadyOrder(k.rows, k.arrivals);
    ReadyOrderMembers(k.rows, k.arrivals);
    forall i | 0 <= i < |order| ensures 0 < order[i] < MAX_THREADS && order[i] != t {
      assert order[i] in order;
    }
    if order != [] { OrderPriorities(k.rows, k.arrivals, 0); }
  }

  /** Linking `t` in at its spot, by at most two assignments, is `Arrive`. */
  lemma LinkedInIsArrive(k: Table, t: int, after: Table)
    requires Shape(k) && ReadyOk(k) && 0 < t < MAX_THREADS && t !in k.arrivals
    requires var order, p := ReadyOrder(k.rows, k.arrivals), ArrivalSpot(k, t);
             && (p > 0 ==> 0 < order[p - 1] < MAX_THREADS && order[p - 1] != t)
             && var own := k.rows[t := k.rows[t].(next := if p < |order| then order[p] else -1)];
                after == k.(rows := if p == 0 then own else own[order[p - 1] := own[order[p - 1]].(next := t)],
                            readyHead := if p == 0 then t else k.readyHead,
                            readyTail := if p == |order| then t else k.readyTail,
                            arrivals := k.arrivals + [t])
    ensures after == Arrive(k, t)
  {
    hide ReadyOrder, OfPriority;
    RelinkIsUpdate(k.rows, ReadyOrder(k.rows, k.arrivals), ArrivalSpot(k, t), t);
  }

  lemma RelinkIsUpdate(rows: seq<Thread>, xs: seq<int>, p: nat, t: int)
    requires p <= |xs| && 0 <= t < |rows| && forall i | 0 <= i < |xs| :: 0 <= xs[i] < |rows|
    ensures Relink(rows, LinksAfterInsert(Links(rows), xs, p, t))
            == var own := rows[t := rows[t].(next := if p < |xs| then xs[p] else -1)];
               if p == 0 then own else own[xs[p - 1] := own[xs[p - 1]].(next := t)]
  {
  }

  /** Marking the thread ready before or after it joins the list makes no difference. */
  lemma ReadyThenArrive(k: Table, t: int)
    requires Shape(k) && ReadyOk(k) && 0 < t < MAX_THREADS && t !in k.arrivals
    ensures ReadyOk(WithState(k, t, Ready))
    ensures Arrive(WithState(k, t, Ready), t) == ArriveReady(k, t)
  {
    var marked := WithState(k, t, Ready);
    ReadyFrame(k, marked);
    ReadyOrderFrame(k.rows, marked.rows, k.arrivals);
    OfPriorityFrame(k.rows, marked.rows, k.arrivals, High);
    assert Arrive(marked, t).rows == ArriveReady(k, t).rows;
  }

  lemma ConsistentChains(k: Table, h: int)
    requires Inv(k) && 0 <= h < BUCKETS
    ensures Shape(k) && ChainsOk(k) && ChainOk(k, h)
  {
  }

  lemma WakeNobody(k: Table, resource: int)
    requires Inv(k) && resource > 0 && First(Queue(k, resource)) <= 0
    ensures Queue(k, resource) == [] && Wake(k, resource) == k
  {
    OnResourceMembers(k.rows, k.chains[Bucket(resource)], resource);
    assert ChainOk(k, Bucket(resource));
    assert Queue(k, resource) == [] || First(Queue(k, resource)) in Queue(k, resource);
  }

  /** Where a walk along the chain of `resource` stands: at position `i`, with nobody who waits for
      the resource behind it. */
  ghost predicate ScanAt(k: Table, resource: int, prev: int, first: int, i: nat) {
    && Shape(k)
    && var xs := k.chains[Bucket(resource)];
       && i <= |xs|
       && prev == (if i > 0 then xs[i - 1] else -1)
       && first == (if i < |xs| then xs[i] else -1)
       && forall j | 0 <= j < i :: !Awaits(k.rows, xs[j], resource)
  }

  lemma ScanDone(k: Table, resource: int, prev: int, first: int, i: nat)
    requires Inv(k) && ScanAt(k, resource, prev, first, i) && first <= 0
    ensures Queue(k, resource) == []
  {
    assert ChainOk(k, Bucket(resource));
    ScanFindsFirst(k.rows, k.chains[Bucket(resource)], resource, i);
  }

  /** What a wake-up does with the thread at the front of the queue, and where the walk goes on. */
  lemma WakeFacts(k: Table, resource: int, prev: int, first: int, i: nat) returns (off: Table, x: int)
    requires Inv(k) && resource > 0 && ScanAt(k, resource, prev, first, i)
    requires first == First(Queue(k, resource)) > 0
    ensures x == first && x !in k.arrivals && 0 < x < MAX_THREADS
    ensures Shape(k) && ChainsOk(k) && i < |k.chains[Bucket(resource)]| && x == k.chains[Bucket(resource)][i]
    ensures prev == if i > 0 then k.chains[Bucket(resource)][i - 1] else -1
    ensures off == Unhook(k, Bucket(resource), i) && Shape(off) && ReadyOk(off) && off.arrivals == k.arrivals
    ensures off.rows[x].state == k.rows[x].state
    ensures Inv(Wake(k, resource))
    ensures Wake(k, resource) == if k.rows[x].state == Sleeping then ArriveReady(off, x) else off
    ensures ScanAt(Wake(k, resource), resource, prev, k.rows[x].next, i)
  {
    hide InvBut, Queue, Unhook, ArriveReady, ChainsOk, ReadyOk;
    ConsistentChains(k, Bucket(resource));
    x := k.chains[Bucket(resource)][i];
    SpotIs(k, resource, i);
    UnhookKeeps(k, Bucket(resource), i);
    off := Unhook(k, Bucket(resource), i);
    UnhookedFacts(k, Bucket(resource), i);
    WakeKeeps(k, resource);
    WalkGoesOn(k, resource, prev, i);
  }

  lemma SpotIs(k: Table, resource: int, i: nat)
    requires Inv(k) && resource > 0 && i < |k.chains[Bucket(resource)]| && First(Queue(k, resource)) == k.chains[Bucket(resource)][i] > 0
    ensures Queue(k, resource) != [] && FirstSpot(k, resource) == i
  {
    assert ChainOk(k, Bucket(resource));
    assert k.chains[Bucket(resource)][FirstSpot(k, resource)] == k.chains[Bucket(resource)][i];
  }

  lemma UnhookedFacts(k: Table, h: int, i: nat)
    requires Inv(k) && 0 <= h < BUCKETS && i < |k.chains[h]|
    ensures var off, x := Unhook(k, h, i), k.chains[h][i];
            && Shape(off) && ReadyOk(off) && off.arrivals == k.arrivals && 0 <= x < MAX_THREADS && off.rows[x].state == k.rows[x].state
  {
    UnhookKeeps(k, h, i);
  }

  lemma WalkGoesOn(k: Table, resource: int, prev: int, i: nat)
    requires Inv(k) && resource > 0 && i < |k.chains[Bucket(resource)]|
    requires ScanAt(k, resource, prev, k.chains[Bucket(resource)][i], i)
    requires First(Queue(k, resource)) == k.chains[Bucket(resource)][i] > 0
    requires FirstSpot(k, resource) == i
    ensures var x := First(Queue(k, resource));
            0 < x < |k.rows| && ScanAt(Wake(k, resource), resource, prev, k.rows[x].next, i)
  {
    var h := Bucket(resource);
    var xs, after := k.chains[h], Wake(k, resource);
    assert ChainOk(k, h);
    LinkAt(Links(k.rows), k.heads[h], xs, i);
    WakeEffect(k, resource);
    assert after.chains[h] == RemoveAt(xs, i);
    forall j | 0 <= j < i ensures !Awaits(after.rows, after.chains[h][j], resource) {
      assert after.chains[h][j] == xs[j] != xs[i];
    }
  }

  lemma ExpireFacts(k: Table) returns (popped: Table, t: int)
    requires Inv(k) && k.sleepers != [] && k.current == IDLE
    ensures Shape(k) && k.sleeperHead == t == k.sleepers[0] && 0 < t < MAX_THREADS
    ensures popped == PopSleeper(k) && Shape(popped) && ReadyOk(popped) && popped.arrivals == k.arrivals && t !in k.arrivals
    ensures ExpireOne(k) == ArriveReady(popped, t) && Inv(ExpireOne(k)) && Shape(ArriveReady(popped, t))
  {
    t := k.sleepers[0];
    PopSleeperKeeps(k);
    popped := PopSleeper(k);
    ArriveReadyKeeps(popped, t);
  }

  lemma PoppedRows(k: Table, after: Table)
    requires Inv(k) && k.sleepers != [] && k.current == IDLE
    requires 0 < k.sleepers[0] < |k.rows|
    requires after == k.(rows := k.rows[k.sleepers[0] := k.rows[k.sleepers[0]].(nextSleeper := -1, wakeupTime := 0)],
                         sleeperHead := k.rows[k.sleepers[0]].nextSleeper,
                         sleepers := k.sleepers[1..])
    ensures after == PopSleeper(k)
  {
  }

  lemma SleeperHeadFacts(k: Table)
    requires Inv(k)
    ensures Shape(k) && k.sleeperHead == First(k.sleepers)
    ensures k.sleepers != [] ==> 0 < k.sleepers[0] < MAX_THREADS
  {
  }

  /** How one round of the wake-up pass unfolds. */
  lemma ExpireUnfolds(k: Table, now: int)
    requires Inv(k) && k.current == IDLE
    ensures k.sleepers != [] ==> 0 < k.sleepers[0] < |k.rows|
    ensures k.sleepers != [] && k.rows[k.sleepers[0]].wakeupTime < now ==> Expire(k, now) == Expire(ExpireOne(k), now)
    ensures k.sleepers == [] || k.rows[k.sleepers[0]].wakeupTime >= now ==> Expire(k, now) == k
  {
  }

  /** The cases of `Retire`, and what the parts of the table they need look like. */
  lemma RetireFacts(k: Table, now: int)
    requires Inv(k)
    ensures Shape(k) && ReadyOk(k)
    ensures var c, row := k.current, k.rows[k.current];
            if c == IDLE then
              row.state != Dying && row.sleepsOn == 0 && row.wakeupTime == 0
              && Shape(Expire(k, now)) && Retire(k, now) == WithState(Expire(k, now), IDLE, Ready)
            else if row.state == Dying then Retire(k, now) == WithState(k, c, Free).(current := IDLE)
            else if row.sleepsOn != 0 || row.wakeupTime != 0 then
              Retire(k, now) == WithState(k, c, Sleeping).(current := IDLE)
            else c !in k.arrivals && Retire(k, now) == ArriveReady(k, c).(current := IDLE)
  {
    if k.current != IDLE { assert Placed(k, k.current); }
  }

  /** The second half of a switch starts from a table whose ready list is in order. */
  lemma DispatchFacts(k: Table, c: int)
    requires Inv(k) && k.current == IDLE && 0 <= c < MAX_THREADS
    ensures Shape(k.(current := c)) && ReadyOk(k.(current := c))
    ensures forall x | x in k.arrivals && 0 <= x < MAX_THREADS :: k.rows[x].state == Ready
    ensures Inv(Dispatch(k))
    ensures var order := ReadyOrder(k.rows, k.arrivals);
            Dispatch(k) == if order == [] then WithState(k, IDLE, Running)
                           else WithState(Depart(k), order[0], Running).(current := order[0])
    ensures var order := ReadyOrder(k.rows, k.arrivals);
            order != [] ==> 0 < order[0] < MAX_THREADS && Depart(k.(current := c)) == Depart(k).(current := c)
  {
    DispatchKeeps(k);
    forall x | x in k.arrivals && 0 <= x < MAX_THREADS ensures k.rows[x].state == Ready { assert Placed(k, x); }
  }

  lemma SleeperAt(k: Table, i: nat)
    requires Inv(k) && AwakeAndRunning(k) && i < |k.sleepers|
    ensures Shape(k) && 0 < k.sleepers[i] < MAX_THREADS && k.sleepers[i] != k.current
    ensures k.rows[k.sleepers[i]].nextSleeper == if i + 1 < |k.sleepers| then k.sleepers[i + 1] else -1
  {
    LinkAt(SleeperLinks(k.rows), k.sleeperHead, k.sleepers, i);
    assert k.sleepers[i] in k.sleepers;
  }

  lemma {:induction false} SleepSpotFrame(rows: seq<Thread>, other: seq<Thread>, xs: seq<int>, time: int, i: nat)
    requires i <= |xs| && |rows| == |other| && forall j | 0 <= j < |xs| :: 0 <= xs[j] < |rows| && rows[xs[j]] == other[xs[j]]
    ensures SleepSpot(rows, xs, time, i) == SleepSpot(other, xs, time, i)
    decreases |xs| - i
  {
    if i < |xs| { SleepSpotFrame(rows, other, xs, time, i + 1); }
  }

  lemma SleepFacts(k: Table, time: int)
    requires Inv(k) && AwakeAndRunning(k)
    ensures Shape(k) && k.sleeperHead == First(k.sleepers) && 0 < k.current < MAX_THREADS
    ensures forall i | 0 <= i < |k.sleepers| :: 0 < k.sleepers[i] < MAX_THREADS && k.sleepers[i] != k.current
    ensures SleepersOk(k) && (Inv(SleepUntil(k, time)) <==> time != 0)
    ensures var marked := k.rows[k.current := k.rows[k.current].(wakeupTime := time)];
            && Linked(SleeperLinks(marked), k.sleeperHead, k.sleepers)
            && SleepSpot(marked, k.sleepers, time, 0) == SleepSpot(k.rows, k.sleepers, time, 0)
  {
    SleepUntilKeeps(k, time);
    forall i | 0 <= i < |k.sleepers| ensures 0 < k.sleepers[i] < MAX_THREADS && k.sleepers[i] != k.current {
      SleeperAt(k, i);
    }
    var marked := k.rows[k.current := k.rows[k.current].(wakeupTime := time)];
    SleepSpotFrame(k.rows, marked, k.sleepers, time, 0);
    LinkedFrame(SleeperLinks(k.rows), SleeperLinks(marked), k.sleeperHead, k.sleepers);
  }

  lemma RelinkSleepersIsUpdate(rows: seq<Thread>, xs: seq<int>, p: nat, t: int)
    requires p <= |xs| && 0 <= t < |rows| && forall i | 0 <= i < |xs| :: 0 <= xs[i] < |rows|
    ensures RelinkSleepers(rows, LinksAfterInsert(SleeperLinks(rows), xs, p, t))
            == var own := rows[t := rows[t].(nextSleeper := if p < |xs| then xs[p] else -1)];
               if p == 0 then own else own[xs[p - 1] := own[xs[p - 1]].(nextSleeper := t)]
  {
  }

  /** The rows after thread `t` has been linked in at position `p` of the timed list. */
  function JoinedRows(rows: seq<Thread>, xs: seq<int>, p: nat, t: int, time: int): seq<Thread>
    requires p <= |xs| && 0 <= t < |rows| && (p > 0 ==> 0 <= xs[p - 1] < |rows|)
  {
    var own := rows[t := rows[t].(wakeupTime := time, nextSleeper := if p < |xs| then xs[p] else -1)];
    if p == 0 then own else own[xs[p - 1] := own[xs[p - 1]].(nextSleeper := t)]
  }

  lemma JoinedAfterMark(rows: seq<Thread>, xs: seq<int>, p: nat, t: int, time: int)
    requires p <= |xs| && 0 <= t < |rows| && (p > 0 ==> 0 <= xs[p - 1] < |rows|)
    ensures JoinedRows(rows[t := rows[t].(wakeupTime := time)], xs, p, t, time) == JoinedRows(rows, xs, p, t, time)
  {
  }

  /** Linking the running thread into the timed list, by at most two assignments, is `SleepUntil`. */
  lemma LinkedInIsSleep(k: Table, time: int, after: Table)
    requires Shape(k) && SleepersOk(k) && 0 < k.current && (forall i | 0 <= i < |k.sleepers| :: 0 < k.sleepers[i] < MAX_THREADS)
    requires var xs, p, t := k.sleepers, SleepSpot(k.rows, k.sleepers, time, 0), k.current;
             && (p > 0 ==> xs[p - 1] != t)
             && after == k.(rows := JoinedRows(k.rows, xs, p, t, time),
                            sleeperHead := if p == 0 then t else k.sleeperHead,
                            sleepers := InsertAt(xs, p, t))
    ensures after == SleepUntil(k, time)
  {
    hide SleepSpot, SleepersOk;
    var t := k.current;
    var marked := k.rows[t := k.rows[t].(wakeupTime := time)];
    assert SleeperLinks(marked) == SleeperLinks(k.rows);
    RelinkSleepersIsUpdate(marked, k.sleepers, SleepSpot(k.rows, k.sleepers, time, 0), t);
  }

  /** How many slots after `start` slot `i` comes in a cyclic search. */
  function Turn(start: int, i: int, size: int): int
    requires size > 0
  {
    (i - start) % size
  }

  lemma TurnIs(start: int, i: int, size: int, u: int)
    requires 0 <= start < size && 0 <= i < size && 0 <= u < size
    ensures 0 <= Turn(start, u, size) < size
    ensures Turn(start, u, size) == i <==> u == (start + i) % size
  {
    Reduce(start + i, size);
    Reduce(u - start, size);
  }

  lemma NextTurn(start: int, i: int, size: int)
    requires 0 <= start < size && 0 <= i < size
    ensures ((start + i) % size + 1) % size == (start + i + 1) % size
  {
    Reduce(start + i, size);
    Reduce((start + i) % size + 1, size);
    Reduce(start + i + 1, size);
  }

  lemma Reduce(x: int, size: int)
    requires 0 < size && -size <= x < 2 * size
    ensures x % size == if x < 0 then x + size else if x < size then x else x - size
  {
    var q, r := x / size, x % size;
    assert x == size * q + r;
    assert q >= 2 ==> size * q >= size * 2;
    assert q <= -2 ==> size * q <= size * -2;
  }

  class ThreadSystem {
    const table: array<Thread>
    const hashtable: array<int>
    var readyHead: int
    var readyTail: int
    var sleeperHead: int
    var current: int
    var nextTid: int
    var nextPriorityTid: int
    ghost var arrivals: seq<int>
    ghost var chains: seq<seq<int>>
    ghost var sleepers: seq<int>

    ghost function Snap(): Table
      reads this, table, hashtable
    {
      Table(table[..], hashtable[..], readyHead, readyTail, sleeperHead, current, arrivals, chains, sleepers)
    }

    ghost predicate Valid()
      reads this, table, hashtable
    {
      Inv(Snap()) && 0 <= nextTid < MAX_THREADS && 0 <= nextPriorityTid < MAX_THREADS
    }

    constructor ()
      ensures Valid() && Snap() == Boot()
      ensures fresh(table) && fresh(hashtable)
    {
      hide InvBut;
      table := new Thread[MAX_THREADS](i => Thread(if i == IDLE then Ready else Free, 0, -1, -1, 0, Normal));
      hashtable := new int[BUCKETS](_ => -1);
      readyHead, readyTail, sleeperHead, current := -1, -1, -1, IDLE;
      nextTid, nextPriorityTid := 0, 0;
      arrivals, chains, sleepers := [], seq(BUCKETS, _ => []), [];
      new;
      BootInv();
      assert Snap() == Boot();
    }

    /** The last high-priority thread of the ready list and its successor, when there is one. */
    method LastHigh() returns (curr: int, next: int)
      requires Shape(Snap()) && ReadyOk(Snap())
      requires OfPriority(table[..], arrivals, High) != []
      ensures var order, n := ReadyOrder(table[..], arrivals), |OfPriority(table[..], arrivals, High)|;
              curr == order[n - 1] && next == if n < |order| then order[n] else -1
    {
      ghost var k := Snap();
      ghost var order, highs := ReadyOrder(k.rows, k.arrivals), |OfPriority(k.rows, k.arrivals, High)|;
      ghost var i := 0;
      LinkAt(Links(k.rows), readyHead, order, 0);
      curr := readyHead;
      next := table[curr].next;
      while next != -1 && table[next].priority == High
        invariant 0 <= i < highs
        invariant curr == order[i] && next == (if i + 1 < |order| then order[i + 1] else -1)
        invariant next != -1 ==> 0 < next < MAX_THREADS
        decreases |order| - i
      {
        OrderPriorities(k.rows, k.arrivals, i + 1);
        LinkAt(Links(k.rows), readyHead, order, i + 1);
        curr := next;
        next := table[next].next;
        i := i + 1;
        if i + 1 < |order| { LinkAt(Links(k.rows), readyHead, order, i + 1); }
      }
      if i + 1 < |order| { OrderPriorities(k.rows, k.arrivals, i + 1); }
    }

    /** `scheduler_add_to_ready_list` (priorities compiled in). */
    method AddToReadyList(t: int)
      requires Shape(Snap()) && ReadyOk(Snap())
      requires 0 < t < MAX_THREADS && t !in arrivals
      modifies this`readyHead, this`readyTail, this`arrivals, table
      ensures Snap() == Arrive(old(Snap()), t)
    {
      hide ReadyOrder, OfPriority, Arrive, ReadyOk;
      ghost var k := Snap();
      ArrivalFacts(k, t);
      if readyTail < 0 {
        readyHead, readyTail := t, t;
        table[t] := table[t].(next := -1);
      } else if table[t].priority == High {
        if table[readyHead].priority == High {
          var curr, next := LastHigh();
          table[curr] := table[curr].(next := t);
          table[t] := table[t].(next := next);
          if next == -1 { readyTail := t; }
        } else {
          table[t] := table[t].(next := readyHead);
          readyHead := t;
        }
      } else {
        table[readyTail] := table[readyTail].(next := t);
        table[t] := table[t].(next := -1);
        readyTail := t;
      }
      arrivals := arrivals + [t];
      LinkedInIsArrive(k, t, Snap());
    }

    /** `scheduler_remove_first_ready`. */
    method RemoveFirstReady() returns (t: int)
      requires Shape(Snap()) && ReadyOk(Snap())
      requires forall x | x in arrivals && 0 <= x < MAX_THREADS :: table[x].state == Ready
      modifies this`readyHead, this`readyTail, this`arrivals
      ensures var order := ReadyOrder(old(Snap()).rows, old(arrivals));
              if order == [] then t == IDLE && Snap() == old(Snap())
              else t == order[0] && Snap() == Depart(old(Snap()))
    {
      ghost var k := Snap();
      ghost var order := ReadyOrder(k.rows, k.arrivals);
      t := readyHead;
      assert t != IDLE;
      if t >= 0 {
        assert table[t].state == Ready by {
          ReadyOrderMembers(k.rows, k.arrivals);
          assert t == order[0] && t in order;
        }
        if readyTail == t {
          readyTail := -1;
        }
        readyHead := table[readyHead].next;
        arrivals := Without(arrivals, t);
      }
      if t < 0 {
        t := IDLE;
      }
    }

    /** Follows the links from `head` to the end of the list. */
    method LastOfChain(head: int, ghost xs: seq<int>) returns (prev: int)
      requires Linked(Links(table[..]), head, xs) && xs != []
      ensures prev == Last(xs)
    {
      prev := head;
      ghost var i := 0;
      LinkAt(Links(table[..]), head, xs, 0);
      while table[prev].next > 0
        invariant 0 <= i < |xs| && prev == xs[i] && 0 < prev < table.Length
        decreases |xs| - i
      {
        LinkAt(Links(table[..]), head, xs, i);
        prev := table[prev].next;
        i := i + 1;
        LinkAt(Links(table[..]), head, xs, i);
      }
      LinkAt(Links(table[..]), head, xs, i);
    }

    /** `sleepq_add` by the running thread. */
    method SleepqAdd(resource: int)
      requires Valid() && AwakeAndRunning(Snap()) && resource > 0
      modifies table, hashtable, this`chains
      ensures Valid() && Snap() == Enqueue(old(Snap()), resource)
    {
      hide InvBut;
      ghost var k := Snap();
      ghost var after := EnqueueFacts(k, resource);
      var hash := resource % BUCKETS;
      ghost var xs := chains[hash];
      var my := current;
      table[my] := table[my].(next := -1);
      table[my] := table[my].(sleepsOn := resource);
      if hashtable[hash] <= 0 {
        hashtable[hash] := my;
      } else {
        LinkedFrame(Links(k.rows), Links(table[..]), hashtable[hash], xs);
        var prev := LastOfChain(hashtable[hash], xs);
        table[prev] := table[prev].(next := my);
      }
      chains := chains[hash := xs + [my]];
      assert table[..] == after.rows;
    }

    /** From a position on the chain of `resource`, the next thread that waits for it. */
    method FindWaiter(resource: int, prev0: int, first0: int, ghost i0: nat)
      returns (prev: int, first: int, ghost i: nat)
      requires ScanAt(Snap(), resource, prev0, first0, i0) && ChainOk(Snap(), Bucket(resource))
      ensures ScanAt(Snap(), resource, prev, first, i)
      ensures first == First(Queue(Snap(), resource))
    {
      ghost var k, xs := Snap(), chains[Bucket(resource)];
      prev, first, i := prev0, first0, i0;
      if i < |xs| { LinkAt(Links(k.rows), k.heads[Bucket(resource)], xs, i); }
      while first > 0 && table[first].sleepsOn != resource
        invariant ScanAt(k, resource, prev, first, i)
        invariant i < |xs| ==> 0 < first < MAX_THREADS
        decreases |xs| - i
      {
        LinkAt(Links(k.rows), k.heads[Bucket(resource)], xs, i);
        prev := first;
        first := table[first].next;
        i := i + 1;
        if i < |xs| { LinkAt(Links(k.rows), k.heads[Bucket(resource)], xs, i); }
      }
      ScanFindsFirst(k.rows, xs, resource, i);
    }

    /** Takes position `i` off chain `hash`: the inner part of both wake-up functions. */
    method UnhookThread(hash: int, prev: int, x: int, ghost i: nat) returns (next: int)
      requires Shape(Snap()) && ChainsOk(Snap()) && 0 <= hash < BUCKETS && i < |chains[hash]|
      requires x == chains[hash][i] && prev == if i > 0 then chains[hash][i - 1] else -1
      modifies table, hashtable, this`chains
      ensures Snap() == Unhook(old(Snap()), hash, i)
      ensures 0 < x < MAX_THREADS && next == old(table[..])[x].next
    {
      ghost var k, xs := Snap(), chains[hash];
      assert ChainOk(k, hash);
      next := table[x].next;
      if prev <= 0 {
        hashtable[hash] := table[x].next;
      } else {
        table[prev] := table[prev].(next := table[x].next);
      }
      table[x] := table[x].(sleepsOn := 0);
      table[x] := table[x].(next := -1);
      chains := chains[hash := RemoveAt(xs, i)];
      assert table[..] == Unhook(k, hash, i).rows;
    }

    /** The end of a wake-up: a sleeping thread becomes ready, a running one just goes on. */
    method ReadyIfAsleep(t: int)
      requires Shape(Snap()) && ReadyOk(Snap()) && 0 < t < MAX_THREADS && t !in arrivals
      modifies this`readyHead, this`readyTail, this`arrivals, table
      ensures Snap() == if old(table[..])[t].state == Sleeping then ArriveReady(old(Snap()), t) else old(Snap())
    {
      if table[t].state == Sleeping {
        ghost var k := Snap();
        ReadyThenArrive(k, t);
        table[t] := table[t].(state := Ready);
        assert Snap() == WithState(k, t, Ready);
        AddToReadyList(t);
      }
    }

    /** One wake-up from a position on the chain: find, unlink, make ready. */
    method WakeNext(resource: int, prev0: int, first0: int, ghost i0: nat)
      returns (prev: int, first: int, ghost i: nat)
      requires Valid() && resource > 0 && ScanAt(Snap(), resource, prev0, first0, i0)
      modifies this`readyHead, this`readyTail, this`arrivals, this`chains, table, hashtable
      ensures Valid() && Snap() == Wake(old(Snap()), resource)
      ensures ScanAt(Snap(), resource, prev, first, i)
      ensures Queue(old(Snap()), resource) == [] ==> first <= 0
    {
      hide InvBut, Shape, ReadyOk, ChainsOk, ChainOk, Queue, Wake, ArriveReady, Unhook, ScanAt;
      ghost var k := Snap();
      ConsistentChains(k, Bucket(resource));
      prev, first, i := FindWaiter(resource, prev0, first0, i0);
      if first > 0 {
        ghost var off, x := WakeFacts(k, resource, prev, first, i);
        var wake := first;
        first := UnhookThread(resource % BUCKETS, prev, wake, i);
        ReadyIfAsleep(wake);
      } else {
        WakeNobody(k, resource);
      }
    }

    /** `sleepq_wake`. */
    method SleepqWake(resource: int)
      requires Valid() && resource > 0
      modifies this`readyHead, this`readyTail, this`arrivals, this`chains, table, hashtable
      ensures Valid() && Snap() == Wake(old(Snap()), resource)
    {
      hide InvBut, Wake, Queue;
      ConsistentChains(Snap(), Bucket(resource));
      var _, _, _ := WakeNext(resource, -1, hashtable[resource % BUCKETS], 0);
    }

    /** `sleepq_wake_all`. */
    method SleepqWakeAll(resource: int)
      requires Valid() && resource > 0
      modifies this`readyHead, this`readyTail, this`arrivals, this`chains, table, hashtable
      ensures Valid() && Snap() == WakeAll(old(Snap()), resource)
    {
      hide InvBut, Wake, Queue;
      ghost var k := Snap();
      ConsistentChains(k, Bucket(resource));
      var prev, first := -1, hashtable[resource % BUCKETS];
      ghost var i: nat, n: nat := 0, 0;
      while first > 0
        invariant Valid() && n <= |Queue(k, resource)| && Snap() == WakeTimes(k, resource, n)
        invariant ScanAt(Snap(), resource, prev, first, i)
        decreases |Queue(k, resource)| - n, if first > 0 then 1 else 0
      {
        WakeTimesQueue(k, resource, n, resource);
        if Queue(Snap(), resource) != [] { n := n + 1; } else { WakeNobody(Snap(), resource); }
        prev, first, i := WakeNext(resource, prev, first, i);
      }
      WakeTimesQueue(k, resource, n, resource);
      ScanDone(Snap(), resource, prev, first, i);
    }
  
    /** Wakes the first timed sleeper. */
    method WakeFirstSleeper()
      requires Valid() && sleepers != [] && current == IDLE
      modifies this`readyHead, this`readyTail, this`sleeperHead, this`arrivals, this`sleepers, table
      ensures Valid() && Snap() == ExpireOne(old(Snap())) && current == IDLE
    {
      hide InvBut, ReadyOk, PopSleeper, ExpireOne, ArriveReady, SleepersOk;
      ghost var k := Snap();
      ghost var popped, x := ExpireFacts(k);
      var t := sleeperHead;
      var next := table[t].nextSleeper;
      table[t] := table[t].(nextSleeper := -1);
      table[t] := table[t].(wakeupTime := 0);
      sleeperHead, sleepers := next, sleepers[1..];
      PoppedRows(k, Snap());
      MakeReady(t);
    }

    /** Joins the ready list and is marked ready afterwards. */
    method MakeReady(t: int)
      requires Shape(Snap()) && ReadyOk(Snap()) && 0 < t < MAX_THREADS && t !in arrivals
      modifies this`readyHead, this`readyTail, this`arrivals, table
      ensures Snap() == ArriveReady(old(Snap()), t)
    {
      AddToReadyList(t);
      table[t] := table[t].(state := Ready);
    }

    /** `scheduler_wakeup_expired_sleepers` at time `now`. */
    method WakeupExpired(now: int)
      requires Valid() && current == IDLE
      modifies this`readyHead, this`readyTail, this`sleeperHead, this`arrivals, this`sleepers, table
      ensures Valid() && Snap() == Expire(old(Snap()), now)
    {
      hide InvBut, Expire, ExpireOne;
      ghost var k := Snap();
      SleeperHeadFacts(Snap());
      while sleeperHead != -1
        invariant Valid() && current == IDLE && Expire(Snap(), now) == Expire(k, now)
        invariant Shape(Snap()) && sleeperHead == First(sleepers)
        decreases |sleepers|
      {
        SleeperHeadFacts(Snap());
        ExpireUnfolds(Snap(), now);
        if table[sleeperHead].wakeupTime < now {
          WakeFirstSleeper();
          SleeperHeadFacts(Snap());
        } else {
          return;
        }
      }
      SleeperHeadFacts(Snap());
      ExpireUnfolds(Snap(), now);
    }
  
    /** First half of `scheduler_schedule`; the processor still counts as taken by the old thread. */
    method RetireCurrent(now: int)
      requires Valid()
      modifies this`readyHead, this`readyTail, this`sleeperHead, this`arrivals, this`sleepers, table
      ensures Snap().(current := IDLE) == Retire(old(Snap()), now)
    {
      hide InvBut, ReadyOk, Retire, Expire;
      RetireFacts(Snap(), now);
      if table[current].state == Dying {
        table[current] := table[current].(state := Free);
      } else if table[current].sleepsOn != 0 {
        table[current] := table[current].(state := Sleeping);
      } else if table[current].wakeupTime != 0 {
        table[current] := table[current].(state := Sleeping);
      } else {
        if current != IDLE {
          AddToReadyList(current);
        } else {
          WakeupExpired(now);
        }
        table[current] := table[current].(state := Ready);
      }
    }

    /** `scheduler_schedule` at time `now`, on one processor. */
    method Reschedule(now: int)
      requires Valid()
      modifies this`readyHead, this`readyTail, this`sleeperHead, this`current, this`arrivals, this`sleepers, table
      ensures Valid() && Snap() == Schedule(old(Snap()), now)
    {
      hide InvBut, ReadyOk, Retire, Depart, ReadyOrder, Dispatch;
      ghost var k := Snap();
      RetireFacts(k, now);
      RetireCurrent(now);
      DispatchFacts(Retire(k, now), k.current);
      var t := RemoveFirstReady();
      table[t] := table[t].(state := Running);
      current := t;
    }

    /** `thread_sleep` by the running thread, with the 32-bit clock at `now`. The table stays consistent
        exactly when the wake-up time does not come out as zero. */
    method ThreadSleep(now: int, milliseconds: int)
      requires Valid() && AwakeAndRunning(Snap())
      requires 0 <= now < UINT32 && 0 <= milliseconds < UINT32
      modifies this`sleeperHead, this`sleepers, table
      ensures Snap() == SleepUntil(old(Snap()), (now + milliseconds) % UINT32)
      ensures Valid() <==> (now + milliseconds) % UINT32 != 0
    {
      hide InvBut, SleepersOk, SleepUntil, SleepSpot, Linked;
      var wakeup := (now + milliseconds) % UINT32;
      SleepFacts(Snap(), wakeup);
      JoinSleepers(wakeup);
    }

    /** Links the running thread into the timed list. */
    method JoinSleepers(wakeup: int)
      requires Shape(Snap()) && SleepersOk(Snap()) && 0 < current
      requires forall i | 0 <= i < |sleepers| :: 0 < sleepers[i] < MAX_THREADS && sleepers[i] != current
      requires var marked := table[..][current := table[..][current].(wakeupTime := wakeup)];
               && Linked(SleeperLinks(marked), sleeperHead, sleepers)
               && SleepSpot(marked, sleepers, wakeup, 0) == SleepSpot(table[..], sleepers, wakeup, 0)
      modifies this`sleeperHead, this`sleepers, table
      ensures Snap() == SleepUntil(old(Snap()), wakeup)
    {
      hide SleepersOk, SleepUntil, SleepSpot, JoinedRows, Linked, InsertAt, SleeperLinks;
      ghost var k := Snap();
      ghost var p := SleepSpot(k.rows, sleepers, wakeup, 0);
      var my := current;
      table[my] := table[my].(wakeupTime := wakeup);
      assert table[..] == k.rows[my := k.rows[my].(wakeupTime := wakeup)];
      LinkSleeper(my, wakeup, p);
      JoinedAfterMark(k.rows, k.sleepers, p, my, wakeup);
      sleepers := InsertAt(sleepers, p, my);
      LinkedInIsSleep(k, wakeup, Snap());
    }

    /** The links of `thread_sleep`, once the wake-up time is set. */
    method LinkSleeper(my: int, wakeup: int, ghost p: nat)
      requires 0 <= my < table.Length && table[my].wakeupTime == wakeup
      requires forall i | 0 <= i < |sleepers| :: 0 < sleepers[i] < table.Length && sleepers[i] != my
      requires Linked(SleeperLinks(table[..]), sleeperHead, sleepers) && p == SleepSpot(table[..], sleepers, wakeup, 0)
      modifies this`sleeperHead, table
      ensures table[..] == JoinedRows(old(table[..]), sleepers, p, my, wakeup)
      ensures sleeperHead == if p == 0 then my else old(sleeperHead)
    {
      hide SleepSpot;
      if sleeperHead == -1 {
        sleeperHead := my;
        table[my] := table[my].(nextSleeper := -1);
      } else {
        var it, prev, isTail, isTop := FindSleepSpot(wakeup);
        if isTail {
          table[it] := table[it].(nextSleeper := my);
          table[my] := table[my].(nextSleeper := -1);
        } else if isTop {
          table[my] := table[my].(nextSleeper := sleeperHead);
          sleeperHead := my;
        } else {
          assert prev != -1;
          table[my] := table[my].(nextSleeper := it);
          table[prev] := table[prev].(nextSleeper := my);
        }
      }
    }

    /** The walk of `thread_sleep`: either `it` is the last sleeper and wakes no later than `wakeup`, or
        `it` is the first one that wakes later, behind `prev`. */
    method FindSleepSpot(wakeup: int) returns (it: int, prev: int, isTail: bool, isTop: bool)
      requires Linked(SleeperLinks(table[..]), sleeperHead, sleepers) && sleepers != []
      ensures var p := SleepSpot(table[..], sleepers, wakeup, 0);
              && isTail == (p == |sleepers|)
              && (isTail ==> it == sleepers[p - 1])
              && (!isTail ==> it == sleepers[p] && isTop == (p == 0) && prev == if p > 0 then sleepers[p - 1] else -1)
    {
      ghost var xs := sleepers;
      it, prev, isTail, isTop := sleeperHead, -1, false, true;
      ghost var i := 0;
      while true
        invariant 0 <= i < |xs| && it == xs[i]
        invariant prev == (if i > 0 then xs[i - 1] else -1) && isTop == (i == 0) && !isTail
        invariant SleepSpot(table[..], xs, wakeup, i) == SleepSpot(table[..], xs, wakeup, 0)
        decreases |xs| - i
      {
        LinkAt(SleeperLinks(table[..]), sleeperHead, xs, i);
        if wakeup < table[it].wakeupTime {
          break;
        } else if table[it].nextSleeper == -1 {
          isTail := true;
          break;
        }
        prev := it;
        it := table[it].nextSleeper;
        isTop := false;
        i := i + 1;
      }
    }
  
    /** The slot search of thread creation: the first free row from `start` on, cyclically, never
        row 0; -1 exactly when no row is free. */
    method FindFreeRow(start: int) returns (tid: int)
      requires table.Length == MAX_THREADS && 0 <= start < MAX_THREADS
      ensures tid == -1 <==> forall t | 0 < t < MAX_THREADS :: table[t].state != Free
      ensures tid != -1 ==> 0 < tid < MAX_THREADS && table[tid].state == Free
      ensures tid != -1 ==> forall t | 0 < t < MAX_THREADS && Turn(start, t, MAX_THREADS) < Turn(start, tid, MAX_THREADS) :: table[t].state != Free
    {
      tid := -1;
      var i := 0;
      while i < MAX_THREADS
        invariant 0 <= i <= MAX_THREADS
        invariant forall t | 0 < t < MAX_THREADS && Turn(start, t, MAX_THREADS) < i :: table[t].state != Free
      {
        var t := (i + start) % MAX_THREADS;
        TurnIs(start, i, MAX_THREADS, t);
        if t != IDLE && table[t].state == Free {
          return t;
        }
        forall u | 0 < u < MAX_THREADS && Turn(start, u, MAX_THREADS) < i + 1 ensures table[u].state != Free {
          TurnIs(start, i, MAX_THREADS, u);
        }
        i := i + 1;
      }
      forall u | 0 < u < MAX_THREADS ensures table[u].state != Free {
        TurnIs(start, 0, MAX_THREADS, u);
      }
    }

    /** `thread_create_with_priority`. */
    method ThreadCreateWithPriority(p: Priority) returns (tid: int)
      requires Valid()
      modifies this`nextPriorityTid, table
      ensures Valid()
      ensures tid == -1 <==> forall t | 0 < t < MAX_THREADS :: old(Snap()).rows[t].state != Free
      ensures tid == -1 ==> Snap() == old(Snap())
      ensures tid != -1 ==> 0 < tid < MAX_THREADS && Snap() == Created(old(Snap()), tid, p) && old(Snap()).rows[tid].state == Free
    {
      ghost var k := Snap();
      assert Shape(k);
      tid := FindFreeRow(nextPriorityTid);
      if tid >= 0 {
        nextPriorityTid := (tid + 1) % MAX_THREADS;
        table[tid] := table[tid].(state := NonReady);
        table[tid] := table[tid].(sleepsOn := 0, next := -1, priority := p);
        assert Snap() == Created(k, tid, p);
        CreatedKeeps(k, tid, p);
      }
    }

    /** `thread_create`: normal priority, with a search position of its own. */
    method ThreadCreate() returns (tid: int)
      requires Valid()
      modifies this`nextTid, table
      ensures Valid()
      ensures tid == -1 <==> forall t | 0 < t < MAX_THREADS :: old(Snap()).rows[t].state != Free
      ensures tid == -1 ==> Snap() == old(Snap())
      ensures tid != -1 ==> 0 < tid < MAX_THREADS && Snap() == Created(old(Snap()), tid, Normal) && old(Snap()).rows[tid].state == Free
    {
      ghost var k := Snap();
      assert Shape(k);
      tid := FindFreeRow(nextTid);
      if tid >= 0 {
        nextTid := (tid + 1) % MAX_THREADS;
        table[tid] := table[tid].(state := NonReady);
        table[tid] := table[tid].(sleepsOn := 0, next := -1, priority := Normal);
        assert Snap() == Created(k, tid, Normal);
        CreatedKeeps(k, tid, Normal);
      }
    }

    /** `thread_run` on a created thread. */
    method ThreadRun(t: int)
      requires Valid() && 0 < t < MAX_THREADS && Snap().rows[t].state == NonReady
      modifies this`readyHead, this`readyTail, this`arrivals, table
      ensures Valid() && Snap() == ArriveReady(old(Snap()), t)
    {
      FreeIsNowhere(Snap(), t);
      StartKeeps(Snap(), t);
      MakeReady(t);
    }

    /** `thread_finish` by the running thread. */
    method ThreadFinish()
      requires Valid() && AwakeAndRunning(Snap())
      modifies table
      ensures Valid() && Snap() == WithState(old(Snap()), current, Dying)
    {
      FinishKeeps(Snap());
      table[current] := table[current].(state := Dying);
    }
  }
}
