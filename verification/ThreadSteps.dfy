/** What each kernel operation does to the thread table, as a function on snapshots, and the proof
    that each keeps the table consistent. */
module ThreadSteps {
  import opened Sequences
  import opened ThreadLists
  import opened ThreadTable

  /** The rows with their `next` links replaced. */
  function Relink(rows: seq<Thread>, link: seq<int>): (r: seq<Thread>)
    requires |link| == |rows|
    ensures |r| == |rows| && Links(r) == link && SleeperLinks(r) == SleeperLinks(rows)
  {
    seq(|rows|, i requires 0 <= i < |rows| => rows[i].(next := link[i]))
  }

  /** Rows that differ at most in their links. */
  predicate SameButLinks(rows: seq<Thread>, other: seq<Thread>) {
    && |rows| == |other|
    && forall i | 0 <= i < |rows| ::
         other[i].(next := 0, nextSleeper := 0) == rows[i].(next := 0, nextSleeper := 0)
  }

  /** Chain members are neither ready nor in limbo, so relinking the ready list misses them. */
  lemma ChainMembersElsewhere(k: Table, limbo: int, h: int, x: int)
    requires InvBut(k, limbo) && 0 <= h < BUCKETS && x in k.chains[h]
    ensures 0 < x < MAX_THREADS && x != limbo && x !in k.arrivals && x !in ReadyOrder(k.rows, k.arrivals)
  {
    assert ChainOk(k, h);
    assert Placed(k, x);
    ReadyOrderMembers(k.rows, k.arrivals);
  }

  lemma ChainsDisjoint(k: Table, limbo: int, g: int, h: int, x: int)
    requires InvBut(k, limbo) && 0 <= h < BUCKETS && 0 <= g < BUCKETS
    requires x in k.chains[h] && x in k.chains[g]
    ensures g == h
  {
    assert ChainOk(k, h) && ChainOk(k, g);
  }

  /** A change to the table that leaves chain `h` and the rows of its members alone keeps it. */
  lemma ChainFrame(k: Table, after: Table, h: int)
    requires Shape(k) && Shape(after) && 0 <= h < BUCKETS && ChainOk(k, h)
    requires after.heads[h] == k.heads[h] && after.chains[h] == k.chains[h]
    requires forall x | x in k.chains[h] && 0 <= x < MAX_THREADS ::
               after.rows[x].next == k.rows[x].next && after.rows[x].sleepsOn == k.rows[x].sleepsOn
    ensures ChainOk(after, h)
  {
    var xs := k.chains[h];
    forall i | 0 <= i < |xs| ensures Links(after.rows)[xs[i]] == Links(k.rows)[xs[i]] {
      assert xs[i] in xs;
    }
    LinkedFrame(Links(k.rows), Links(after.rows), k.heads[h], xs);
  }

  lemma SameChains(k: Table, after: Table)
    requires Shape(k) && Shape(after) && ChainsOk(k)
    requires after.heads == k.heads && after.chains == k.chains
    requires forall x | 0 <= x < MAX_THREADS ::
               after.rows[x].next == k.rows[x].next && after.rows[x].sleepsOn == k.rows[x].sleepsOn
    ensures ChainsOk(after)
  {
    forall h | 0 <= h < BUCKETS ensures ChainOk(after, h) {
      assert ChainOk(k, h);
      ChainFrame(k, after, h);
    }
  }

  lemma SleepersFrame(k: Table, after: Table)
    requires Shape(k) && Shape(after) && SleepersOk(k)
    requires after.sleeperHead == k.sleeperHead && after.sleepers == k.sleepers
    requires forall x | x in k.sleepers && 0 <= x < MAX_THREADS ::
               after.rows[x].nextSleeper == k.rows[x].nextSleeper && after.rows[x].wakeupTime == k.rows[x].wakeupTime
    ensures SleepersOk(after)
  {
    var xs := k.sleepers;
    forall i | 0 <= i < |xs|
      ensures after.rows[xs[i]].nextSleeper == k.rows[xs[i]].nextSleeper
      ensures after.rows[xs[i]].wakeupTime == k.rows[xs[i]].wakeupTime
    {
      assert xs[i] in xs;
    }
    LinkedFrame(SleeperLinks(k.rows), SleeperLinks(after.rows), k.sleeperHead, xs);
  }

  lemma ReadyFrame(k: Table, after: Table)
    requires Shape(k) && Shape(after) && ReadyOk(k)
    requires after.readyHead == k.readyHead && after.readyTail == k.readyTail && after.arrivals == k.arrivals
    requires forall x | x in k.arrivals && 0 <= x < MAX_THREADS ::
               after.rows[x].next == k.rows[x].next && after.rows[x].priority == k.rows[x].priority
    ensures ReadyOk(after)
  {
    ReadyOrderFrame(k.rows, after.rows, k.arrivals);
    ReadyOrderMembers(k.rows, k.arrivals);
    var xs := ReadyOrder(k.rows, k.arrivals);
    forall i | 0 <= i < |xs| ensures Links(after.rows)[xs[i]] == Links(k.rows)[xs[i]] {
      assert xs[i] in xs;
    }
    LinkedFrame(Links(k.rows), Links(after.rows), k.readyHead, xs);
  }

  // ----- joining the ready list -----

  /** Where an arriving thread goes. */
  function ArrivalSpot(k: Table, t: int): (p: nat)
    requires 0 <= t < |k.rows|
    ensures p <= |ReadyOrder(k.rows, k.arrivals)|
  {
    if k.rows[t].priority == High then |OfPriority(k.rows, k.arrivals, High)| else |ReadyOrder(k.rows, k.arrivals)|
  }

  /** `scheduler_add_to_ready_list`. */
  ghost function Arrive(k: Table, t: int): Table
    requires Shape(k) && ReadyOk(k) && 0 < t < MAX_THREADS
  {
    var order := ReadyOrder(k.rows, k.arrivals);
    var p := ArrivalSpot(k, t);
    k.(rows := Relink(k.rows, LinksAfterInsert(Links(k.rows), order, p, t)),
       readyHead := if p == 0 then t else k.readyHead,
       readyTail := if p == |order| then t else k.readyTail,
       arrivals := k.arrivals + [t])
  }

  lemma ArriveReadyOk(k: Table, t: int)
    requires InvBut(k, t) && 0 < t < MAX_THREADS && t !in k.arrivals
    ensures ReadyOk(Arrive(k, t))
  {
    var after := Arrive(k, t);
    var order, p := ReadyOrder(k.rows, k.arrivals), ArrivalSpot(k, t);
    assert ReadyOrder(after.rows, after.arrivals) == InsertAt(order, p, t) by {
      ReadyOrderFrame(k.rows, after.rows, k.arrivals + [t]);
      ReadyOrderOfArrival(k.rows, k.arrivals, t);
    }
    assert t !in order by {
      ReadyOrderMembers(k.rows, k.arrivals);
    }
    InsertKeepsLinked(Links(k.rows), k.readyHead, order, p, t);
    assert Distinct(k.arrivals + [t]) by {
      InsertKeepsDistinct(k.arrivals, |k.arrivals|, t);
      assert InsertAt(k.arrivals, |k.arrivals|, t) == k.arrivals + [t];
    }
  }

  lemma ArriveChainsOk(k: Table, t: int)
    requires InvBut(k, t) && 0 < t < MAX_THREADS && t !in k.arrivals
    ensures ChainsOk(Arrive(k, t))
  {
    var after := Arrive(k, t);
    forall h | 0 <= h < BUCKETS ensures ChainOk(after, h) {
      assert ChainOk(k, h);
      forall x | x in k.chains[h] ensures after.rows[x].next == k.rows[x].next {
        ChainMembersElsewhere(k, t, h, x);
      }
      ChainFrame(k, after, h);
    }
  }

  lemma ArriveKeeps(k: Table, t: int)
    requires InvBut(k, t) && 0 < t < MAX_THREADS && t !in k.arrivals
    ensures InvBut(Arrive(k, t), t)
    ensures SameButLinks(k.rows, Arrive(k, t).rows)
  {
    var after := Arrive(k, t);
    ArriveReadyOk(k, t);
    ArriveChainsOk(k, t);
    SleepersFrame(k, after);
    forall u | 0 < u < MAX_THREADS && u != t ensures Placed(after, u) {
      assert Placed(k, u);
    }
  }

  /** A thread that has arrived and is marked ready is no longer in limbo. */
  lemma Settled(k: Table, t: int)
    requires InvBut(k, t) && 0 < t < MAX_THREADS && t in k.arrivals
    requires k.rows[t].state == Ready && t != k.current
    ensures Inv(k)
  {
    assert Placed(k, t);
  }

  function WithState(k: Table, t: int, state: ThreadState): (r: Table)
    requires 0 <= t < |k.rows|
    ensures Links(r.rows) == Links(k.rows) && SleeperLinks(r.rows) == SleeperLinks(k.rows)
  {
    k.(rows := k.rows[t := k.rows[t].(state := state)])
  }

  /** The state of a thread in limbo may be anything. */
  lemma LimboStateIsFree(k: Table, t: int, state: ThreadState)
    requires InvBut(k, t) && 0 < t < MAX_THREADS
    ensures InvBut(WithState(k, t, state), t)
  {
    var after := WithState(k, t, state);
    ReadyFrame(k, after);
    SleepersFrame(k, after);
    SameChains(k, after);
    forall u | 0 < u < MAX_THREADS && u != t ensures Placed(after, u) {
      assert Placed(k, u);
    }
  }

  /** Ready and on the ready list: the end of every wake-up. */
  ghost function ArriveReady(k: Table, t: int): Table
    requires Shape(k) && ReadyOk(k) && 0 < t < MAX_THREADS
  {
    WithState(Arrive(k, t), t, Ready)
  }

  lemma ArriveReadyKeeps(k: Table, t: int)
    requires InvBut(k, t) && 0 < t < MAX_THREADS && t !in k.arrivals && t != k.current
    ensures Inv(ArriveReady(k, t))
  {
    ArriveKeeps(k, t);
    LimboStateIsFree(Arrive(k, t), t, Ready);
    Settled(ArriveReady(k, t), t);
  }

  // ----- the sleep queue -----

  /** `sleepq_add`: the running thread goes to the end of the chain of its bucket. */
  ghost function Enqueue(k: Table, resource: int): Table
    requires Shape(k) && ChainsOk(k)
  {
    var t, h := k.current, Bucket(resource);
    assert ChainOk(k, h);
    var xs := k.chains[h];
    k.(rows := Relink(k.rows[t := k.rows[t].(sleepsOn := resource)], LinksAfterInsert(Links(k.rows), xs, |xs|, t)),
       heads := if xs == [] then k.heads[h := t] else k.heads,
       chains := k.chains[h := xs + [t]])
  }

  /** The running thread is on its way to sleep neither on a resource nor on time. */
  predicate AwakeAndRunning(k: Table)
    requires Shape(k)
  {
    var row := k.rows[k.current];
    k.current != IDLE && row.state == Running && row.sleepsOn == 0 && row.wakeupTime == 0
  }

  lemma EnqueueLinks(k: Table, resource: int)
    requires Shape(k) && ChainsOk(k) && 0 < k.current && k.current !in k.chains[Bucket(resource)] && resource > 0
    ensures var after, h := Enqueue(k, resource), Bucket(resource); Linked(Links(after.rows), after.heads[h], after.chains[h])
  {
    var t, h := k.current, Bucket(resource);
    var xs := k.chains[h];
    assert ChainOk(k, h);
    InsertKeepsLinked(Links(k.rows), k.heads[h], xs, |xs|, t);
    assert InsertAt(xs, |xs|, t) == xs + [t];
    assert Links(Enqueue(k, resource).rows) == LinksAfterInsert(Links(k.rows), xs, |xs|, t);
    HeadOf(Links(k.rows), k.heads[h], xs);
  }

  lemma HeadOf(link: seq<int>, head: int, xs: seq<int>)
    requires Linked(link, head, xs)
    ensures head == First(xs) && (xs != [] ==> head > 0)
  {
  }

  lemma EnqueueChain(k: Table, resource: int)
    requires Inv(k) && AwakeAndRunning(k) && resource > 0
    ensures ChainOk(Enqueue(k, resource), Bucket(resource))
  {
    hide Linked;
    var t, h := k.current, Bucket(resource);
    var after, xs := Enqueue(k, resource), k.chains[h];
    assert ChainOk(k, h) && t !in xs;
    EnqueueLinks(k, resource);
    forall x | x in xs + [t] ensures 0 < x < MAX_THREADS && after.rows[x].sleepsOn != 0 && Bucket(after.rows[x].sleepsOn) == h {
      if x != t { assert x in xs; }
    }
  }

  lemma EnqueueOtherChains(k: Table, resource: int, h: int)
    requires Inv(k) && AwakeAndRunning(k) && resource > 0
    requires 0 <= h < BUCKETS && h != Bucket(resource)
    ensures ChainOk(Enqueue(k, resource), h)
  {
    var g := Bucket(resource);
    var after := Enqueue(k, resource);
    assert ChainOk(k, h) && ChainOk(k, g);
    forall x | x in k.chains[h]
      ensures after.rows[x].next == k.rows[x].next && after.rows[x].sleepsOn == k.rows[x].sleepsOn
    {
      if x in k.chains[g] { ChainsDisjoint(k, -1, g, h, x); }
    }
    ChainFrame(k, after, h);
  }

  lemma EnqueueSparesReady(k: Table, resource: int, x: int)
    requires Inv(k) && AwakeAndRunning(k) && resource > 0 && x in k.arrivals
    ensures 0 <= x < MAX_THREADS && Enqueue(k, resource).rows[x].next == k.rows[x].next
  {
    hide Linked, WakeOrder;
    assert Placed(k, x) && Placed(k, k.current) && ChainOk(k, Bucket(resource));
    assert x !in k.chains[Bucket(resource)];
  }

  lemma EnqueuePlaced(k: Table, resource: int, u: int)
    requires Inv(k) && AwakeAndRunning(k) && resource > 0 && 0 < u < MAX_THREADS
    ensures Placed(Enqueue(k, resource), u)
  {
    assert Placed(k, u);
  }

  lemma EnqueueKeeps(k: Table, resource: int)
    requires Inv(k) && AwakeAndRunning(k) && resource > 0
    ensures Inv(Enqueue(k, resource))
  {
    hide Placed, Linked;
    var after := Enqueue(k, resource);
    assert Shape(after);
    EnqueueChain(k, resource);
    forall h | 0 <= h < BUCKETS ensures ChainOk(after, h) {
      if h != Bucket(resource) { EnqueueOtherChains(k, resource, h); }
    }
    SleepersFrame(k, after);
    forall x | x in k.arrivals ensures after.rows[x].next == k.rows[x].next { EnqueueSparesReady(k, resource, x); }
    ReadyFrame(k, after);
    forall u | 0 < u < MAX_THREADS ensures Placed(after, u) { EnqueuePlaced(k, resource, u); }
  }
}
