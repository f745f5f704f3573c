/** The hashed sleep queue refines a map from resource to FIFO queue: waking removes the longest
    waiter of the resource and nothing else, also among resources that share a bucket. */
module SleepQueue {
  import opened Sequences
  import opened ThreadLists
  import opened ThreadTable
  import opened ThreadSteps

  // ----- filtering by resource -----

  lemma {:induction false} OnResourceMembers(rows: seq<Thread>, xs: seq<int>, resource: int)
    ensures forall x :: x in OnResource(rows, xs, resource) <==> x in xs && Awaits(rows, x, resource)
  {
    if xs != [] {
      OnResourceMembers(rows, xs[..|xs| - 1], resource);
      assert xs == xs[..|xs| - 1] + [xs[|xs| - 1]];
    }
  }

  lemma {:induction false} OnResourceConcat(rows: seq<Thread>, xs: seq<int>, ys: seq<int>, resource: int)
    ensures OnResource(rows, xs + ys, resource) == OnResource(rows, xs, resource) + OnResource(rows, ys, resource)
  {
    if ys == [] {
      assert xs + ys == xs;
    } else {
      OnResourceConcat(rows, xs, ys[..|ys| - 1], resource);
      assert (xs + ys)[..|xs + ys| - 1] == xs + ys[..|ys| - 1];
    }
  }

  lemma {:induction false} OnResourceWithout(rows: seq<Thread>, xs: seq<int>, x: int, resource: int)
    ensures OnResource(rows, Without(xs, x), resource) == Without(OnResource(rows, xs, resource), x)
  {
    if xs != [] {
      var init, y := xs[..|xs| - 1], xs[|xs| - 1];
      OnResourceWithout(rows, init, x, resource);
      WithoutConcat(OnResource(rows, init, resource), if Awaits(rows, y, resource) then [y] else [], x);
      if y == x {
        assert Without(xs, x) == Without(init, x);
        assert Without([y], x) == [];
      } else {
        assert Without([y], x) == [y];
        assert (Without(init, x) + [y])[..|Without(init, x)|] == Without(init, x);
      }
    }
  }

  lemma {:induction false} OnResourceDistinct(rows: seq<Thread>, xs: seq<int>, resource: int)
    requires Distinct(xs)
    ensures Distinct(OnResource(rows, xs, resource))
  {
    if xs != [] {
      var init, y := xs[..|xs| - 1], xs[|xs| - 1];
      OnResourceDistinct(rows, init, resource);
      OnResourceMembers(rows, init, resource);
      assert y !in init;
    }
  }

  lemma {:induction false} NobodyAwaits(rows: seq<Thread>, xs: seq<int>, resource: int)
    requires forall j | 0 <= j < |xs| :: !Awaits(rows, xs[j], resource)
    ensures OnResource(rows, xs, resource) == []
  {
    if xs != [] {
      NobodyAwaits(rows, xs[..|xs| - 1], resource);
    }
  }

  lemma QueueDistinct(k: Table, resource: int)
    requires Inv(k)
    ensures Distinct(Queue(k, resource))
  {
    assert ChainOk(k, Bucket(resource));
    OnResourceDistinct(k.rows, k.chains[Bucket(resource)], resource);
  }

  /** Scanning past threads that wait for something else finds the first of the queue. */
  lemma ScanFindsFirst(rows: seq<Thread>, xs: seq<int>, resource: int, i: nat)
    requires i <= |xs| && forall j | 0 <= j < i :: !Awaits(rows, xs[j], resource)
    ensures i == |xs| ==> OnResource(rows, xs, resource) == []
    ensures i < |xs| && Awaits(rows, xs[i], resource) ==>
              OnResource(rows, xs, resource) != [] && OnResource(rows, xs, resource)[0] == xs[i]
  {
    NobodyAwaits(rows, xs[..i], resource);
    assert xs[..|xs|] == xs;
    if i < |xs| {
      OnResourceConcat(rows, xs[..i], xs[i..], resource);
      assert xs == xs[..i] + xs[i..];
      assert xs[i..] == [xs[i]] + xs[i + 1..];
      OnResourceConcat(rows, [xs[i]], xs[i + 1..], resource);
    }
  }

  // ----- sleeping -----

  /** `sleepq_add` appends to the queue of its resource and leaves every other queue as it was. */
  lemma EnqueueQueue(k: Table, resource: int, other: int)
    requires Inv(k) && AwakeAndRunning(k) && resource > 0 && other > 0
    ensures Queue(Enqueue(k, resource), other) == Queue(k, other) + (if other == resource then [k.current] else [])
  {
    var t, h := k.current, Bucket(other);
    var after := Enqueue(k, resource);
    assert ChainOk(k, h);
    var xs := k.chains[h];
    assert t !in xs;
    assert OnResource(after.rows, xs, other) == Queue(k, other) by {
      OnResourceFrame(k.rows, after.rows, xs, other);
    }
    if h == Bucket(resource) {
      assert after.chains[h] == xs + [t];
      assert (xs + [t])[..|xs|] == xs;
      assert Awaits(after.rows, t, other) == (other == resource);
    }
  }

  // ----- unhooking one thread from a chain -----

  /** Position `i` of chain `h` is unlinked and its thread waits for nothing any more. */
  ghost function Unhook(k: Table, h: int, i: nat): (r: Table)
    requires Shape(k) && ChainsOk(k) && 0 <= h < BUCKETS && i < |k.chains[h]|
    ensures Shape(r)
  {
    assert ChainOk(k, h);
    var xs := k.chains[h];
    var x := xs[i];
    k.(rows := Relink(k.rows[x := k.rows[x].(sleepsOn := 0)], LinksAfterRemove(Links(k.rows), xs, i)[x := -1]),
       heads := if i == 0 then k.heads[h := k.rows[x].next] else k.heads,
       chains := k.chains[h := RemoveAt(xs, i)])
  }

  lemma UnhookChain(k: Table, h: int, i: nat)
    requires Inv(k) && 0 <= h < BUCKETS && i < |k.chains[h]|
    ensures ChainOk(Unhook(k, h, i), h)
  {
    assert ChainOk(k, h);
    var xs := k.chains[h];
    var after := Unhook(k, h, i);
    var ys := RemoveAt(xs, i);
    assert forall y :: y in ys <==> y in xs && y != xs[i] by {
      WithoutIsRemoveAt(xs, i);
      WithoutMembers(xs, xs[i]);
    }
    RemoveKeepsLinked(Links(k.rows), k.heads[h], xs, i);
    forall j | 0 <= j < |ys| ensures Links(after.rows)[ys[j]] == LinksAfterRemove(Links(k.rows), xs, i)[ys[j]] {
      assert ys[j] in ys;
    }
    LinkedFrame(LinksAfterRemove(Links(k.rows), xs, i), Links(after.rows), after.heads[h], ys);
  }

  lemma UnhookOtherChains(k: Table, h: int, i: nat, g: int)
    requires Inv(k) && 0 <= h < BUCKETS && i < |k.chains[h]|
    requires 0 <= g < BUCKETS && g != h
    ensures ChainOk(Unhook(k, h, i), g)
  {
    var after := Unhook(k, h, i);
    assert ChainOk(k, h) && ChainOk(k, g);
    forall x | x in k.chains[g]
      ensures after.rows[x].next == k.rows[x].next && after.rows[x].sleepsOn == k.rows[x].sleepsOn
    {
      if x in k.chains[h] { ChainsDisjoint(k, -1, g, h, x); }
    }
    ChainFrame(k, after, g);
  }

  lemma UnhookKeeps(k: Table, h: int, i: nat)
    requires Inv(k) && 0 <= h < BUCKETS && i < |k.chains[h]|
    ensures InvBut(Unhook(k, h, i), k.chains[h][i])
    ensures k.chains[h][i] !in k.arrivals && 0 < k.chains[h][i] < MAX_THREADS
  {
    var after, xs := Unhook(k, h, i), k.chains[h];
    var x := xs[i];
    assert ChainOk(k, h);
    assert x in xs;
    assert Placed(k, x);
    assert Shape(after);
    forall g | 0 <= g < BUCKETS ensures ChainOk(after, g) {
      if g == h { UnhookChain(k, h, i); } else { UnhookOtherChains(k, h, i, g); }
    }
    SleepersFrame(k, after);
    forall y | y in k.arrivals ensures after.rows[y].next == k.rows[y].next {
      assert Placed(k, y);
      assert y !in xs;
    }
    ReadyFrame(k, after);
    UnhookPlaced(k, h, i);
  }

  lemma UnhookPlaced(k: Table, h: int, i: nat)
    requires Inv(k) && 0 <= h < BUCKETS && i < |k.chains[h]|
    ensures forall u | 0 < u < MAX_THREADS && u != k.chains[h][i] :: Placed(Unhook(k, h, i), u)
  {
    var after, xs := Unhook(k, h, i), k.chains[h];
    assert ChainOk(k, h);
    assert forall y :: y in RemoveAt(xs, i) <==> y in xs && y != xs[i] by {
      WithoutIsRemoveAt(xs, i);
      WithoutMembers(xs, xs[i]);
    }
    forall u | 0 < u < MAX_THREADS && u != xs[i] ensures Placed(after, u) {
      assert Placed(k, u);
    }
  }

  /** Unhooking `x` takes it out of the queue it was in and touches no other queue. */
  lemma UnhookQueue(k: Table, h: int, i: nat, resource: int)
    requires Inv(k) && 0 <= h < BUCKETS && i < |k.chains[h]| && resource > 0
    ensures Queue(Unhook(k, h, i), resource) == Without(Queue(k, resource), k.chains[h][i])
  {
    var after, xs, g := Unhook(k, h, i), k.chains[h], Bucket(resource);
    var x := xs[i];
    assert ChainOk(k, h) && ChainOk(k, g);
    if g == h {
      WithoutIsRemoveAt(xs, i);
      WithoutMembers(xs, x);
      OnResourceFrame(k.rows, after.rows, RemoveAt(xs, i), resource);
      OnResourceWithout(k.rows, xs, x, resource);
    } else {
      assert x in xs && x !in k.chains[g];
      OnResourceFrame(k.rows, after.rows, k.chains[g], resource);
      OnResourceMembers(k.rows, k.chains[g], resource);
      WithoutAbsent(Queue(k, resource), x);
    }
  }

  // ----- waking -----

  /** Relinking the ready list and changing states leaves every queue alone. */
  lemma ArriveQueue(k: Table, t: int, resource: int)
    requires InvBut(k, t) && 0 < t < MAX_THREADS && t !in k.arrivals
    ensures Queue(ArriveReady(k, t), resource) == Queue(k, resource)
  {
    OnResourceFrame(k.rows, ArriveReady(k, t).rows, k.chains[Bucket(resource)], resource);
  }

  /** Where the first waiter of a non-empty queue sits in its chain. */
  ghost function FirstSpot(k: Table, resource: int): (i: nat)
    requires Inv(k) && resource > 0 && Queue(k, resource) != []
    ensures i < |k.chains[Bucket(resource)]| && k.chains[Bucket(resource)][i] == Queue(k, resource)[0]
  {
    OnResourceMembers(k.rows, k.chains[Bucket(resource)], resource);
    assert Queue(k, resource)[0] in Queue(k, resource);
    IndexOf(k.chains[Bucket(resource)], Queue(k, resource)[0])
  }

  /** `sleepq_wake`: the longest waiter leaves the queue; it becomes ready if it was asleep already,
      and just keeps running if it had not yet been switched out. */
  ghost function Wake(k: Table, resource: int): Table
    requires Inv(k) && resource > 0
  {
    if Queue(k, resource) == [] then k
    else
      var i := FirstSpot(k, resource);
      UnhookKeeps(k, Bucket(resource), i);
      var x, off := Queue(k, resource)[0], Unhook(k, Bucket(resource), i);
      if k.rows[x].state == Sleeping then ArriveReady(off, x) else off
  }

  lemma WakeKeeps(k: Table, resource: int)
    requires Inv(k) && resource > 0
    ensures Inv(Wake(k, resource))
  {
    if Queue(k, resource) != [] {
      var h, i := Bucket(resource), FirstSpot(k, resource);
      var x, off := Queue(k, resource)[0], Unhook(k, h, i);
      UnhookKeeps(k, h, i);
      assert ChainOk(k, h) && Placed(k, x);
      assert x in k.chains[h];
      if k.rows[x].state == Sleeping {
        ArriveReadyKeeps(off, x);
      } else {
        assert Placed(off, x);
      }
    }
  }

  /** The queue of the resource loses exactly its first thread; every other queue is unchanged. */
  lemma WakeQueue(k: Table, resource: int, other: int)
    requires Inv(k) && resource > 0 && other > 0
    ensures Queue(Wake(k, resource), other)
            == if other == resource && Queue(k, resource) != [] then Queue(k, resource)[1..] else Queue(k, other)
  {
    if Queue(k, resource) != [] {
      var h, i := Bucket(resource), FirstSpot(k, resource);
      var x, off := Queue(k, resource)[0], Unhook(k, h, i);
      UnhookKeeps(k, h, i);
      UnhookQueue(k, h, i, other);
      if k.rows[x].state == Sleeping { ArriveQueue(off, x, other); }
      assert ChainOk(k, Bucket(other));
      if other == resource {
        OnResourceDistinct(k.rows, k.chains[h], resource);
        WithoutIsRemoveAt(Queue(k, resource), 0);
      } else {
        OnResourceMembers(k.rows, k.chains[h], resource);
        OnResourceMembers(k.rows, k.chains[Bucket(other)], other);
        assert x in Queue(k, resource);
        WithoutAbsent(Queue(k, other), x);
      }
    }
  }

  /** Beside the queues, a wake-up changes the row of the woken thread and, if it was asleep, puts it
      last among the ready threads. */
  lemma WakeEffect(k: Table, resource: int)
    requires Inv(k) && resource > 0 && Queue(k, resource) != []
    ensures var x, after := Queue(k, resource)[0], Wake(k, resource);
            && 0 < x < MAX_THREADS && k.rows[x].sleepsOn == resource
            && Shape(after)
            && after.arrivals == k.arrivals + (if k.rows[x].state == Sleeping then [x] else [])
            && after.rows[x] == k.rows[x].(sleepsOn := 0, next := after.rows[x].next,
                                           state := if k.rows[x].state == Sleeping then Ready else k.rows[x].state)
            && (forall t | 0 <= t < MAX_THREADS && t != x :: after.rows[t] == k.rows[t].(next := after.rows[t].next))
            && after.sleepers == k.sleepers && after.current == k.current
  {
    hide InvBut, Queue, Unhook, ArriveReady, LinksAfterInsert, LinksAfterRemove;
    var h, i, x := Bucket(resource), FirstSpot(k, resource), Queue(k, resource)[0];
    FirstAwaits(k, resource);
    UnhookKeeps(k, h, i);
    UnhookRows(k, h, i);
    var off := Unhook(k, h, i);
    if k.rows[x].state == Sleeping { ArriveRows(off, x); }
  }

  lemma FirstAwaits(k: Table, resource: int)
    requires Inv(k) && resource > 0 && Queue(k, resource) != []
    ensures Shape(k) && ChainsOk(k) && 0 < Queue(k, resource)[0] < MAX_THREADS && k.rows[Queue(k, resource)[0]].sleepsOn == resource
  {
    OnResourceMembers(k.rows, k.chains[Bucket(resource)], resource);
    assert Queue(k, resource)[0] in Queue(k, resource);
    assert ChainOk(k, Bucket(resource));
  }

  lemma UnhookRows(k: Table, h: int, i: nat)
    requires Inv(k) && 0 <= h < BUCKETS && i < |k.chains[h]|
    ensures var x, after := k.chains[h][i], Unhook(k, h, i);
            && 0 < x < MAX_THREADS && Shape(k) && Shape(after) && ReadyOk(after)
            && after.arrivals == k.arrivals && after.sleepers == k.sleepers && after.current == k.current
            && (forall t | 0 <= t < MAX_THREADS ::
                  after.rows[t] == k.rows[t].(next := after.rows[t].next, sleepsOn := if t == x then 0 else k.rows[t].sleepsOn))
  {
    hide LinksAfterRemove, Linked;
    UnhookKeeps(k, h, i);
  }

  lemma ArriveRows(k: Table, x: int)
    requires Shape(k) && ReadyOk(k) && 0 < x < MAX_THREADS
    ensures var after := ArriveReady(k, x);
            && Shape(after) && after.arrivals == k.arrivals + [x] && after.sleepers == k.sleepers && after.current == k.current
            && (forall t | 0 <= t < MAX_THREADS ::
                  after.rows[t] == k.rows[t].(next := after.rows[t].next, state := if t == x then Ready else k.rows[t].state))
  {
    hide ReadyOk, ReadyOrder, OfPriority, LinksAfterInsert;
  }

  // ----- waking everybody -----

  ghost function WakeTimes(k: Table, resource: int, n: nat): (r: Table)
    requires Inv(k) && resource > 0
    ensures Inv(r) && Shape(r)
  {
    if n == 0 then k
    else
      WakeKeeps(WakeTimes(k, resource, n - 1), resource);
      Wake(WakeTimes(k, resource, n - 1), resource)
  }

  /** `sleepq_wake_all`: one wake-up for each thread queued at the time of the call. */
  ghost function WakeAll(k: Table, resource: int): (r: Table)
    requires Inv(k) && resource > 0
    ensures Inv(r)
  {
    WakeTimes(k, resource, |Queue(k, resource)|)
  }

  /** The threads of `xs` that are asleep, in order. */
  function Asleep(rows: seq<Thread>, xs: seq<int>): seq<int> {
    if xs == [] then []
    else
      var x := xs[|xs| - 1];
      Asleep(rows, xs[..|xs| - 1]) + (if 0 <= x < |rows| && rows[x].state == Sleeping then [x] else [])
  }

  lemma {:induction false} WakeTimesQueue(k: Table, resource: int, n: nat, other: int)
    requires Inv(k) && resource > 0 && other > 0 && n <= |Queue(k, resource)|
    ensures Queue(WakeTimes(k, resource, n), other)
            == if other == resource then Queue(k, resource)[n..] else Queue(k, other)
  {
    hide Wake, InvBut, Queue;
    if n > 0 {
      WakeTimesQueue(k, resource, n - 1, other);
      WakeTimesQueue(k, resource, n - 1, resource);
      WakeQueue(WakeTimes(k, resource, n - 1), resource, other);
      var q := Queue(k, resource);
      assert q[n - 1..] != [] && q[n - 1..][1..] == q[n..];
    }
  }

  /** A row after its thread has been woken: READY if it was SLEEPING, else in the state it was in. */
  predicate WokenRow(row: Thread, after: Thread) {
    after == row.(sleepsOn := 0, next := after.next, state := if row.state == Sleeping then Ready else row.state)
  }

  /** Threads outside `woken` keep everything but their link, and those in it are just woken. */
  ghost predicate OnlyWoken(k: Table, after: Table, woken: seq<int>) {
    && Shape(k) && Shape(after)
    && (forall t | 0 <= t < MAX_THREADS && t !in woken :: after.rows[t] == k.rows[t].(next := after.rows[t].next))
    && (forall t | 0 <= t < MAX_THREADS && t in woken :: WokenRow(k.rows[t], after.rows[t]))
  }

  lemma OnlyWokenMore(k: Table, before: Table, after: Table, woken: seq<int>, x: int)
    requires OnlyWoken(k, before, woken) && Shape(after) && x !in woken
    requires forall t | 0 <= t < MAX_THREADS && t != x :: after.rows[t] == before.rows[t].(next := after.rows[t].next)
    requires 0 <= x < MAX_THREADS && WokenRow(before.rows[x], after.rows[x])
    ensures OnlyWoken(k, after, woken + [x])
  {
  }

  lemma LastIsNew(k: Table, resource: int, n: nat)
    requires Inv(k) && 0 < n <= |Queue(k, resource)|
    ensures Queue(k, resource)[n - 1] !in Queue(k, resource)[..n - 1]
  {
    hide InvBut, Queue;
    QueueDistinct(k, resource);
  }

  lemma NobodyWoken(k: Table)
    requires Inv(k)
    ensures OnlyWoken(k, k, [])
  {
  }

  /** One more thread woken after those in `woken`. */
  lemma OneMoreWoken(k: Table, before: Table, resource: int, woken: seq<int>, x: int)
    requires Inv(before) && resource > 0 && Queue(before, resource) != [] && Queue(before, resource)[0] == x
    requires OnlyWoken(k, before, woken) && x !in woken
    ensures var after := Wake(before, resource);
            && 0 <= x < MAX_THREADS && OnlyWoken(k, after, woken + [x])
            && after.arrivals == before.arrivals + (if k.rows[x].state == Sleeping then [x] else [])
            && after.sleepers == before.sleepers && after.current == before.current
  {
    hide Wake, InvBut, Queue;
    WakeEffect(before, resource);
    OnlyWokenMore(k, before, Wake(before, resource), woken, x);
  }

  lemma {:induction false} WakeTimesEffect(k: Table, resource: int, n: nat)
    requires Inv(k) && resource > 0 && n <= |Queue(k, resource)|
    ensures var after, q := WakeTimes(k, resource, n), Queue(k, resource);
            && after.arrivals == k.arrivals + Asleep(k.rows, q[..n])
            && after.sleepers == k.sleepers && after.current == k.current
            && OnlyWoken(k, after, q[..n])
  {
    hide Wake, InvBut, Queue, OnlyWoken;
    var q := Queue(k, resource);
    if n == 0 {
      NobodyWoken(k);
    } else {
      var before, x := WakeTimes(k, resource, n - 1), q[n - 1];
      WakeTimesEffect(k, resource, n - 1);
      WakeTimesQueue(k, resource, n - 1, resource);
      LastIsNew(k, resource, n);
      InvShape(k);
      OneMoreWoken(k, before, resource, q[..n - 1], x);
      assert q[..n] == q[..n - 1] + [x];
    }
  }

  /** Broadcast wake-up: the queue is emptied, its members wait for nothing any more, exactly the
      sleeping ones become ready in queue order, and no other queue changes. */
  lemma WakeAllEffect(k: Table, resource: int, other: int)
    requires Inv(k) && resource > 0 && other > 0
    ensures Inv(WakeAll(k, resource))
    ensures Queue(WakeAll(k, resource), resource) == []
    ensures other != resource ==> Queue(WakeAll(k, resource), other) == Queue(k, other)
    ensures WakeAll(k, resource).arrivals == k.arrivals + Asleep(k.rows, Queue(k, resource))
    ensures WakeAll(k, resource).current == k.current && WakeAll(k, resource).sleepers == k.sleepers
    ensures OnlyWoken(k, WakeAll(k, resource), Queue(k, resource))
  {
    hide InvBut, Queue;
    var q := Queue(k, resource);
    WakeTimesQueue(k, resource, |q|, resource);
    WakeTimesQueue(k, resource, |q|, other);
    WakeTimesEffect(k, resource, |q|);
    assert q[..|q|] == q;
  }
}
