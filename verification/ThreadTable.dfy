/** The thread table as a value, with the lists that its rows carry: one `next` link per row, shared
    by the ready list and by the hash chains of the sleep queue, and a second link for timed
    sleepers. `Inv` is what every kernel operation keeps. */
module ThreadTable {
  import opened Sequences
  import opened ThreadLists

  const MAX_THREADS := 32
  const BUCKETS := 127
  const IDLE := 0

  datatype ThreadState = Free | Running | Ready | Sleeping | NonReady | Dying

  datatype Priority = High | Normal

  datatype Thread = Thread(
    state: ThreadState,
    sleepsOn: int,
    next: int,
    nextSleeper: int,
    wakeupTime: int,
    priority: Priority)

  /** A snapshot: the rows and list heads of the kernel, with the sequences they stand for.
      `arrivals` holds the ready threads in the order in which they became ready. */
  datatype Table = Table(
    rows: seq<Thread>,
    heads: seq<int>,
    readyHead: int,
    readyTail: int,
    sleeperHead: int,
    current: int,
    arrivals: seq<int>,
    chains: seq<seq<int>>,
    sleepers: seq<int>)

  function Bucket(resource: int): int { resource % BUCKETS }

  function Links(rows: seq<Thread>): seq<int> {
    seq(|rows|, i requires 0 <= i < |rows| => rows[i].next)
  }

  function SleeperLinks(rows: seq<Thread>): seq<int> {
    seq(|rows|, i requires 0 <= i < |rows| => rows[i].nextSleeper)
  }

  // ----- filtered sequences -----

  predicate HasPriority(rows: seq<Thread>, x: int, p: Priority) {
    0 <= x < |rows| && rows[x].priority == p
  }

  /** The threads of `xs` with priority `p`, in order. */
  function OfPriority(rows: seq<Thread>, xs: seq<int>, p: Priority): seq<int> {
    if xs == [] then []
    else
      var x := xs[|xs| - 1];
      OfPriority(rows, xs[..|xs| - 1], p) + (if HasPriority(rows, x, p) then [x] else [])
  }

  /** Two-level stable priority order: every high-priority thread in arrival order, then every
      normal one in arrival order. */
  function ReadyOrder(rows: seq<Thread>, arrivals: seq<int>): seq<int> {
    OfPriority(rows, arrivals, High) + OfPriority(rows, arrivals, Normal)
  }

  predicate Awaits(rows: seq<Thread>, x: int, resource: int) {
    0 <= x < |rows| && rows[x].sleepsOn == resource
  }

  /** The threads of `xs` that wait for `resource`, in order. */
  function OnResource(rows: seq<Thread>, xs: seq<int>, resource: int): seq<int> {
    if xs == [] then []
    else
      var x := xs[|xs| - 1];
      OnResource(rows, xs[..|xs| - 1], resource) + (if Awaits(rows, x, resource) then [x] else [])
  }

  /** The abstract sleep queue: who waits for `resource`, longest waiter first. */
  function Queue(k: Table, resource: int): seq<int> {
    if Bucket(resource) < |k.chains| then OnResource(k.rows, k.chains[Bucket(resource)], resource) else []
  }

  // ----- the invariant -----

  predicate Shape(k: Table) {
    |k.rows| == MAX_THREADS && |k.heads| == BUCKETS && |k.chains| == BUCKETS && 0 <= k.current < MAX_THREADS
  }

  ghost predicate ReadyOk(k: Table) {
    var order := ReadyOrder(k.rows, k.arrivals);
    && Distinct(k.arrivals)
    && (forall x | x in k.arrivals :: 0 < x < |k.rows|)
    && Linked(Links(k.rows), k.readyHead, order)
    && k.readyTail == Last(order)
  }

  /** Everything on chain `h` sleeps on a resource that hashes to `h`. */
  ghost predicate ChainOk(k: Table, h: int)
    requires Shape(k) && 0 <= h < BUCKETS
  {
    && Linked(Links(k.rows), k.heads[h], k.chains[h])
    && (forall x | x in k.chains[h] :: 0 < x < MAX_THREADS && k.rows[x].sleepsOn != 0 && Bucket(k.rows[x].sleepsOn) == h)
  }

  ghost predicate ChainsOk(k: Table)
    requires Shape(k)
  {
    forall h | 0 <= h < BUCKETS :: ChainOk(k, h)
  }

  function Times(rows: seq<Thread>): seq<int> {
    seq(|rows|, i requires 0 <= i < |rows| => rows[i].wakeupTime)
  }

  /** `xs` is ordered by the times of its threads. */
  ghost predicate WakeOrder(times: seq<int>, xs: seq<int>) {
    && (forall i | 0 <= i < |xs| :: 0 <= xs[i] < |times|)
    && (forall i, j | 0 <= i < j < |xs| :: times[xs[i]] <= times[xs[j]])
  }

  ghost predicate SleepersOk(k: Table) {
    && Linked(SleeperLinks(k.rows), k.sleeperHead, k.sleepers)
    && WakeOrder(Times(k.rows), k.sleepers)
    && (forall x | x in k.sleepers :: k.rows[x].wakeupTime != 0)
  }

  /** The state of a row says where the thread is, and it is there and nowhere else. */
  predicate Placed(k: Table, t: int)
    requires Shape(k) && 0 < t < MAX_THREADS
  {
    var row := k.rows[t];
    && (row.state == Ready <==> t in k.arrivals)
    && (row.sleepsOn != 0 ==> t in k.chains[Bucket(row.sleepsOn)])
    && (row.wakeupTime != 0 ==> t in k.sleepers)
    && (row.sleepsOn != 0 || row.wakeupTime != 0 ==> row.state == Sleeping || row.state == Running)
    && (row.sleepsOn == 0 || row.wakeupTime == 0)
    && (row.state == Sleeping ==> row.sleepsOn != 0 || row.wakeupTime != 0)
    && (row.state == Running || row.state == Dying <==> t == k.current)
  }

  predicate IdleOk(k: Table)
    requires Shape(k)
  {
    var row := k.rows[IDLE];
    row.sleepsOn == 0 && row.wakeupTime == 0 && (row.state == Ready || row.state == Running)
  }

  /** `limbo` is a thread in the middle of a move between lists, or -1. */
  ghost predicate InvBut(k: Table, limbo: int) {
    && Shape(k)
    && ReadyOk(k)
    && ChainsOk(k)
    && SleepersOk(k)
    && IdleOk(k)
    && (forall t | 0 < t < MAX_THREADS && t != limbo :: Placed(k, t))
    && (0 < limbo < MAX_THREADS ==> k.rows[limbo].sleepsOn == 0 && k.rows[limbo].wakeupTime == 0)
  }

  ghost predicate Inv(k: Table) { InvBut(k, -1) }

  lemma InvShape(k: Table)
    requires Inv(k)
    ensures Shape(k) && Distinct(k.sleepers)
  {
  }

  // ----- filters under updates -----

  lemma {:induction false} OfPriorityMembers(rows: seq<Thread>, xs: seq<int>, p: Priority)
    ensures forall x :: x in OfPriority(rows, xs, p) <==> x in xs && HasPriority(rows, x, p)
  {
    if xs != [] {
      OfPriorityMembers(rows, xs[..|xs| - 1], p);
      assert xs == xs[..|xs| - 1] + [xs[|xs| - 1]];
    }
  }

  lemma ReadyOrderMembers(rows: seq<Thread>, xs: seq<int>)
    requires forall x | x in xs :: 0 <= x < |rows|
    ensures forall x :: x in ReadyOrder(rows, xs) <==> x in xs
  {
    OfPriorityMembers(rows, xs, High);
    OfPriorityMembers(rows, xs, Normal);
    forall x | x in xs ensures x in ReadyOrder(rows, xs) {
      assert HasPriority(rows, x, High) || HasPriority(rows, x, Normal);
    }
  }

  lemma {:induction false} OfPriorityFrame(rows: seq<Thread>, other: seq<Thread>, xs: seq<int>, p: Priority)
    requires |rows| == |other|
    requires forall x | x in xs && 0 <= x < |rows| :: rows[x].priority == other[x].priority
    ensures OfPriority(rows, xs, p) == OfPriority(other, xs, p)
  {
    if xs != [] {
      assert xs[|xs| - 1] in xs;
      OfPriorityFrame(rows, other, xs[..|xs| - 1], p);
    }
  }

  lemma ReadyOrderFrame(rows: seq<Thread>, other: seq<Thread>, xs: seq<int>)
    requires |rows| == |other|
    requires forall x | x in xs && 0 <= x < |rows| :: rows[x].priority == other[x].priority
    ensures ReadyOrder(rows, xs) == ReadyOrder(other, xs)
  {
    OfPriorityFrame(rows, other, xs, High);
    OfPriorityFrame(rows, other, xs, Normal);
  }

  lemma {:induction false} OnResourceFrame(rows: seq<Thread>, other: seq<Thread>, xs: seq<int>, resource: int)
    requires |rows| == |other|
    requires forall x | x in xs && 0 <= x < |rows| :: rows[x].sleepsOn == other[x].sleepsOn
    ensures OnResource(rows, xs, resource) == OnResource(other, xs, resource)
  {
    if xs != [] {
      assert xs[|xs| - 1] in xs;
      OnResourceFrame(rows, other, xs[..|xs| - 1], resource);
    }
  }

  /** Arriving: a high-priority thread goes behind the last high one, any other to the end. */
  lemma ReadyOrderOfArrival(rows: seq<Thread>, xs: seq<int>, t: int)
    requires 0 <= t < |rows|
    ensures ReadyOrder(rows, xs + [t])
            == var highs := |OfPriority(rows, xs, High)|;
               InsertAt(ReadyOrder(rows, xs), if rows[t].priority == High then highs else |ReadyOrder(rows, xs)|, t)
  {
    assert (xs + [t])[..|xs|] == xs;
  }

  lemma {:induction false} OfPriorityWithout(rows: seq<Thread>, xs: seq<int>, x: int, p: Priority)
    ensures OfPriority(rows, Without(xs, x), p) == Without(OfPriority(rows, xs, p), x)
  {
    if xs != [] {
      var init, y := xs[..|xs| - 1], xs[|xs| - 1];
      OfPriorityWithout(rows, init, x, p);
      WithoutConcat(OfPriority(rows, init, p), if HasPriority(rows, y, p) then [y] else [], x);
      if y == x {
        assert Without(xs, x) == Without(init, x);
        assert Without([y], x) == [];
      } else {
        assert Without([y], x) == [y];
        assert (Without(init, x) + [y])[..|Without(init, x)|] == Without(init, x);
      }
    }
  }

  /** Taking out the first thread of the order leaves the rest of the order. */
  lemma ReadyOrderOfRemoval(rows: seq<Thread>, xs: seq<int>)
    requires ReadyOrder(rows, xs) != [] && Distinct(ReadyOrder(rows, xs))
    ensures ReadyOrder(rows, Without(xs, ReadyOrder(rows, xs)[0])) == ReadyOrder(rows, xs)[1..]
  {
    var order := ReadyOrder(rows, xs);
    var x := order[0];
    OfPriorityWithout(rows, xs, x, High);
    OfPriorityWithout(rows, xs, x, Normal);
    WithoutConcat(OfPriority(rows, xs, High), OfPriority(rows, xs, Normal), x);
    WithoutIsRemoveAt(order, 0);
  }
}
