/** Counting semaphores (`kernel/semaphore.c`): their meaning as a value with a FIFO queue, the law that
    ties value and queue to the operations made so far, and the table of semaphores in the kernel. */
module Semaphores {
  import opened ThreadTable
  import opened ThreadSteps
  import opened SleepQueue
  import opened Scheduling
  import opened KernelRuns
  import opened Kernel

  /** A semaphore and the threads queued on it, longest waiting first. */
  datatype Sem = Sem(value: int, queue: seq<int>)

  /** `semaphore_P` by thread `t`: it goes on at once when the value was positive, else it queues. */
  function P(s: Sem, t: int): Sem {
    Sem(s.value - 1, if s.value - 1 < 0 then s.queue + [t] else s.queue)
  }

  /** `semaphore_V`. */
  function V(s: Sem): Sem {
    Sem(s.value + 1, if s.value + 1 <= 0 && s.queue != [] then s.queue[1..] else s.queue)
  }

  datatype Op = Down(thread: int) | Up

  function Run(initial: int, ops: seq<Op>): Sem {
    if ops == [] then Sem(initial, [])
    else
      var before := Run(initial, ops[..|ops| - 1]);
      match ops[|ops| - 1]
      case Down(t) => P(before, t)
      case Up => V(before)
  }

  function Downs(ops: seq<Op>): seq<int> {
    if ops == [] then []
    else Downs(ops[..|ops| - 1]) + (match ops[|ops| - 1] case Down(t) => [t] case Up => [])
  }

  function Ups(ops: seq<Op>): nat {
    if ops == [] then 0 else Ups(ops[..|ops| - 1]) + if ops[|ops| - 1] == Up then 1 else 0
  }

  function Max(a: int, b: int): int { if a < b then b else a }

  /** The semaphore law. In every history the value is the initial value plus the Vs minus the Ps
      started; the threads queued are the last -value ones to have started a P, in that order, so the
      i-th P to start returns only once at least i - initial Vs have been made. */
  lemma {:induction false} SemaphoreLaw(initial: int, ops: seq<Op>)
    requires initial >= 0
    ensures var s := Run(initial, ops);
            && s.value == initial + Ups(ops) - |Downs(ops)|
            && |s.queue| == Max(0, -s.value) <= |Downs(ops)|
            && s.queue == Downs(ops)[|Downs(ops)| - |s.queue|..]
  {
    if ops != [] {
      SemaphoreLaw(initial, ops[..|ops| - 1]);
    }
  }

  lemma RunSnoc(initial: int, ops: seq<Op>, op: Op)
    ensures Run(initial, ops + [op]) == match op case Down(t) => P(Run(initial, ops), t) case Up => V(Run(initial, ops))
  {
    assert (ops + [op])[..|ops|] == ops;
  }

  // ----- the table -----

  const SEMAPHORE_BYTES := 12
  const MAX_SEMAPHORES := 128

  ghost function SemAt(k: Table, base: int, values: seq<int>, i: nat): Sem
    requires Inv(k) && i < |values|
  {
    Sem(values[i], Queue(k, base + SEMAPHORE_BYTES * i))
  }

  lemma EnqueueIsP(k: Table, base: int, values: seq<int>, sem: nat, i: nat)
    requires Inv(k) && AwakeAndRunning(k) && base > 0 && sem < |values| && i < |values|
    ensures Inv(Enqueue(k, base + SEMAPHORE_BYTES * sem))
    ensures values[sem] - 1 < 0 ==>
              SemAt(Enqueue(k, base + SEMAPHORE_BYTES * sem), base, values[sem := values[sem] - 1], i)
              == if i == sem then P(SemAt(k, base, values, i), k.current) else SemAt(k, base, values, i)
  {
    hide InvBut, Queue, Enqueue;
    EnqueueKeeps(k, base + SEMAPHORE_BYTES * sem);
    EnqueueQueue(k, base + SEMAPHORE_BYTES * sem, base + SEMAPHORE_BYTES * i);
  }

  lemma WakeIsV(k: Table, base: int, values: seq<int>, sem: nat, i: nat)
    requires Inv(k) && base > 0 && sem < |values| && i < |values|
    ensures Inv(Wake(k, base + SEMAPHORE_BYTES * sem))
    ensures values[sem] + 1 <= 0 ==>
              SemAt(Wake(k, base + SEMAPHORE_BYTES * sem), base, values[sem := values[sem] + 1], i)
              == if i == sem then V(SemAt(k, base, values, i)) else SemAt(k, base, values, i)
  {
    hide InvBut, Queue, Wake;
    WakeKeeps(k, base + SEMAPHORE_BYTES * sem);
    WakeQueue(k, base + SEMAPHORE_BYTES * sem, base + SEMAPHORE_BYTES * i);
  }

  class SemaphoreTable {
    const kernel: ThreadSystem
    const base: int
    const creator: array<int>
    const value: array<int>
    var next: int

    /** For each entry in use, its initial value and the operations made on it since it was created. */
    ghost var initials: seq<int>
    ghost var history: seq<seq<Op>>

    /** The table and the kernel under it are in order. */
    ghost predicate Sound()
      reads this, creator, value, kernel, kernel.table, kernel.hashtable
    {
      && kernel.Valid() && base > 0 && creator.Length == value.Length > 0 && creator != value && 0 <= next < value.Length
      && kernel.hashtable != creator && kernel.hashtable != value && |initials| == |history| == value.Length
    }

    /** A semaphore in use is what its history makes of its initial value; nobody waits on a free entry. */
    ghost predicate Lawful(i: nat)
      requires Sound() && i < value.Length
      reads this, creator, value, kernel, kernel.table, kernel.hashtable
    {
      if creator[i] == -1 then View(i).queue == [] else initials[i] >= 0 && View(i) == Run(initials[i], history[i])
    }

    ghost predicate Valid()
      reads this, creator, value, kernel, kernel.table, kernel.hashtable
    {
      Sound() && forall i | 0 <= i < value.Length :: Lawful(i)
    }

    /** `semaphore_init`: every entry is free. */
    constructor (k: ThreadSystem, address: int)
      requires k.Valid() && address > 0
      requires forall i | 0 <= i < MAX_SEMAPHORES :: Queue(k.Snap(), address + SEMAPHORE_BYTES * i) == []
      ensures Valid() && kernel == k && base == address && value.Length == MAX_SEMAPHORES
      ensures fresh(creator) && fresh(value) && forall i | 0 <= i < creator.Length :: creator[i] == -1
    {
      hide InvBut, Queue;
      kernel, base, next := k, address, 0;
      creator := new int[MAX_SEMAPHORES](_ => -1);
      value := new int[MAX_SEMAPHORES](_ => 0);
      initials, history := seq(MAX_SEMAPHORES, _ => 0), seq(MAX_SEMAPHORES, _ => []);
    }

    /** The meaning of one entry. */
    ghost function View(sem: nat): Sem
      requires Sound() && sem < value.Length
      reads this, creator, value, kernel, kernel.table, kernel.hashtable
    {
      SemAt(kernel.Snap(), base, value[..], sem)
    }

    /** The search of `semaphore_create`: the first free entry in turn, or -1 when there is none. */
    method FindFree() returns (sem: int)
      requires 0 <= next < creator.Length
      modifies this`next
      ensures sem == -1 <==> forall i | 0 <= i < creator.Length :: creator[i] != -1
      ensures sem == -1 ==> next == old(next)
      ensures sem != -1 ==> 0 <= sem < creator.Length && creator[sem] == -1 && next == (sem + 1) % creator.Length
      ensures sem != -1 ==> forall i | 0 <= i < creator.Length
                              && Turn(old(next), i, creator.Length) < Turn(old(next), sem, creator.Length) :: creator[i] != -1
    {
      ghost var start := next;
      var i, n := 0, creator.Length;
      while i < n
        invariant 0 <= i <= n && next == (start + i) % n
        invariant forall u | 0 <= u < n && Turn(start, u, n) < i :: creator[u] != -1
      {
        TurnIs(start, i, n, next);
        sem := next;
        next := (next + 1) % n;
        if creator[sem] == -1 {
          return;
        }
        NextTurn(start, i, n);
        forall u | 0 <= u < n && Turn(start, u, n) < i + 1 ensures creator[u] != -1 {
          TurnIs(start, i, n, u);
        }
        i := i + 1;
      }
      sem := -1;
      Reduce(start + n, n);
      forall u | 0 <= u < n ensures creator[u] != -1 { TurnIs(start, 0, n, u); }
    }

    /** `semaphore_create` by thread `t`; -1 stands for the null pointer. Entries in use are left
        alone, and nobody waits on the new one. */
    method Create(initial: int, t: int) returns (sem: int)
      requires Valid() && initial >= 0 && t != -1
      modifies this`next, this`initials, this`history, creator, value
      ensures Valid() && kernel.Snap() == old(kernel.Snap())
      ensures sem == -1 <==> forall i | 0 <= i < creator.Length :: old(creator[i]) != -1
      ensures sem == -1 ==> next == old(next) && creator[..] == old(creator[..]) && value[..] == old(value[..])
      ensures sem != -1 ==>
                && 0 <= sem < creator.Length && old(creator[sem]) == -1 && next == (sem + 1) % creator.Length
                && creator[..] == old(creator[..])[sem := t] && value[..] == old(value[..])[sem := initial]
                && View(sem) == Sem(initial, []) && initials[sem] == initial && history[sem] == []
      ensures sem != -1 ==> forall i | 0 <= i < creator.Length
                              && Turn(old(next), i, creator.Length) < Turn(old(next), sem, creator.Length) :: old(creator[i]) != -1
    {
      hide InvBut, Turn, Queue;
      sem := FindFree();
      if sem != -1 {
        assert old(Lawful(sem));
        creator[sem] := t;
        value[sem] := initial;
        initials, history := initials[sem := initial], history[sem := []];
        forall i | 0 <= i < value.Length ensures Lawful(i) { assert old(Lawful(i)); }
      }
    }

    /** `semaphore_destroy`, which does not look whether anybody waits: the table stays in order exactly when
        nobody does. */
    method Destroy(sem: nat)
      requires Valid() && sem < value.Length && creator[sem] != -1
      modifies creator
      ensures Sound() && creator[..] == old(creator[..])[sem := -1] && View(sem) == old(View(sem))
      ensures Valid() <==> old(View(sem)).queue == []
    {
      hide InvBut, Queue;
      creator[sem] := -1;
      forall i | 0 <= i < value.Length && i != sem ensures Lawful(i) { assert old(Lawful(i)); }
      assert Lawful(sem) <==> View(sem).queue == [];
    }

    /** `semaphore_P` by the running thread, up to the point where it returns or gives up the
        processor. Only a P on a free entry that blocks puts the table out of order. */
    method Down(sem: nat)
      requires Valid() && sem < value.Length && AwakeAndRunning(kernel.Snap())
      modifies kernel`chains, kernel.table, kernel.hashtable, value, this`history
      ensures Sound() && kernel.current == old(kernel.current)
      ensures Valid() <==> creator[sem] != -1 || View(sem).queue == []
      ensures history == old(history)[sem := old(history)[sem] + [Op.Down(kernel.current)]]
      ensures forall i | 0 <= i < value.Length ::
                View(i) == if i == sem then P(old(View(i)), kernel.current) else old(View(i))
    {
      hide InvBut, Enqueue, Queue, Shape, AwakeAndRunning;
      ghost var k, values := kernel.Snap(), value[..];
      value[sem] := value[sem] - 1;
      assert value[..] == values[sem := values[sem] - 1];
      if value[sem] < 0 {
        kernel.SleepqAdd(base + SEMAPHORE_BYTES * sem);
        forall i | 0 <= i < value.Length
          ensures SemAt(kernel.Snap(), base, value[..], i)
                  == if i == sem then P(SemAt(k, base, values, i), k.current) else SemAt(k, base, values, i) {
          EnqueueIsP(k, base, values, sem, i);
        }
      }
      history := history[sem := history[sem] + [Op.Down(k.current)]];
      forall i | 0 <= i < value.Length && (i != sem || creator[i] != -1) ensures Lawful(i) {
        assert old(Lawful(i));
        if i == sem { RunSnoc(initials[i], old(history)[i], Op.Down(k.current)); }
      }
      assert creator[sem] == -1 ==> (Lawful(sem) <==> View(sem).queue == []);
    }

    /** `semaphore_V`. */
    method Up(sem: nat)
      requires Valid() && sem < value.Length
      modifies kernel`readyHead, kernel`readyTail, kernel`arrivals, kernel`chains, kernel.table, kernel.hashtable, value, this`history
      ensures Valid() && kernel.current == old(kernel.current)
      ensures history == old(history)[sem := old(history)[sem] + [Op.Up]]
      ensures forall i | 0 <= i < value.Length :: View(i) == if i == sem then V(old(View(i))) else old(View(i))
    {
      hide InvBut, Wake, Queue, Shape;
      ghost var k, values := kernel.Snap(), value[..];
      value[sem] := value[sem] + 1;
      assert value[..] == values[sem := values[sem] + 1];
      if value[sem] <= 0 {
        kernel.SleepqWake(base + SEMAPHORE_BYTES * sem);
        forall i | 0 <= i < value.Length
          ensures SemAt(kernel.Snap(), base, value[..], i)
                  == if i == sem then V(SemAt(k, base, values, i)) else SemAt(k, base, values, i) {
          WakeIsV(k, base, values, sem, i);
        }
      }
      history := history[sem := history[sem] + [Op.Up]];
      forall i | 0 <= i < value.Length ensures Lawful(i) {
        assert old(Lawful(i));
        if i == sem { RunSnoc(initials[i], old(history)[i], Op.Up); }
      }
    }

    /** A context switch leaves every semaphore as it was. */
    method Switch(now: int)
      requires Valid()
      modifies kernel`readyHead, kernel`readyTail, kernel`sleeperHead, kernel`current, kernel`arrivals, kernel`sleepers, kernel.table
      ensures Valid() && forall i | 0 <= i < value.Length :: View(i) == old(View(i))
    {
      hide InvBut, Queue, Schedule;
      forall i | 0 <= i < value.Length
        ensures Queue(Schedule(kernel.Snap(), now), base + SEMAPHORE_BYTES * i) == Queue(kernel.Snap(), base + SEMAPHORE_BYTES * i) {
        SwitchKeepsQueues(kernel.Snap(), now, base + SEMAPHORE_BYTES * i);
      }
      kernel.Reschedule(now);
      forall i | 0 <= i < value.Length ensures View(i) == old(View(i)) && Lawful(i) { assert old(Lawful(i)); }
    }
  }

  /** The semaphore law for every semaphore in use in the kernel: its value is the initial one plus the Vs minus the Ps
      started since, and exactly max(0, -value) threads sleep on it, the last to have started a P, in that order. */
  lemma LawInKernel(table: SemaphoreTable, sem: nat)
    requires table.Valid() && sem < table.value.Length && table.creator[sem] != -1
    ensures var s, ops := table.View(sem), table.history[sem];
            && s.value == table.initials[sem] + Ups(ops) - |Downs(ops)|
            && |s.queue| == Max(0, -s.value) <= |Downs(ops)|
            && s.queue == Downs(ops)[|Downs(ops)| - |s.queue|..]
  {
    hide InvBut, Queue, Run, Downs, Ups;
    assert table.Lawful(sem);
    SemaphoreLaw(table.initials[sem], table.history[sem]);
  }
}
