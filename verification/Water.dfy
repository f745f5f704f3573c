/** The water-molecule test (`kernel_tests/make_water.c`): any numbers of hydrogen and oxygen threads on
    three semaphores, under every schedule. `waterCreated++` is a load and a store. */
module Water {
  import opened Sequences
  import opened Semaphores

  /** Where an atom's thread is. After a P the thread has passed the line; while it is still on the queue
      of that semaphore it sleeps there. */
  datatype Atom =
    | HStart              // V(hydrogensReady) next
    | HReady              // P(hydrogensWaiting) next
    | HDone
    | OStart              // P(omutex) next
    | OFirst              // P(hydrogensReady) next
    | OSecond             // P(hydrogensReady) next
    | OPaired             // V(omutex) next
    | OLoad               // reads waterCreated next
    | OStore(seen: int)   // writes waterCreated next
    | OFree               // V(hydrogensWaiting) next
    | OFreeAgain          // V(hydrogensWaiting) next
    | ODone

  datatype State = State(atoms: seq<Atom>, ready: Sem, waiting: Sem, omutex: Sem, waterCreated: int)

  function Start(nH: nat, nO: nat): State {
    State(seq(nH + nO, i => if i < nH then HStart else OStart), Sem(0, []), Sem(0, []), Sem(1, []), 0)
  }

  predicate Sleeps(s: State, t: int) { t in s.ready.queue || t in s.waiting.queue || t in s.omutex.queue }

  predicate Enabled(s: State, t: int) {
    0 <= t < |s.atoms| && !Sleeps(s, t) && s.atoms[t] != HDone && s.atoms[t] != ODone
  }

  predicate Stuck(s: State) { forall t | 0 <= t < |s.atoms| :: !Enabled(s, t) }

  function Next(a: Atom, waterCreated: int): Atom {
    match a
    case HStart => HReady
    case HReady => HDone
    case OStart => OFirst
    case OFirst => OSecond
    case OSecond => OPaired
    case OPaired => OLoad
    case OLoad => OStore(waterCreated)
    case OStore(_) => OFree
    case OFree => OFreeAgain
    case OFreeAgain => ODone
    case _ => a
  }

  function Step(s: State, t: int): State
    requires Enabled(s, t)
  {
    var moved := s.(atoms := s.atoms[t := Next(s.atoms[t], s.waterCreated)]);
    match s.atoms[t]
    case HStart => moved.(ready := V(s.ready))
    case HReady => moved.(waiting := P(s.waiting, t))
    case OStart => moved.(omutex := P(s.omutex, t))
    case OFirst => moved.(ready := P(s.ready, t))
    case OSecond => moved.(ready := P(s.ready, t))
    case OPaired => moved.(omutex := V(s.omutex))
    case OLoad => moved
    case OStore(seen) => moved.(waterCreated := seen + 1)
    case _ => moved.(waiting := V(s.waiting))
  }

  // ----- sums over the threads -----

  datatype Tally = ReadyNet | WaitingNet | MutexNet | Stores | Left | Hydrogens | Oxygens | AtMutex | AtReady

  /** What one thread contributes: Vs made minus Ps started on each semaphore, stores made, steps left,
      and which kind or line it is at. */
  function Weight(tally: Tally, a: Atom): int {
    match tally
    case ReadyNet => if a.HReady? || a.HDone? then 1 else if a.HStart? || a.OStart? || a.OFirst? then 0 else if a.OSecond? then -1 else -2
    case WaitingNet => if a.HDone? then -1 else if a.OFreeAgain? then 1 else if a.ODone? then 2 else 0
    case MutexNet => if a.OFirst? || a.OSecond? || a.OPaired? then -1 else 0
    case Stores => if a.OFree? || a.OFreeAgain? || a.ODone? then 1 else 0
    case Hydrogens => if a.HStart? || a.HReady? || a.HDone? then 1 else 0
    case Oxygens => if a.HStart? || a.HReady? || a.HDone? then 0 else 1
    case AtMutex => if a.OFirst? then 1 else 0
    case AtReady => if a.OSecond? || a.OPaired? then 1 else 0
    case Left =>
      match a
      case HStart => 2 case HReady => 1 case HDone => 0
      case OStart => 8 case OFirst => 7 case OSecond => 6 case OPaired => 5 case OLoad => 4
      case OStore(_) => 3 case OFree => 2 case OFreeAgain => 1 case ODone => 0
  }

  function Sum(tally: Tally, atoms: seq<Atom>): int {
    if atoms == [] then 0 else Weight(tally, atoms[0]) + Sum(tally, atoms[1..])
  }

  lemma {:induction false} SumUpdate(tally: Tally, atoms: seq<Atom>, t: nat, a: Atom)
    requires t < |atoms|
    ensures Sum(tally, atoms[t := a]) == Sum(tally, atoms) - Weight(tally, atoms[t]) + Weight(tally, a)
  {
    hide Weight;
    if t > 0 {
      SumUpdate(tally, atoms[1..], t - 1, a);
      assert atoms[t := a][1..] == atoms[1..][t - 1 := a];
    } else {
      assert atoms[t := a][1..] == atoms[1..];
    }
  }

  // ----- the invariant -----

  /** The semaphore law, with every sleeper on the queue once. */
  predicate SemOk(s: Sem) { |s.queue| == Max(0, -s.value) && Distinct(s.queue) }

  lemma POk(s: Sem, t: int)
    requires SemOk(s) && t !in s.queue
    ensures SemOk(P(s, t))
  {
  }

  lemma VOk(s: Sem)
    requires SemOk(s)
    ensures SemOk(V(s))
  {
  }

  /** Values are what has been put in and taken out. */
  ghost predicate Values(s: State) {
    && s.ready.value == Sum(ReadyNet, s.atoms)
    && s.waiting.value == Sum(WaitingNet, s.atoms)
    && s.omutex.value == 1 + Sum(MutexNet, s.atoms)
    && SemOk(s.ready) && SemOk(s.waiting) && SemOk(s.omutex)
  }

  /** Who sleeps where. */
  ghost predicate Queues(s: State) {
    && (forall t | t in s.ready.queue :: 0 <= t < |s.atoms| && (s.atoms[t] == OSecond || s.atoms[t] == OPaired))
    && (forall t | t in s.waiting.queue :: 0 <= t < |s.atoms| && s.atoms[t] == HDone)
    && (forall t | t in s.omutex.queue :: 0 <= t < |s.atoms| && s.atoms[t] == OFirst)
  }

  /** The counter never runs ahead of the stores, and the first store is never undone. */
  ghost predicate Counter(s: State) {
    && 0 <= s.waterCreated <= Sum(Stores, s.atoms) && (Sum(Stores, s.atoms) > 0 ==> s.waterCreated > 0)
    && forall t | 0 <= t < |s.atoms| && s.atoms[t].OStore? :: 0 <= s.atoms[t].seen <= Sum(Stores, s.atoms)
  }

  ghost predicate Inv(s: State) { Values(s) && Queues(s) && Counter(s) }

  lemma ValuesStep(s: State, t: int)
    requires Values(s) && Enabled(s, t)
    ensures Values(Step(s, t))
  {
    hide Sum, SemOk, P, V, Weight;
    var a := Next(s.atoms[t], s.waterCreated);
    SumUpdate(ReadyNet, s.atoms, t, a);
    SumUpdate(WaitingNet, s.atoms, t, a);
    SumUpdate(MutexNet, s.atoms, t, a);
    StepWeights(s.atoms[t], s.waterCreated);
    SemSteps(s, t);
  }

  lemma StepWeights(a: Atom, w: int)
    ensures Weight(ReadyNet, Next(a, w)) - Weight(ReadyNet, a) == if a.HStart? then 1 else if a.OFirst? || a.OSecond? then -1 else 0
    ensures Weight(WaitingNet, Next(a, w)) - Weight(WaitingNet, a) == if a.OFree? || a.OFreeAgain? then 1 else if a.HReady? then -1 else 0
    ensures Weight(MutexNet, Next(a, w)) - Weight(MutexNet, a) == if a.OPaired? then 1 else if a.OStart? then -1 else 0
    ensures Weight(Stores, Next(a, w)) - Weight(Stores, a) == if a.OStore? then 1 else 0
    ensures Weight(Left, Next(a, w)) - Weight(Left, a) == if a.HDone? || a.ODone? then 0 else -1
    ensures Weight(Hydrogens, Next(a, w)) == Weight(Hydrogens, a) && Weight(Oxygens, Next(a, w)) == Weight(Oxygens, a)
  {
  }

  lemma SemSteps(s: State, t: int)
    requires SemOk(s.ready) && SemOk(s.waiting) && SemOk(s.omutex) && Enabled(s, t)
    ensures SemOk(P(s.ready, t)) && SemOk(P(s.waiting, t)) && SemOk(P(s.omutex, t))
    ensures SemOk(V(s.ready)) && SemOk(V(s.waiting)) && SemOk(V(s.omutex))
    ensures P(s.ready, t).value == s.ready.value - 1 && P(s.waiting, t).value == s.waiting.value - 1 && P(s.omutex, t).value == s.omutex.value - 1
    ensures V(s.ready).value == s.ready.value + 1 && V(s.waiting).value == s.waiting.value + 1 && V(s.omutex).value == s.omutex.value + 1
  {
    hide SemOk;
    POk(s.ready, t); POk(s.waiting, t); POk(s.omutex, t);
    VOk(s.ready); VOk(s.waiting); VOk(s.omutex);
  }

  lemma QueuesStep(s: State, t: int)
    requires Queues(s) && Enabled(s, t)
    ensures Queues(Step(s, t))
  {
    hide P, V;
    Sleepers(s.ready, t);
    Sleepers(s.waiting, t);
    Sleepers(s.omutex, t);
  }

  lemma Sleepers(s: Sem, t: int)
    ensures forall u | u in V(s).queue :: u in s.queue
    ensures forall u | u in P(s, t).queue :: u in s.queue || u == t
  {
  }

  lemma CounterStep(s: State, t: int)
    requires Counter(s) && Enabled(s, t)
    ensures Counter(Step(s, t))
  {
    hide Sum, P, V, Weight;
    SumUpdate(Stores, s.atoms, t, Next(s.atoms[t], s.waterCreated));
    StepWeights(s.atoms[t], s.waterCreated);
  }

  lemma StepKeeps(s: State, t: int)
    requires Inv(s) && Enabled(s, t)
    ensures Inv(Step(s, t))
  {
    hide Values, Queues, Counter;
    ValuesStep(s, t);
    QueuesStep(s, t);
    CounterStep(s, t);
  }

  // ----- runs -----

  /** `schedule` leads from `s` to `last`. */
  ghost predicate Run(s: State, schedule: seq<int>, last: State)
    decreases |schedule|
  {
    if schedule == [] then s == last
    else Enabled(s, schedule[0]) && Run(Step(s, schedule[0]), schedule[1..], last)
  }

  lemma {:induction false} RunKeeps(s: State, schedule: seq<int>, last: State)
    requires Inv(s) && Run(s, schedule, last)
    ensures Inv(last) && |last.atoms| == |s.atoms|
    ensures Sum(Hydrogens, last.atoms) == Sum(Hydrogens, s.atoms) && Sum(Oxygens, last.atoms) == Sum(Oxygens, s.atoms)
    decreases |schedule|
  {
    hide Inv, Enabled, Sum, Weight;
    if schedule != [] {
      StepKeeps(s, schedule[0]);
      SameAtoms(s, schedule[0]);
      RunKeeps(Step(s, schedule[0]), schedule[1..], last);
    }
  }

  lemma SameAtoms(s: State, t: int)
    requires Enabled(s, t)
    ensures |Step(s, t).atoms| == |s.atoms|
    ensures Sum(Hydrogens, Step(s, t).atoms) == Sum(Hydrogens, s.atoms) && Sum(Oxygens, Step(s, t).atoms) == Sum(Oxygens, s.atoms)
    ensures Sum(Left, Step(s, t).atoms) == Sum(Left, s.atoms) - 1
  {
    hide Sum, Weight, P, V;
    var a := Next(s.atoms[t], s.waterCreated);
    StepWeights(s.atoms[t], s.waterCreated);
    SumUpdate(Hydrogens, s.atoms, t, a);
    SumUpdate(Oxygens, s.atoms, t, a);
    SumUpdate(Left, s.atoms, t, a);
  }

  lemma {:induction false} SumOfMany(tally: Tally, atoms: seq<Atom>, a: Atom)
    requires forall i | 0 <= i < |atoms| :: atoms[i] == a
    ensures Sum(tally, atoms) == |atoms| * Weight(tally, a)
  {
    hide Weight;
    if atoms != [] { SumOfMany(tally, atoms[1..], a); }
  }

  lemma {:induction false} SumConcat(tally: Tally, a: seq<Atom>, b: seq<Atom>)
    ensures Sum(tally, a + b) == Sum(tally, a) + Sum(tally, b)
  {
    hide Weight;
    if a == [] {
      assert a + b == b;
    } else {
      SumConcat(tally, a[1..], b);
      assert (a + b)[1..] == a[1..] + b;
    }
  }

  lemma StartSum(nH: nat, nO: nat, tally: Tally)
    ensures Sum(tally, Start(nH, nO).atoms) == nH * Weight(tally, HStart) + nO * Weight(tally, OStart)
  {
    hide Weight, Sum;
    var hs, os := seq(nH, _ => HStart), seq(nO, _ => OStart);
    assert Start(nH, nO).atoms == hs + os;
    SumConcat(tally, hs, os);
    SumOfMany(tally, hs, HStart);
    SumOfMany(tally, os, OStart);
  }

  lemma StartInv(nH: nat, nO: nat)
    ensures Inv(Start(nH, nO))
    ensures Sum(Hydrogens, Start(nH, nO).atoms) == nH && Sum(Oxygens, Start(nH, nO).atoms) == nO
  {
    hide Sum;
    StartSum(nH, nO, ReadyNet);
    StartSum(nH, nO, WaitingNet);
    StartSum(nH, nO, MutexNet);
    StartSum(nH, nO, Stores);
    StartSum(nH, nO, Hydrogens);
    StartSum(nH, nO, Oxygens);
  }

  // ----- stuck states -----

  /** How many of the first `n` threads are on the queue. */
  function OnQueue(q: seq<int>, n: nat): nat {
    if n == 0 then 0 else OnQueue(q, n - 1) + if n - 1 in q then 1 else 0
  }

  lemma {:induction false} OnQueueAll(q: seq<int>, n: nat)
    requires Distinct(q) && forall t | t in q :: 0 <= t < n
    ensures OnQueue(q, n) == |q|
    decreases |q|
  {
    if q == [] {
      OnQueueNone(n);
    } else {
      var rest := q[1..];
      RestOfDistinct(q);
      assert q == [q[0]] + rest && q[0] in q;
      forall t | t in rest ensures 0 <= t < n { assert t in q; }
      OnQueueAll(rest, n);
      OnQueueMore(q[0], rest, n);
    }
  }

  lemma {:induction false} OnQueueNone(n: nat)
    ensures OnQueue([], n) == 0
  {
    if n > 0 { OnQueueNone(n - 1); }
  }

  lemma {:induction false} OnQueueMore(t: int, q: seq<int>, n: nat)
    requires t !in q
    ensures OnQueue([t] + q, n) == OnQueue(q, n) + if 0 <= t < n then 1 else 0
  {
    if n > 0 { OnQueueMore(t, q, n - 1); }
  }

  /** A queue that holds exactly the threads at certain lines is as long as there are such threads. */
  lemma {:induction false} SumIsOnQueue(tally: Tally, atoms: seq<Atom>, q: seq<int>, n: nat)
    requires n <= |atoms|
    requires forall t | 0 <= t < n :: Weight(tally, atoms[t]) == if t in q then 1 else 0
    ensures Sum(tally, atoms[..n]) == OnQueue(q, n)
  {
    hide Weight;
    if n > 0 {
      SumIsOnQueue(tally, atoms, q, n - 1);
      SumConcat(tally, atoms[..n - 1], [atoms[n - 1]]);
      assert atoms[..n] == atoms[..n - 1] + [atoms[n - 1]];
      SumOfMany(tally, [atoms[n - 1]], atoms[n - 1]);
    }
  }

  predicate AtRest(a: Atom) { a.HDone? || a.ODone? || a.OFirst? || a.OSecond? || a.OPaired? }

  /** In a stuck state every thread has finished or sleeps where its line says. */
  lemma StuckPlaces(s: State, t: int)
    requires Queues(s) && Stuck(s) && 0 <= t < |s.atoms|
    ensures AtRest(s.atoms[t])
    ensures Weight(AtMutex, s.atoms[t]) == if t in s.omutex.queue then 1 else 0
    ensures Weight(AtReady, s.atoms[t]) == if t in s.ready.queue then 1 else 0
  {
    assert !Enabled(s, t);
  }

  lemma {:induction false} RestSums(atoms: seq<Atom>)
    requires forall t | 0 <= t < |atoms| :: AtRest(atoms[t])
    ensures Sum(MutexNet, atoms) == -Sum(AtMutex, atoms) - Sum(AtReady, atoms)
    ensures Sum(WaitingNet, atoms) == 2 * Sum(Stores, atoms) - Sum(Hydrogens, atoms)
    ensures Sum(Oxygens, atoms) == Sum(Stores, atoms) + Sum(AtMutex, atoms) + Sum(AtReady, atoms)
    ensures Sum(Hydrogens, atoms) - 2 * Sum(Stores, atoms) - 2 * Sum(AtReady, atoms) <= Sum(ReadyNet, atoms)
            <= Sum(Hydrogens, atoms) - 2 * Sum(Stores, atoms) - Sum(AtReady, atoms)
  {
    if atoms != [] { RestSums(atoms[1..]); }
  }

  function Min(a: int, b: int): int { if a < b then a else b }

  /** Hydrogens that have come back from their P, among the first `n` threads. */
  function Returned(s: State, n: nat): nat
    requires n <= |s.atoms|
  {
    if n == 0 then 0 else Returned(s, n - 1) + if s.atoms[n - 1] == HDone && n - 1 !in s.waiting.queue then 1 else 0
  }

  lemma {:induction false} ReturnedIs(s: State, n: nat)
    requires n <= |s.atoms| && Queues(s) && forall t | 0 <= t < n :: AtRest(s.atoms[t])
    ensures Returned(s, n) == Sum(Hydrogens, s.atoms[..n]) - OnQueue(s.waiting.queue, n)
  {
    hide Queues;
    if n > 0 {
      ReturnedIs(s, n - 1);
      SumConcat(Hydrogens, s.atoms[..n - 1], [s.atoms[n - 1]]);
      assert s.atoms[..n] == s.atoms[..n - 1] + [s.atoms[n - 1]];
      WaitersAreDone(s, n - 1);
      SumOfMany(Hydrogens, [s.atoms[n - 1]], s.atoms[n - 1]);
    }
  }

  lemma WaitersAreDone(s: State, t: int)
    requires Queues(s)
    ensures t in s.waiting.queue ==> 0 <= t < |s.atoms| && s.atoms[t] == HDone
  {
  }

  lemma QueueCounts(s: State)
    requires Inv(s) && Stuck(s)
    ensures forall t | 0 <= t < |s.atoms| :: AtRest(s.atoms[t])
    ensures Sum(AtMutex, s.atoms) == |s.omutex.queue| && Sum(AtReady, s.atoms) == |s.ready.queue|
    ensures Returned(s, |s.atoms|) == Sum(Hydrogens, s.atoms) - |s.waiting.queue|
  {
    hide Sum, Weight, AtRest, Enabled, Counter;
    var n := |s.atoms|;
    forall t | 0 <= t < n
      ensures AtRest(s.atoms[t]) && Weight(AtMutex, s.atoms[t]) == (if t in s.omutex.queue then 1 else 0)
              && Weight(AtReady, s.atoms[t]) == if t in s.ready.queue then 1 else 0 {
      StuckPlaces(s, t);
    }
    SumIsOnQueue(AtMutex, s.atoms, s.omutex.queue, n);
    SumIsOnQueue(AtReady, s.atoms, s.ready.queue, n);
    ReturnedIs(s, n);
    OnQueueAll(s.omutex.queue, n);
    OnQueueAll(s.ready.queue, n);
    OnQueueAll(s.waiting.queue, n);
    assert s.atoms[..n] == s.atoms;
  }

  /** Every stuck state, whatever the schedule: as many molecules as the atoms allow have been completed,
      and exactly two hydrogens have come back for each. */
  lemma MoleculesAreMaximal(nH: nat, nO: nat, schedule: seq<int>, last: State)
    requires Run(Start(nH, nO), schedule, last) && Stuck(last)
    ensures Sum(Stores, last.atoms) == Min(nO, nH / 2)
    ensures Returned(last, |last.atoms|) == 2 * Min(nO, nH / 2)
  {
    hide Inv, Run, Start, Sum, Stuck, Returned;
    StartInv(nH, nO);
    RunKeeps(Start(nH, nO), schedule, last);
    QueueCounts(last);
    RestSums(last.atoms);
    InvValues(last);
  }

  lemma InvValues(s: State)
    requires Inv(s)
    ensures s.ready.value == Sum(ReadyNet, s.atoms) && |s.ready.queue| == Max(0, -s.ready.value)
    ensures s.waiting.value == Sum(WaitingNet, s.atoms) && |s.waiting.queue| == Max(0, -s.waiting.value)
    ensures s.omutex.value == 1 + Sum(MutexNet, s.atoms) && |s.omutex.queue| == Max(0, -s.omutex.value)
    ensures 0 <= s.waterCreated <= Sum(Stores, s.atoms) && (Sum(Stores, s.atoms) > 0 ==> s.waterCreated > 0)
  {
  }

  // ----- the counter -----

  lemma {:induction false} RunConcat(s: State, a: seq<int>, mid: State, b: seq<int>, last: State)
    requires Run(s, a, mid) && Run(mid, b, last)
    ensures Run(s, a + b, last)
    decreases |a|
  {
    if a == [] {
      assert a + b == b;
    } else {
      RunConcat(Step(s, a[0]), a[1..], mid, b, last);
      assert (a + b)[1..] == a[1..] + b;
    }
  }

  lemma RunOne(s: State, t: int)
    requires Enabled(s, t)
    ensures Run(s, [t], Step(s, t))
  {
    assert [t][1..] == [];
    assert Run(Step(s, t), [], Step(s, t));
  }

  /** From every state some schedule leads to a stuck one: every step uses one up. */
  lemma {:induction false} CanFinish(s: State) returns (schedule: seq<int>, last: State)
    ensures Run(s, schedule, last) && Stuck(last)
    decreases Sum(Left, s.atoms)
  {
    if Stuck(s) {
      return [], s;
    }
    var t :| 0 <= t < |s.atoms| && Enabled(s, t);
    SameAtoms(s, t);
    LeftIsNatural(s.atoms);
    var rest;
    rest, last := CanFinish(Step(s, t));
    RunOne(s, t);
    RunConcat(s, [t], Step(s, t), rest, last);
    schedule := [t] + rest;
  }

  lemma {:induction false} LeftIsNatural(atoms: seq<Atom>)
    ensures Sum(Left, atoms) >= 0
  {
    if atoms != [] { LeftIsNatural(atoms[1..]); }
  }

  /** An update has been lost and cannot come back. */
  ghost predicate Behind(s: State) {
    && s.waterCreated < Sum(Stores, s.atoms)
    && forall t | 0 <= t < |s.atoms| && s.atoms[t].OStore? :: s.atoms[t].seen < Sum(Stores, s.atoms)
  }

  lemma {:induction false} BehindForGood(s: State, schedule: seq<int>, last: State)
    requires Behind(s) && Run(s, schedule, last)
    ensures Behind(last)
    decreases |schedule|
  {
    hide Sum, P, V, Weight;
    if schedule != [] {
      var t := schedule[0];
      SumUpdate(Stores, s.atoms, t, Next(s.atoms[t], s.waterCreated));
      StepWeights(s.atoms[t], s.waterCreated);
      BehindForGood(Step(s, t), schedule[1..], last);
    }
  }

  /** The first `k` hydrogens have announced themselves. */
  function Announced(nH: nat, nO: nat, k: nat): State {
    State(seq(nH + nO, i => if i < k then HReady else if i < nH then HStart else OStart), Sem(k, []), Sem(0, []), Sem(1, []), 0)
  }

  lemma {:induction false} Announce(nH: nat, nO: nat, k: nat) returns (schedule: seq<int>)
    requires k <= nH
    ensures Run(Start(nH, nO), schedule, Announced(nH, nO, k))
  {
    if k == 0 {
      schedule := [];
      assert Announced(nH, nO, 0).atoms == Start(nH, nO).atoms;
    } else {
      var most := Announce(nH, nO, k - 1);
      var s := Announced(nH, nO, k - 1);
      assert Step(s, k - 1).atoms == Announced(nH, nO, k).atoms;
      RunOne(s, k - 1);
      RunConcat(Start(nH, nO), most, s, [k - 1], Announced(nH, nO, k));
      schedule := most + [k - 1];
    }
  }

  /** With nobody asleep and two hydrogens ready, an oxygen gets as far as reading the counter. */
  predicate Quiet(s: State, o: int) {
    && s.ready.queue == [] && s.waiting.queue == [] && s.omutex == Sem(1, []) && s.ready.value >= 2
    && 0 <= o < |s.atoms| && s.atoms[o] == OStart
  }

  function Rushed(s: State, o: int): State
    requires Quiet(s, o)
  {
    s.(atoms := s.atoms[o := OStore(s.waterCreated)], ready := Sem(s.ready.value - 2, []))
  }

  lemma Rush(s: State, o: int)
    requires Quiet(s, o)
    ensures Run(s, [o, o, o, o, o], Rushed(s, o))
  {
    var s1 := s.(atoms := s.atoms[o := OFirst], omutex := Sem(0, []));
    var s2 := s.(atoms := s.atoms[o := OSecond], omutex := Sem(0, []), ready := Sem(s.ready.value - 1, []));
    var s3 := s.(atoms := s.atoms[o := OPaired], omutex := Sem(0, []), ready := Sem(s.ready.value - 2, []));
    var s4 := s.(atoms := s.atoms[o := OLoad], ready := Sem(s.ready.value - 2, []));
    RunTwo(s, o, s1, s2);
    RunTwo(s2, o, s3, s4);
    RunOne(s4, o);
    assert Step(s4, o) == Rushed(s, o);
    RunConcat(s, [o, o], s2, [o, o], s4);
    RunConcat(s, [o, o] + [o, o], s4, [o], Rushed(s, o));
    assert [o, o] + [o, o] + [o] == [o, o, o, o, o];
  }

  lemma RunTwo(s: State, t: int, mid: State, last: State)
    requires Enabled(s, t) && Step(s, t) == mid && Enabled(mid, t) && Step(mid, t) == last
    ensures Run(s, [t, t], last)
  {
    RunOne(s, t);
    RunOne(mid, t);
    RunConcat(s, [t], mid, [t], last);
    assert [t] + [t] == [t, t];
  }

  /** Two oxygens read the counter before either writes it. */
  lemma LostUpdate(nH: nat, nO: nat) returns (schedule: seq<int>, last: State)
    requires nO >= 2 && nH >= 4
    ensures Run(Start(nH, nO), schedule, last) && Behind(last)
  {
    hide Run, Start, Behind, Sum;
    var a := Announce(nH, nO, 4);
    var s, o, p := Announced(nH, nO, 4), nH, nH + 1;
    Rush(s, o);
    var s1 := Rushed(s, o);
    Rush(s1, p);
    var s2 := Rushed(s1, p);
    RunOne(s2, o);
    var s3 := Step(s2, o);
    RunOne(s3, p);
    last := Step(s3, p);
    RunConcat(s, [o, o, o, o, o], s1, [p, p, p, p, p], s2);
    RunConcat(s, [o, o, o, o, o] + [p, p, p, p, p], s2, [o], s3);
    RunConcat(s, [o, o, o, o, o] + [p, p, p, p, p] + [o], s3, [p], last);
    RunConcat(Start(nH, nO), a, s, [o, o, o, o, o] + [p, p, p, p, p] + [o] + [p], last);
    schedule := a + ([o, o, o, o, o] + [p, p, p, p, p] + [o] + [p]);
    TwoStores(nH, nO, last);
  }

  lemma TwoStores(nH: nat, nO: nat, last: State)
    requires nO >= 2 && nH >= 4 && last.waterCreated == 1
    requires last.atoms == Announced(nH, nO, 4).atoms[nH := OFree][nH + 1 := OFree]
    ensures Behind(last)
  {
    var atoms := Announced(nH, nO, 4).atoms;
    NoStores(atoms);
    SumUpdate(Stores, atoms, nH, OFree);
    SumUpdate(Stores, atoms[nH := OFree], nH + 1, OFree);
  }

  lemma {:induction false} NoStores(atoms: seq<Atom>)
    requires forall t | 0 <= t < |atoms| :: atoms[t] in {HReady, HStart, OStart}
    ensures Sum(Stores, atoms) == 0
  {
    if atoms != [] { NoStores(atoms[1..]); }
  }

  /** The counter agrees with the number of molecules in every stuck state exactly when there can be at
      most one molecule: the increment is made outside the mutex. */
  lemma CounterRightIff(nH: nat, nO: nat)
    ensures (forall schedule, last | Run(Start(nH, nO), schedule, last) && Stuck(last) :: last.waterCreated == Min(nO, nH / 2))
            <==> Min(nO, nH / 2) <= 1
  {
    if Min(nO, nH / 2) <= 1 {
      forall schedule, last | Run(Start(nH, nO), schedule, last) && Stuck(last) ensures last.waterCreated == Min(nO, nH / 2) {
        MoleculesAreMaximal(nH, nO, schedule, last);
        StartInv(nH, nO);
        RunKeeps(Start(nH, nO), schedule, last);
        InvValues(last);
      }
    } else {
      var schedule, lost := LostUpdate(nH, nO);
      var more, last := CanFinish(lost);
      RunConcat(Start(nH, nO), schedule, lost, more, last);
      BehindForGood(lost, more, last);
      MoleculesAreMaximal(nH, nO, schedule + more, last);
      assert last.waterCreated != Min(nO, nH / 2);
    }
  }

  /** Every schedule comes to an end: a run has at most two steps per hydrogen and eight per oxygen. */
  lemma {:induction false} RunsAreBounded(nH: nat, nO: nat, schedule: seq<int>, last: State)
    requires Run(Start(nH, nO), schedule, last)
    ensures |schedule| <= 2 * nH + 8 * nO
  {
    hide Run, Start;
    StepsUsedUp(Start(nH, nO), schedule, last);
    LeftIsNatural(last.atoms);
    StartSum(nH, nO, Left);
  }

  lemma {:induction false} StepsUsedUp(s: State, schedule: seq<int>, last: State)
    requires Run(s, schedule, last)
    ensures |schedule| == Sum(Left, s.atoms) - Sum(Left, last.atoms)
    decreases |schedule|
  {
    hide Sum, Enabled;
    if schedule != [] {
      SameAtoms(s, schedule[0]);
      StepsUsedUp(Step(s, schedule[0]), schedule[1..], last);
    }
  }
}
