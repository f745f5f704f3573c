/** The readers/writer protocol that guards each open SFS file: any number of threads, each with any
    list of reads and writes to do, interleaved step by step on the lock and the condition variable of
    module `LockCond`. */
module ReadersWriter {
  import opened Sequences
  import L = LockCond

  datatype Kind = Read | Write

  /** Where a thread is. At `Idle`, `Reading` and `Writing` it needs no lock; everywhere else it is at
      that line holding the lock, or on its way to get the lock for that line. */
  datatype Pc =
    | Idle
    | ReadGuard     // while (writer_tid != -1) wait
    | ReadGo        // readernum has been raised, unlock next
    | Reading
    | ReadDone      // readernum--
    | ReadWake      // broadcast
    | ReadOut       // unlock
    | WriteGuard    // while (writer_tid != -1) wait
    | WriteDrain    // while (readernum > 0) wait
    | WriteGo       // unlock
    | Writing
    | WriteDone     // writer_tid = -1
    | WriteWake     // broadcast
    | WriteOut      // unlock

  datatype Thread = Thread(pc: Pc, jobs: seq<Kind>)

  datatype State = State(m: L.State, threads: seq<Thread>, readernum: int, writer: int)

  // ----- steps -----

  predicate Finished(th: Thread) { th.pc == Idle && th.jobs == [] }

  /** A thread can always go on unless it sleeps on one of the two queues or has nothing left to do. */
  predicate Enabled(s: State, t: int) {
    0 <= t < |s.threads| && t !in s.m.queue && t !in s.m.condQueue && !Finished(s.threads[t])
  }

  function At(s: State, t: int, pc: Pc): State
    requires 0 <= t < |s.threads|
  {
    s.(threads := s.threads[t := s.threads[t].(pc := pc)])
  }

  function Begin(s: State, t: int): State
    requires 0 <= t < |s.threads| && s.threads[t].jobs != []
  {
    var jobs := s.threads[t].jobs;
    s.(threads := s.threads[t := Thread(if jobs[0] == Read then ReadGuard else WriteGuard, jobs[1..])])
  }

  /** The step of a thread that holds the lock. */
  function Inside(s: State, t: int): (r: State)
    requires 0 <= t < |s.threads|
    ensures |r.threads| == |s.threads|
  {
    match s.threads[t].pc
    case ReadGuard => if s.writer != -1 then s.(m := L.AfterWait(s.m, t)) else At(s, t, ReadGo).(readernum := s.readernum + 1)
    case ReadGo => At(s, t, Reading).(m := L.AfterUnlock(s.m, t))
    case ReadDone => At(s, t, if s.readernum - 1 == 0 then ReadWake else ReadOut).(readernum := s.readernum - 1)
    case ReadWake => At(s, t, ReadOut).(m := L.AfterBroadcast(s.m))
    case ReadOut => At(s, t, Idle).(m := L.AfterUnlock(s.m, t))
    case WriteGuard => if s.writer != -1 then s.(m := L.AfterWait(s.m, t)) else At(s, t, WriteDrain).(writer := t)
    case WriteDrain => if s.readernum > 0 then s.(m := L.AfterWait(s.m, t)) else At(s, t, WriteGo)
    case WriteGo => At(s, t, Writing).(m := L.AfterUnlock(s.m, t))
    case WriteDone => At(s, t, WriteWake).(writer := -1)
    case WriteWake => At(s, t, WriteOut).(m := L.AfterBroadcast(s.m))
    case WriteOut => At(s, t, Idle).(m := L.AfterUnlock(s.m, t))
    case _ => s
  }

  function Step(s: State, t: int): (r: State)
    requires Enabled(s, t)
    ensures |r.threads| == |s.threads|
  {
    if t in s.m.handed then s.(m := L.AfterResume(s.m, t))
    else if t in s.m.signalled then s.(m := L.AfterAcquire(s.m, t))
    else match s.threads[t].pc
      case Idle => Begin(s, t).(m := L.AfterAcquire(s.m, t))
      case Reading => At(s, t, ReadDone).(m := L.AfterAcquire(s.m, t))
      case Writing => At(s, t, WriteDone).(m := L.AfterAcquire(s.m, t))
      case _ => Inside(s, t)
  }

  predicate Initial(s: State) {
    s.m == L.INITIAL && s.readernum == 0 && s.writer == -1 && forall t | 0 <= t < |s.threads| :: s.threads[t].pc == Idle
  }

  // ----- where a thread is with respect to the lock -----

  datatype Place = Holds | Queued | Handed | Waits | Signalled | Out

  function PlaceOf(m: L.State, t: int): Place {
    if m.lock.lockedId == t then Holds
    else if t in m.queue then Queued
    else if t in m.handed then Handed
    else if t in m.condQueue then Waits
    else if t in m.signalled then Signalled
    else Out
  }

  /** The lock is never nested here, and its holder is nowhere else. */
  ghost predicate MonitorOk(m: L.State) {
    && L.Inv(m)
    && (m.lock.lockedId >= 0 ==>
          m.lock.nested == 1 && m.lock.lockedId !in m.condQueue && m.lock.lockedId !in m.signalled)
  }

  lemma AcquireMoves(m: L.State, t: int)
    requires MonitorOk(m) && t >= 0 && PlaceOf(m, t) in {Out, Signalled}
    ensures MonitorOk(L.AfterAcquire(m, t))
    ensures PlaceOf(L.AfterAcquire(m, t), t) in {Holds, Queued}
    ensures forall u | u >= 0 && u != t :: PlaceOf(L.AfterAcquire(m, t), u) == PlaceOf(m, u)
    ensures m.lock.lockedId >= 0 ==> L.AfterAcquire(m, t).lock.lockedId == m.lock.lockedId
  {
    L.AcquireKeeps(m, t);
  }

  lemma ResumeMoves(m: L.State, t: int)
    requires MonitorOk(m) && t >= 0 && t in m.handed
    ensures MonitorOk(L.AfterResume(m, t)) && PlaceOf(L.AfterResume(m, t), t) == Holds
    ensures forall u | u >= 0 && u != t :: PlaceOf(L.AfterResume(m, t), u) == PlaceOf(m, u)
    ensures m.lock.lockedId == L.RESERVED
  {
    L.ResumeKeeps(m, t);
    assert m.handed == [t];
  }

  /** Letting go of the lock: whoever queued longest is handed it. */
  lemma UnlockMoves(m: L.State, t: int)
    requires MonitorOk(m) && t >= 0 && PlaceOf(m, t) == Holds
    ensures MonitorOk(L.AfterUnlock(m, t)) && PlaceOf(L.AfterUnlock(m, t), t) == Out
    ensures forall u | u >= 0 && u != t ::
              PlaceOf(L.AfterUnlock(m, t), u) == if m.queue != [] && u == m.queue[0] then Handed else PlaceOf(m, u)
    ensures L.AfterUnlock(m, t).lock.lockedId < 0
  {
    L.UnlockKeeps(m, t);
    if m.queue != [] { RestOfDistinct(m.queue); }
  }

  lemma WaitMoves(m: L.State, t: int)
    requires MonitorOk(m) && t >= 0 && PlaceOf(m, t) == Holds
    ensures MonitorOk(L.AfterWait(m, t)) && PlaceOf(L.AfterWait(m, t), t) == Waits
    ensures forall u | u >= 0 && u != t ::
              PlaceOf(L.AfterWait(m, t), u) == if m.queue != [] && u == m.queue[0] then Handed else PlaceOf(m, u)
    ensures L.AfterWait(m, t).lock.lockedId < 0
  {
    L.WaitKeeps(m, t);
    if m.queue != [] { RestOfDistinct(m.queue); }
  }

  lemma BroadcastMoves(m: L.State, t: int)
    requires MonitorOk(m) && t >= 0 && PlaceOf(m, t) == Holds
    ensures MonitorOk(L.AfterBroadcast(m)) && L.AfterBroadcast(m).lock == m.lock && L.AfterBroadcast(m).condQueue == []
    ensures forall u | u >= 0 ::
              PlaceOf(L.AfterBroadcast(m), u) == if PlaceOf(m, u) == Waits then Signalled else PlaceOf(m, u)
  {
    L.BroadcastKeeps(m);
  }

  // ----- the invariant -----

  /** From raising `readernum` to lowering it. */
  predicate Counts(pc: Pc) { pc in {ReadGo, Reading, ReadDone} }

  /** From claiming `writer_tid` to giving it up. */
  predicate Claims(pc: Pc) { pc in {WriteDrain, WriteGo, Writing, WriteDone} }

  function Readers(threads: seq<Thread>): nat {
    if threads == [] then 0 else Readers(threads[1..]) + if Counts(threads[0].pc) then 1 else 0
  }

  lemma {:induction false} ReadersUpdate(threads: seq<Thread>, t: nat, th: Thread)
    requires t < |threads|
    ensures Readers(threads[t := th])
            == Readers(threads) - (if Counts(threads[t].pc) then 1 else 0) + (if Counts(th.pc) then 1 else 0)
  {
    if t > 0 {
      ReadersUpdate(threads[1..], t - 1, th);
      assert threads[t := th][1..] == threads[1..][t - 1 := th];
    } else {
      assert threads[t := th][1..] == threads[1..];
    }
  }

  lemma {:induction false} SomeReader(threads: seq<Thread>) returns (t: nat)
    requires Readers(threads) > 0
    ensures t < |threads| && Counts(threads[t].pc)
  {
    if Counts(threads[0].pc) { return 0; }
    t := SomeReader(threads[1..]);
    t := t + 1;
  }

  function HolderPc(s: State): Pc {
    var h := s.m.lock.lockedId;
    if 0 <= h < |s.threads| then s.threads[h].pc else Idle
  }

  /** Which places go with which lines. */
  predicate PlaceFits(pc: Pc, place: Place) {
    match pc
    case Idle => place == Out
    case Reading => place == Out
    case Writing => place == Out
    case ReadGuard => place != Out
    case WriteGuard => place != Out
    case WriteDrain => place != Out
    case ReadDone => place in {Holds, Queued, Handed}
    case WriteDone => place in {Holds, Queued, Handed}
    case _ => place == Holds
  }

  /** The guard that a thread at this line sleeps behind is closed. */
  predicate GuardClosed(pc: Pc, readernum: int, writer: int) {
    if pc == WriteDrain then readernum > 0 else writer != -1
  }

  /** A thread sleeps on the condition only behind a closed guard, or while the lock's holder is just
      about to broadcast. */
  predicate SleepsRightly(pc: Pc, readernum: int, writer: int, holder: Pc) {
    GuardClosed(pc, readernum, writer) || holder == (if pc == WriteDrain then ReadWake else WriteWake)
  }

  predicate ThreadOk(t: int, pc: Pc, place: Place, readernum: int, writer: int, holder: Pc) {
    && PlaceFits(pc, place)
    && (Claims(pc) <==> writer == t)
    && (pc in {WriteGo, Writing, WriteDone} ==> readernum == 0)
    && (place == Waits ==> SleepsRightly(pc, readernum, writer, holder))
  }

  ghost predicate Inv(s: State) {
    && MonitorOk(s.m)
    && (forall u | u >= |s.threads| :: PlaceOf(s.m, u) == Out)
    && s.readernum == Readers(s.threads)
    && -1 <= s.writer < |s.threads|
    && forall t | 0 <= t < |s.threads| ::
         ThreadOk(t, s.threads[t].pc, PlaceOf(s.m, t), s.readernum, s.writer, HolderPc(s))
  }

  lemma {:induction false} NoReadersAtFirst(threads: seq<Thread>)
    requires forall t | 0 <= t < |threads| :: threads[t].pc == Idle
    ensures Readers(threads) == 0
  {
    if threads != [] { NoReadersAtFirst(threads[1..]); }
  }

  lemma InitialInv(s: State)
    requires Initial(s)
    ensures Inv(s)
  {
    NoReadersAtFirst(s.threads);
    L.InitialInv();
  }

  /** A thread that runs and is neither handed the lock nor just woken is at the line its place says. */
  lemma RunnerPlace(s: State, t: int)
    requires Inv(s) && Enabled(s, t) && t !in s.m.handed && t !in s.m.signalled
    ensures PlaceOf(s.m, t) == if s.threads[t].pc in {Idle, Reading, Writing} then Out else Holds
  {
  }

  lemma AcquireKeeps(s: State, t: int, after: State)
    requires Inv(s) && Enabled(s, t) && PlaceOf(s.m, t) in {Out, Signalled}
    requires after.m == L.AfterAcquire(s.m, t) && after.readernum == s.readernum && after.writer == s.writer
    requires exists th :: after.threads == s.threads[t := th] && PlaceFits(th.pc, Holds) && PlaceFits(th.pc, Queued)
                          && (Counts(th.pc) <==> Counts(s.threads[t].pc)) && (Claims(th.pc) <==> Claims(s.threads[t].pc))
                          && (th.pc == WriteDone ==> s.threads[t].pc in {Writing, WriteDone})
    ensures Inv(after)
  {
    hide L.AfterAcquire, MonitorOk;
    AcquireMoves(s.m, t);
    ReadersUpdate(s.threads, t, after.threads[t]);
    forall u | 0 <= u < |after.threads|
      ensures ThreadOk(u, after.threads[u].pc, PlaceOf(after.m, u), after.readernum, after.writer, HolderPc(after))
    {
      assert ThreadOk(u, s.threads[u].pc, PlaceOf(s.m, u), s.readernum, s.writer, HolderPc(s));
    }
  }

  lemma ResumeKeeps(s: State, t: int)
    requires Inv(s) && Enabled(s, t) && t in s.m.handed
    ensures Inv(s.(m := L.AfterResume(s.m, t)))
  {
    hide L.AfterResume;
    var after := s.(m := L.AfterResume(s.m, t));
    ResumeMoves(s.m, t);
    forall u | 0 <= u < |after.threads|
      ensures ThreadOk(u, after.threads[u].pc, PlaceOf(after.m, u), after.readernum, after.writer, HolderPc(after))
    {
      assert ThreadOk(u, s.threads[u].pc, PlaceOf(s.m, u), s.readernum, s.writer, HolderPc(s));
    }
  }

  lemma WaitKeeps(s: State, t: int)
    requires Inv(s) && Enabled(s, t) && PlaceOf(s.m, t) == Holds
    requires s.threads[t].pc in {ReadGuard, WriteGuard, WriteDrain}
    requires GuardClosed(s.threads[t].pc, s.readernum, s.writer)
    ensures Inv(s.(m := L.AfterWait(s.m, t)))
  {
    hide L.AfterWait, MonitorOk;
    var after := s.(m := L.AfterWait(s.m, t));
    WaitMoves(s.m, t);
    MembersPlaced(s);
    forall u | 0 <= u < |after.threads|
      ensures ThreadOk(u, after.threads[u].pc, PlaceOf(after.m, u), after.readernum, after.writer, HolderPc(after))
    {
      assert ThreadOk(u, s.threads[u].pc, PlaceOf(s.m, u), s.readernum, s.writer, HolderPc(s));
    }
  }

  /** Whoever is first in the lock's queue is a thread of the protocol and counts as queued. */
  lemma MembersPlaced(s: State)
    requires Inv(s)
    ensures s.m.queue != [] ==> s.m.queue[0] >= 0 && PlaceOf(s.m, s.m.queue[0]) == Queued
  {
    if s.m.queue != [] { assert s.m.queue[0] in s.m.queue; }
  }

  lemma UnlockThread(s: State, t: int, pc: Pc, place: Place, u: int)
    requires Inv(s) && 0 <= t < |s.threads| && PlaceOf(s.m, t) == Holds && 0 <= u < |s.threads|
    requires (s.threads[t].pc, pc) in {(ReadGo, Reading), (ReadOut, Idle), (WriteGo, Writing), (WriteOut, Idle)}
    requires place == if u == t then Out else if s.m.queue != [] && u == s.m.queue[0] then Handed else PlaceOf(s.m, u)
    ensures ThreadOk(u, if u == t then pc else s.threads[u].pc, place, s.readernum, s.writer, Idle)
  {
    hide MonitorOk, PlaceOf, Readers;
    OneHolder(s.m, t, u);
    MembersPlaced(s);
    assert ThreadOk(u, s.threads[u].pc, PlaceOf(s.m, u), s.readernum, s.writer, s.threads[t].pc);
  }

  lemma UnlockKeeps(s: State, t: int, pc: Pc)
    requires Inv(s) && Enabled(s, t) && PlaceOf(s.m, t) == Holds
    requires (s.threads[t].pc, pc) in {(ReadGo, Reading), (ReadOut, Idle), (WriteGo, Writing), (WriteOut, Idle)}
    ensures Inv(At(s, t, pc).(m := L.AfterUnlock(s.m, t)))
  {
    hide L.AfterUnlock, L.Inv, PlaceOf, PlaceFits, SleepsRightly;
    var after := At(s, t, pc).(m := L.AfterUnlock(s.m, t));
    UnlockMoves(s.m, t);
    MembersPlaced(s);
    ReadersUpdate(s.threads, t, after.threads[t]);
    forall u | 0 <= u < |after.threads|
      ensures ThreadOk(u, after.threads[u].pc, PlaceOf(after.m, u), after.readernum, after.writer, HolderPc(after))
    {
      OneHolder(s.m, t, u);
      UnlockThread(s, t, pc, PlaceOf(after.m, u), u);
    }
    assert MonitorOk(after.m) && forall u | u >= |after.threads| :: PlaceOf(after.m, u) == Out;
  }

  lemma BroadcastKeeps(s: State, t: int, pc: Pc)
    requires Inv(s) && Enabled(s, t) && PlaceOf(s.m, t) == Holds
    requires (s.threads[t].pc, pc) in {(ReadWake, ReadOut), (WriteWake, WriteOut)}
    ensures Inv(At(s, t, pc).(m := L.AfterBroadcast(s.m)))
  {
    hide L.AfterBroadcast, MonitorOk;
    var after := At(s, t, pc).(m := L.AfterBroadcast(s.m));
    BroadcastMoves(s.m, t);
    ReadersUpdate(s.threads, t, after.threads[t]);
    forall u | 0 <= u < |after.threads|
      ensures ThreadOk(u, after.threads[u].pc, PlaceOf(after.m, u), after.readernum, after.writer, HolderPc(after))
    {
      assert ThreadOk(u, s.threads[u].pc, PlaceOf(s.m, u), s.readernum, s.writer, HolderPc(s));
    }
  }

  /** The lines that touch only the entry's own fields. */
  predicate FieldStep(s: State, t: int, after: State)
    requires 0 <= t < |s.threads|
  {
    match s.threads[t].pc
    case ReadGuard => s.writer == -1 && after == At(s, t, ReadGo).(readernum := s.readernum + 1)
    case ReadDone => after == At(s, t, if s.readernum - 1 == 0 then ReadWake else ReadOut).(readernum := s.readernum - 1)
    case WriteGuard => s.writer == -1 && after == At(s, t, WriteDrain).(writer := t)
    case WriteDrain => s.readernum <= 0 && after == At(s, t, WriteGo)
    case WriteDone => after == At(s, t, WriteWake).(writer := -1)
    case _ => false
  }

  lemma FieldStepThread(s: State, t: int, after: State, u: int)
    requires Inv(s) && 0 <= t < |s.threads| && PlaceOf(s.m, t) == Holds && FieldStep(s, t, after)
    requires 0 <= u < |s.threads|
    ensures ThreadOk(u, after.threads[u].pc, PlaceOf(s.m, u), after.readernum, after.writer, after.threads[t].pc)
  {
    hide MonitorOk, PlaceOf, Readers;
    OneHolder(s.m, t, u);
    assert ThreadOk(u, s.threads[u].pc, PlaceOf(s.m, u), s.readernum, s.writer, s.threads[t].pc);
    assert ThreadOk(t, s.threads[t].pc, PlaceOf(s.m, t), s.readernum, s.writer, s.threads[t].pc);
    ReaderCounted(s.threads, t);
  }

  lemma OneHolder(m: L.State, t: int, u: int)
    requires PlaceOf(m, t) == Holds
    ensures m.lock.lockedId == t && (PlaceOf(m, u) == Holds <==> u == t)
  {
  }

  lemma FieldStepKeeps(s: State, t: int, after: State)
    requires Inv(s) && 0 <= t < |s.threads| && PlaceOf(s.m, t) == Holds && FieldStep(s, t, after)
    ensures Inv(after)
  {
    hide L.Inv, PlaceOf, PlaceFits, SleepsRightly;
    OneHolder(s.m, t, t);
    ReadersUpdate(s.threads, t, after.threads[t]);
    forall u | 0 <= u < |after.threads|
      ensures ThreadOk(u, after.threads[u].pc, PlaceOf(after.m, u), after.readernum, after.writer, HolderPc(after))
    {
      FieldStepThread(s, t, after, u);
    }
    assert MonitorOk(after.m);
  }

  lemma StepKeeps(s: State, t: int)
    requires Inv(s) && Enabled(s, t)
    ensures Inv(Step(s, t))
  {
    hide Inv, L.AfterAcquire, L.AfterResume, L.AfterWait, L.AfterUnlock, L.AfterBroadcast;
    if t in s.m.handed {
      ResumeKeeps(s, t);
    } else if t in s.m.signalled {
      SignalledPlace(s, t);
      assert s.threads == s.threads[t := s.threads[t]];
      AcquireKeeps(s, t, Step(s, t));
    } else {
      RunnerPlace(s, t);
      match s.threads[t].pc
      case Idle => AcquireKeeps(s, t, Step(s, t));
      case Reading => AcquireKeeps(s, t, Step(s, t));
      case Writing => AcquireKeeps(s, t, Step(s, t));
      case _ => InsideKeeps(s, t);
    }
  }

  lemma SignalledPlace(s: State, t: int)
    requires Inv(s) && t in s.m.signalled && Enabled(s, t) && t !in s.m.handed
    ensures PlaceOf(s.m, t) == Signalled && s.threads[t].pc in {ReadGuard, WriteGuard, WriteDrain}
  {
  }

  lemma InsideKeeps(s: State, t: int)
    requires Inv(s) && Enabled(s, t) && PlaceOf(s.m, t) == Holds
    ensures Inv(Inside(s, t))
  {
    hide Inv, L.AfterWait, L.AfterUnlock, L.AfterBroadcast;
    match s.threads[t].pc
    case ReadGuard => if s.writer != -1 { WaitKeeps(s, t); } else { FieldStepKeeps(s, t, Inside(s, t)); }
    case ReadGo => UnlockKeeps(s, t, Reading);
    case ReadDone => FieldStepKeeps(s, t, Inside(s, t));
    case ReadWake => BroadcastKeeps(s, t, ReadOut);
    case ReadOut => UnlockKeeps(s, t, Idle);
    case WriteGuard => if s.writer != -1 { WaitKeeps(s, t); } else { FieldStepKeeps(s, t, Inside(s, t)); }
    case WriteDrain => if s.readernum > 0 { WaitKeeps(s, t); } else { FieldStepKeeps(s, t, Inside(s, t)); }
    case WriteGo => UnlockKeeps(s, t, Writing);
    case WriteDone => FieldStepKeeps(s, t, Inside(s, t));
    case WriteWake => BroadcastKeeps(s, t, WriteOut);
    case WriteOut => UnlockKeeps(s, t, Idle);
    case _ =>
  }

  // ----- safety over all runs -----

  predicate Follows(s: State, t: int, next: State) { Enabled(s, t) && next == Step(s, t) }

  ghost predicate IsRun(run: seq<State>, schedule: seq<int>) {
    && |run| == |schedule| + 1 && Initial(run[0])
    && forall i, j | 0 <= i < |schedule| && j == i + 1 :: Follows(run[i], schedule[i], run[j])
  }

  lemma {:induction false} ReachableInv(run: seq<State>, schedule: seq<int>, n: nat)
    requires IsRun(run, schedule) && n < |run|
    ensures Inv(run[n])
  {
    hide Inv, Enabled, Step, Initial;
    if n == 0 {
      InitialInv(run[0]);
    } else {
      ReachableInv(run, schedule, n - 1);
      assert Follows(run[n - 1], schedule[n - 1], run[n]);
      StepKeeps(run[n - 1], schedule[n - 1]);
    }
  }

  /** In every reachable state: a thread that writes is alone, `readernum` counts exactly the threads
      between raising and lowering it, and whoever sleeps on the condition does so behind a closed
      guard, unless the holder of the lock is about to broadcast. */
  lemma Safety(run: seq<State>, schedule: seq<int>, n: nat, t: int)
    requires IsRun(run, schedule) && n < |run| && 0 <= t < |run[n].threads|
    ensures var s := run[n];
            && s.readernum == Readers(s.threads)
            && (s.threads[t].pc == Writing ==>
                  forall u | 0 <= u < |s.threads| && u != t :: s.threads[u].pc != Writing && s.threads[u].pc != Reading)
            && (t in s.m.condQueue && HolderPc(s) != ReadWake && HolderPc(s) != WriteWake ==>
                  GuardClosed(s.threads[t].pc, s.readernum, s.writer))
  {
    ReachableInv(run, schedule, n);
    InvSafety(run[n], t);
  }

  // ----- what the threads asked for is what they do -----

  /** The inner section that a thread enters between two states, if any. */
  function EnteredBy(was: Thread, now: Thread): seq<Kind> {
    if now.pc == was.pc then [] else if now.pc == Reading then [Read] else if now.pc == Writing then [Write] else []
  }

  function Entered(s: State, next: State, t: int): seq<Kind> {
    if 0 <= t < |s.threads| && t < |next.threads| then EnteredBy(s.threads[t], next.threads[t]) else []
  }

  /** The inner sections that thread `t` has entered in the first `n` steps of a run, in order. */
  function Sections(run: seq<State>, t: int, n: nat): seq<Kind>
    requires n < |run|
  {
    if n == 0 then [] else Sections(run, t, n - 1) + Entered(run[n - 1], run[n], t)
  }

  /** What a thread at this line is about to do. */
  function Coming(pc: Pc): seq<Kind> {
    if pc in {ReadGuard, ReadGo} then [Read] else if pc in {WriteGuard, WriteDrain, WriteGo} then [Write] else []
  }

  /** What a thread at this line has done last, as far as the line says. */
  function Latest(pc: Pc): seq<Kind> {
    if pc in {Reading, ReadDone, ReadWake, ReadOut} then [Read]
    else if pc in {Writing, WriteDone, WriteWake, WriteOut} then [Write]
    else []
  }

  predicate EndsWith(done: seq<Kind>, latest: seq<Kind>) { |latest| <= |done| && done[|done| - |latest|..] == latest }

  /** What a step may do to one thread: nothing, begin the next job, or go on to another line of the same job. */
  predicate Moves(was: Thread, now: Thread) {
    || now == was
    || (was.pc == Idle && was.jobs != [] && now == Thread(if was.jobs[0] == Read then ReadGuard else WriteGuard, was.jobs[1..]))
    || (now.jobs == was.jobs
        && (was.pc, now.pc) in {
             (ReadGuard, ReadGo), (ReadGo, Reading), (Reading, ReadDone), (ReadDone, ReadWake), (ReadDone, ReadOut),
             (ReadWake, ReadOut), (ReadOut, Idle), (WriteGuard, WriteDrain), (WriteDrain, WriteGo), (WriteGo, Writing),
             (Writing, WriteDone), (WriteDone, WriteWake), (WriteWake, WriteOut), (WriteOut, Idle)})
  }

  lemma InsideMoves(s: State, t: int)
    requires 0 <= t < |s.threads|
    ensures Inside(s, t).threads == s.threads[t := Inside(s, t).threads[t]] && Moves(s.threads[t], Inside(s, t).threads[t])
  {
    hide L.AfterWait, L.AfterUnlock, L.AfterBroadcast;
  }

  lemma StepMoves(s: State, u: int, t: int)
    requires Enabled(s, u) && 0 <= t < |s.threads|
    ensures Moves(s.threads[t], Step(s, u).threads[t])
  {
    hide L.AfterAcquire, L.AfterResume, Inside;
    InsideMoves(s, u);
  }

  /** One step, as far as one thread's jobs go. */
  lemma JobsStep(was: Thread, now: Thread)
    requires Moves(was, now)
    ensures EnteredBy(was, now) + Coming(now.pc) + now.jobs == Coming(was.pc) + was.jobs
    ensures if EnteredBy(was, now) == [] then Latest(now.pc) in {[], Latest(was.pc)} else Latest(now.pc) == EnteredBy(was, now)
  {
    if was.jobs != [] { assert was.jobs == [was.jobs[0]] + was.jobs[1..]; }
  }

  lemma {:induction false} JobsOverRun(run: seq<State>, schedule: seq<int>, n: nat, t: int)
    requires IsRun(run, schedule) && n < |run| && 0 <= t < |run[0].threads|
    ensures |run[n].threads| == |run[0].threads|
    ensures var th := run[n].threads[t];
            && Sections(run, t, n) + Coming(th.pc) + th.jobs == run[0].threads[t].jobs
            && EndsWith(Sections(run, t, n), Latest(th.pc))
  {
    hide Inv, Step, Enabled, EnteredBy, Coming, Latest, Moves;
    if n == 0 {
      NothingComing(run[0], t);
    } else {
      JobsOverRun(run, schedule, n - 1, t);
      ReachableInv(run, schedule, n - 1);
      assert Follows(run[n - 1], schedule[n - 1], run[n]);
      StepMoves(run[n - 1], schedule[n - 1], t);
      JobsStep(run[n - 1].threads[t], run[n].threads[t]);
      AtMostOne(run[n - 1], run[n], t);
      var before, entered, th := Sections(run, t, n - 1), Entered(run[n - 1], run[n], t), run[n].threads[t];
      assert before + entered + Coming(th.pc) + th.jobs == before + (entered + Coming(th.pc) + th.jobs);
      assert entered == [] ==> before + entered == before;
    }
  }

  lemma NothingComing(s: State, t: int)
    requires Initial(s) && 0 <= t < |s.threads|
    ensures Coming(s.threads[t].pc) == [] == Latest(s.threads[t].pc)
  {
  }

  lemma AtMostOne(s: State, next: State, t: int)
    ensures |Entered(s, next, t)| <= 1
  {
  }

  lemma {:induction false} SizeKept(run: seq<State>, schedule: seq<int>, n: nat)
    requires IsRun(run, schedule) && n < |run|
    ensures |run[n].threads| == |run[0].threads|
  {
    hide Step, Enabled, Initial;
    if n > 0 {
      SizeKept(run, schedule, n - 1);
      assert Follows(run[n - 1], schedule[n - 1], run[n]);
    }
  }

  /** How many of its jobs thread `t` has begun. */
  function Begun(run: seq<State>, n: nat, t: int): int
    requires n < |run| && 0 <= t < |run[0].threads| && t < |run[n].threads|
  {
    |run[0].threads[t].jobs| - |run[n].threads[t].jobs|
  }

  /** In every run: the jobs still to do are the last of those asked for; the inner sections entered are those of the
      jobs begun, a read's for a read and a write's for a write, in their order, but for the one not entered yet; and a
      thread in an inner section is there for the job begun last. */
  lemma SectionsAreJobs(run: seq<State>, schedule: seq<int>, n: nat, t: int)
    requires IsRun(run, schedule) && n < |run| && 0 <= t < |run[0].threads|
    ensures |run[n].threads| == |run[0].threads|
    ensures var jobs, b, done := run[0].threads[t].jobs, Begun(run, n, t), Sections(run, t, n);
            && 0 <= b <= |jobs| && run[n].threads[t].jobs == jobs[b..]
            && (done == jobs[..b] || (b > 0 && done == jobs[..b - 1]))
            && (run[n].threads[t].pc == Idle ==> done == jobs[..b])
            && (run[n].threads[t].pc == Reading ==> b > 0 && done == jobs[..b] && jobs[b - 1] == Read)
            && (run[n].threads[t].pc == Writing ==> b > 0 && done == jobs[..b] && jobs[b - 1] == Write)
  {
    hide Sections, IsRun;
    JobsOverRun(run, schedule, n, t);
    var th, jobs, done := run[n].threads[t], run[0].threads[t].jobs, Sections(run, t, n);
    assert jobs[..|done|] == done;
    assert jobs[|done| + |Coming(th.pc)|..] == th.jobs;
  }

  /** Two threads are in their inner sections together only when the jobs of both are reads. */
  lemma OnlyReadsTogether(run: seq<State>, schedule: seq<int>, n: nat, t: int, u: int)
    requires IsRun(run, schedule) && n < |run| && 0 <= t < |run[0].threads| && 0 <= u < |run[0].threads| && t != u
    ensures |run[n].threads| == |run[0].threads|
    ensures run[n].threads[t].pc in {Reading, Writing} && run[n].threads[u].pc in {Reading, Writing} ==>
              var b, c := Begun(run, n, t), Begun(run, n, u);
              && 0 < b <= |run[0].threads[t].jobs| && run[0].threads[t].jobs[b - 1] == Read
              && 0 < c <= |run[0].threads[u].jobs| && run[0].threads[u].jobs[c - 1] == Read
  {
    hide Sections, IsRun;
    SectionsAreJobs(run, schedule, n, t);
    SectionsAreJobs(run, schedule, n, u);
    Safety(run, schedule, n, t);
    Safety(run, schedule, n, u);
  }

  lemma InvSafety(s: State, t: int)
    requires Inv(s) && 0 <= t < |s.threads|
    ensures s.readernum == Readers(s.threads)
    ensures s.threads[t].pc == Writing ==>
              forall u | 0 <= u < |s.threads| && u != t :: s.threads[u].pc != Writing && s.threads[u].pc != Reading
    ensures t in s.m.condQueue && HolderPc(s) != ReadWake && HolderPc(s) != WriteWake ==>
              GuardClosed(s.threads[t].pc, s.readernum, s.writer)
  {
    assert ThreadOk(t, s.threads[t].pc, PlaceOf(s.m, t), s.readernum, s.writer, HolderPc(s));
    if s.threads[t].pc == Writing {
      forall u | 0 <= u < |s.threads| && u != t ensures s.threads[u].pc != Writing && s.threads[u].pc != Reading {
        assert ThreadOk(u, s.threads[u].pc, PlaceOf(s.m, u), s.readernum, s.writer, HolderPc(s));
        ReaderCounted(s.threads, u);
      }
    }
    if t in s.m.condQueue { WaiterPlace(s.m, t); }
  }

  lemma WaiterPlace(m: L.State, t: int)
    requires MonitorOk(m) && t in m.condQueue
    ensures PlaceOf(m, t) == Waits
  {
  }

  lemma {:induction false} ReaderCounted(threads: seq<Thread>, t: nat)
    requires t < |threads|
    ensures Counts(threads[t].pc) ==> Readers(threads) > 0
  {
    if t > 0 { ReaderCounted(threads[1..], t - 1); }
  }

  /** Whenever a thread sleeps on the condition, some other thread inside the protocol can go on. */
  lemma SomeoneAwake(s: State, t: int) returns (u: int)
    requires Inv(s) && 0 <= t < |s.threads| && t in s.m.condQueue
    ensures u != t && Enabled(s, u) && s.threads[u].pc != Idle
  {
    WaiterPlace(s.m, t);
    var h := s.m.lock.lockedId;
    if h >= 0 {
      u := h;
      HolderRuns(s);
    } else if h == L.RESERVED {
      u := s.m.handed[0];
      HandedRuns(s);
    } else {
      u := Blocker(s, t);
    }
  }

  lemma HolderRuns(s: State)
    requires Inv(s) && s.m.lock.lockedId >= 0
    ensures var h := s.m.lock.lockedId; PlaceOf(s.m, h) == Holds && Enabled(s, h) && s.threads[h].pc != Idle
  {
    assert PlaceOf(s.m, s.m.lock.lockedId) == Holds;
  }

  lemma HandedRuns(s: State)
    requires Inv(s) && s.m.lock.lockedId == L.RESERVED
    ensures s.m.handed != []
    ensures var h := s.m.handed[0]; PlaceOf(s.m, h) == Handed && Enabled(s, h) && s.threads[h].pc != Idle
  {
    var h := s.m.handed[0];
    assert h in s.m.handed;
    assert PlaceOf(s.m, h) == Handed;
  }

  /** With the lock free, a closed guard is closed by somebody who can go on. */
  lemma Blocker(s: State, t: int) returns (u: int)
    requires Inv(s) && 0 <= t < |s.threads| && PlaceOf(s.m, t) == Waits && s.m.lock.lockedId == L.NO_THREAD
    ensures u != t && Enabled(s, u) && s.threads[u].pc != Idle
  {
    assert s.m.queue == [] && s.m.handed == [];
    assert ThreadOk(t, s.threads[t].pc, PlaceOf(s.m, t), s.readernum, s.writer, HolderPc(s));
    u := s.writer;
    if s.threads[t].pc != WriteDrain {
      assert ThreadOk(u, s.threads[u].pc, PlaceOf(s.m, u), s.readernum, s.writer, HolderPc(s));
    }
    if s.threads[t].pc == WriteDrain || PlaceOf(s.m, s.writer) == Waits {
      u := SomeReader(s.threads);
      assert ThreadOk(u, s.threads[u].pc, PlaceOf(s.m, u), s.readernum, s.writer, HolderPc(s));
    }
  }

  /** No deadlock: a state in which nobody can go on is one in which everybody has finished. */
  lemma StuckMeansFinished(s: State)
    requires Inv(s) && forall t :: !Enabled(s, t)
    ensures forall t | 0 <= t < |s.threads| :: Finished(s.threads[t])
  {
    forall t | 0 <= t < |s.threads| ensures Finished(s.threads[t]) {
      if t in s.m.condQueue {
        var u := SomeoneAwake(s, t);
      } else if t in s.m.queue {
        NotFreeWhenQueued(s, t);
        if s.m.lock.lockedId >= 0 { HolderRuns(s); } else { HandedRuns(s); }
      } else {
        assert !Enabled(s, t);
      }
    }
  }

  lemma NotFreeWhenQueued(s: State, t: int)
    requires Inv(s) && t in s.m.queue
    ensures s.m.lock.lockedId >= 0 || s.m.lock.lockedId == L.RESERVED
  {
  }

  // ----- every run ends -----

  /** Lines still ahead of a thread within its current read or write. */
  function Ahead(pc: Pc): nat {
    match pc
    case Idle => 0
    case ReadOut => 1 case ReadWake => 2 case ReadDone => 3 case Reading => 4 case ReadGo => 5 case ReadGuard => 6
    case WriteOut => 1 case WriteWake => 2 case WriteDone => 3 case Writing => 4 case WriteGo => 5 case WriteDrain => 6
    case WriteGuard => 7
  }

  function EffortOf(th: Thread): nat { 8 * |th.jobs| + Ahead(th.pc) }

  function Effort(threads: seq<Thread>): nat {
    if threads == [] then 0 else EffortOf(threads[0]) + Effort(threads[1..])
  }

  lemma {:induction false} EffortUpdate(threads: seq<Thread>, t: nat, th: Thread)
    requires t < |threads|
    ensures Effort(threads[t := th]) == Effort(threads) - EffortOf(threads[t]) + EffortOf(th)
  {
    if t > 0 {
      EffortUpdate(threads[1..], t - 1, th);
      assert threads[t := th][1..] == threads[1..][t - 1 := th];
    } else {
      assert threads[t := th][1..] == threads[1..];
    }
  }

  /** How far the woken threads are from sleeping again: asking, queueing, being handed the lock,
      holding it. */
  function Restless(m: L.State): nat {
    4 * |m.signalled| + 3 * |m.queue| + 2 * |m.handed| + if m.lock.lockedId >= 0 then 1 else 0
  }

  lemma RestlessBound(s: State)
    requires Inv(s)
    ensures Restless(s.m) <= 7 * |s.threads| + 3
  {
    var n := |s.threads|;
    forall t | t in s.m.queue || t in s.m.signalled ensures 0 <= t < n {
      assert PlaceOf(s.m, t) != Out;
    }
    DistinctBelow(s.m.queue, n);
    SizeBelow(n);
    CardinalityMonotone(s.m.signalled, Below(n));
  }

  /** Steps that only move the thread with respect to the lock bring it closer to sleeping. */
  lemma RestlessFalls(m: L.State, t: int)
    requires MonitorOk(m) && t >= 0
    ensures t in m.handed ==> Restless(L.AfterResume(m, t)) < Restless(m)
    ensures PlaceOf(m, t) == Signalled ==> Restless(L.AfterAcquire(m, t)) < Restless(m)
    ensures PlaceOf(m, t) == Holds ==> Restless(L.AfterWait(m, t)) < Restless(m)
  {
  }

  /** An upper bound on the number of steps still to come, in any order. */
  function Measure(s: State): nat { Effort(s.threads) * (7 * |s.threads| + 4) + Restless(s.m) }

  predicate Advances(s: State, after: State) {
    && |after.threads| == |s.threads|
    && (|| Effort(after.threads) < Effort(s.threads)
        || (Effort(after.threads) == Effort(s.threads) && Restless(after.m) < Restless(s.m)))
  }

  lemma InsideAdvances(s: State, t: int)
    requires MonitorOk(s.m) && 0 <= t < |s.threads| && PlaceOf(s.m, t) == Holds
    requires s.threads[t].pc !in {Idle, Reading, Writing}
    ensures Advances(s, Inside(s, t))
  {
    hide Restless, Effort, L.AfterWait, L.AfterUnlock, L.AfterBroadcast, MonitorOk;
    RestlessFalls(s.m, t);
    EffortUpdate(s.threads, t, Inside(s, t).threads[t]);
  }

  /** Every step either gets a thread ahead or leaves all threads at their lines and calms the lock. */
  lemma StepAdvances(s: State, t: int)
    requires Inv(s) && Enabled(s, t)
    ensures Advances(s, Step(s, t))
  {
    hide Restless, Effort, L.AfterAcquire, L.AfterResume, MonitorOk, ThreadOk, Inside;
    RestlessFalls(s.m, t);
    if t !in s.m.handed {
      if t in s.m.signalled {
        SignalledPlace(s, t);
      } else {
        RunnerPlace(s, t);
        if s.threads[t].pc in {Idle, Reading, Writing} {
          EffortUpdate(s.threads, t, Step(s, t).threads[t]);
        } else {
          InsideAdvances(s, t);
        }
      }
    }
  }

  lemma StepLowersMeasure(s: State, t: int)
    requires Inv(s) && Enabled(s, t)
    ensures Measure(Step(s, t)) < Measure(s)
  {
    hide Inv, Enabled, Step, Restless, Effort;
    var after, k := Step(s, t), 7 * |s.threads| + 4;
    StepKeeps(s, t);
    StepAdvances(s, t);
    RestlessBound(after);
    if Effort(after.threads) < Effort(s.threads) {
      Spread(Effort(after.threads), Effort(s.threads), k, Restless(after.m), Restless(s.m));
    }
  }

  lemma Spread(a: nat, b: nat, k: nat, x: nat, y: nat)
    requires a < b && x < k
    ensures a * k + x < b * k + y
  {
    assert (a + 1) * k <= b * k;
  }

  /** No schedule can go on for ever: `Measure` of the first state bounds the length of every run. */
  lemma {:induction false} RunsAreBounded(run: seq<State>, schedule: seq<int>, n: nat)
    requires IsRun(run, schedule) && n < |run|
    ensures n + Measure(run[n]) <= Measure(run[0])
  {
    hide Measure, Step, Enabled, Initial;
    if n > 0 {
      RunsAreBounded(run, schedule, n - 1);
      ReachableInv(run, schedule, n - 1);
      assert Follows(run[n - 1], schedule[n - 1], run[n]);
      StepLowersMeasure(run[n - 1], schedule[n - 1]);
    }
  }

  /** Under every schedule that keeps going as long as somebody can run, each thread has in the end done the reads and
      the writes it was asked for, in order, with the entry's fields back at rest. */
  lemma EveryMaximalRunFinishes(run: seq<State>, schedule: seq<int>)
    requires IsRun(run, schedule) && forall t :: !Enabled(run[|schedule|], t)
    ensures |schedule| <= Measure(run[0])
    ensures var last := run[|schedule|];
            && (forall t | 0 <= t < |last.threads| :: Finished(last.threads[t]))
            && last.readernum == 0 && last.writer == -1
            && |last.threads| == |run[0].threads|
            && forall t | 0 <= t < |run[0].threads| :: Sections(run, t, |schedule|) == run[0].threads[t].jobs
  {
    hide Sections;
    var last := run[|schedule|];
    SizeKept(run, schedule, |schedule|);
    forall t | 0 <= t < |run[0].threads| ensures Finished(last.threads[t]) ==> Sections(run, t, |schedule|) == run[0].threads[t].jobs {
      SectionsAreJobs(run, schedule, |schedule|, t);
    }
    RunsAreBounded(run, schedule, |schedule|);
    ReachableInv(run, schedule, |schedule|);
    StuckMeansFinished(last);
    NoReadersAtFirst(last.threads);
    WriterClaims(last);
  }

  lemma WriterClaims(s: State)
    requires Inv(s)
    ensures s.writer != -1 ==> 0 <= s.writer < |s.threads| && Claims(s.threads[s.writer].pc)
  {
    if s.writer != -1 {
      assert ThreadOk(s.writer, s.threads[s.writer].pc, PlaceOf(s.m, s.writer), s.readernum, s.writer, HolderPc(s));
    }
  }
}
