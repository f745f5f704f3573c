/** Reads and writes of one open SFS file by threads that follow the readers/writer protocol, one disk block at a
    time: they are as good as atomic. */
module FileAccess {
  import opened Libc
  import RW = ReadersWriter

  const BLOCK := 512

  /** What a thread asks for when it gets to read or to write. */
  datatype Op = Op(offset: nat, size: nat, data: seq<byte>)

  /** How far a thread has got: the bytes read so far; or the bytes written so far and the block it has fetched, if
      any, to change it in part. */
  datatype Access =
    | Nothing
    | Reads(offset: nat, size: nat, got: seq<byte>)
    | Writes(offset: nat, data: seq<byte>, done: nat, fetched: bool, block: seq<byte>)

  /** An access that is over. */
  datatype Event = DidRead(thread: int, offset: nat, bytes: seq<byte>) | DidWrite(thread: int, offset: nat, data: seq<byte>)

  datatype State = State(s: RW.State, file: seq<byte>, access: seq<Access>, log: seq<Event>)

  datatype Action =
    | Protocol(op: Op)   // the next line of the protocol
    | ReadBlock          // one block from the disk to the buffer
    | FetchBlock         // one block from the disk, to be changed in part
    | PutBlock           // one block to the disk

  /** As much as the file has from `offset` on. */
  function Clamped(op: Op, length: nat, n: nat): nat { if op.offset <= length then Least(n, length - op.offset) else 0 }

  function Begun(pc: RW.Pc, op: Op, length: nat): Access {
    var at := if op.offset <= length then op.offset else 0;
    if pc == RW.Reading then Reads(at, Clamped(op, length, op.size), [])
    else Writes(at, op.data[..Clamped(op, length, |op.data|)], 0, false, [])
  }

  function Finished(t: int, a: Access): seq<Event> {
    match a
    case Nothing => []
    case Reads(offset, size, got) => [DidRead(t, offset, got)]
    case Writes(offset, data, done, fetched, block) => [DidWrite(t, offset, data[..Least(done, |data|)])]
  }

  predicate Inner(pc: RW.Pc) { pc == RW.Reading || pc == RW.Writing }

  /** A line of the protocol: the access begins with the permission and ends when it is given up, be it complete or
      cut short by a disk error. */
  function AfterProtocol(j: State, t: int, op: Op): State
    requires RW.Enabled(j.s, t) && t < |j.access|
  {
    var next := RW.Step(j.s, t);
    var before, after := j.s.threads[t].pc, next.threads[t].pc;
    if before == after || (!Inner(before) && !Inner(after)) then j.(s := next)
    else if Inner(after) then j.(s := next, access := j.access[t := Begun(after, op, |j.file|)])
    else j.(s := next, access := j.access[t := Nothing], log := j.log + Finished(t, j.access[t]))
  }

  /** How many bytes the block at `pos` has from there on, of `left` that are wanted. */
  function Chunk(pos: nat, left: nat): nat { Least(BLOCK - pos % BLOCK, left) }

  function BlockStart(pos: nat): nat { pos / BLOCK * BLOCK }

  function BlockEnd(pos: nat, length: nat): nat { Least(BlockStart(pos) + BLOCK, length) }

  /** The block of the file that contains `pos`. */
  function BlockAt(file: seq<byte>, pos: nat): seq<byte>
    requires pos < |file|
  {
    file[BlockStart(pos)..BlockEnd(pos, |file|)]
  }

  predicate ReadsOn(j: State, t: int) {
    && 0 <= t < |j.s.threads| && t < |j.access| && j.s.threads[t].pc == RW.Reading && j.access[t].Reads?
    && var a := j.access[t]; |a.got| < a.size && a.offset + a.size <= |j.file|
  }

  predicate WritesOn(j: State, t: int) {
    && 0 <= t < |j.s.threads| && t < |j.access| && j.s.threads[t].pc == RW.Writing && j.access[t].Writes?
    && var a := j.access[t]; a.done < |a.data| && a.offset + |a.data| <= |j.file|
  }

  function AfterRead(j: State, t: int): State
    requires ReadsOn(j, t)
  {
    var a := j.access[t];
    var pos := a.offset + |a.got|;
    var block := BlockAt(j.file, pos);
    var from := pos - BlockStart(pos);
    j.(access := j.access[t := a.(got := a.got + block[from..from + Chunk(pos, a.size - |a.got|)])])
  }

  function AfterFetch(j: State, t: int): State
    requires WritesOn(j, t)
  {
    var a := j.access[t];
    j.(access := j.access[t := a.(fetched := true, block := BlockAt(j.file, a.offset + a.done))])
  }

  /** The next bytes of the data. */
  function Piece(a: Access): seq<byte>
    requires a.Writes? && a.done < |a.data|
  {
    a.data[a.done..a.done + Chunk(a.offset + a.done, |a.data| - a.done)]
  }

  /** Only a whole block is written without being fetched first. */
  predicate CanPut(j: State, t: int) {
    && WritesOn(j, t)
    && var a := j.access[t];
       var pos := a.offset + a.done;
       if a.fetched then |a.block| == BlockEnd(pos, |j.file|) - BlockStart(pos) else |Piece(a)| == BLOCK
  }

  function AfterPut(j: State, t: int): State
    requires CanPut(j, t)
  {
    var a := j.access[t];
    var pos := a.offset + a.done;
    var block := if a.fetched then Overwritten(a.block, pos - BlockStart(pos), Piece(a)) else Piece(a);
    j.(file := Overwritten(j.file, BlockStart(pos), block),
       access := j.access[t := a.(done := a.done + |Piece(a)|, fetched := false, block := [])])
  }

  predicate Follows(j: State, t: int, action: Action, next: State) {
    match action
    case Protocol(op) => RW.Enabled(j.s, t) && t < |j.access| && next == AfterProtocol(j, t, op)
    case ReadBlock => ReadsOn(j, t) && next == AfterRead(j, t)
    case FetchBlock => WritesOn(j, t) && next == AfterFetch(j, t)
    case PutBlock => CanPut(j, t) && next == AfterPut(j, t)
  }

  // ----- atomic reads and writes -----

  /** A finished access fits a file as an atomic one: a read got the bytes that are there. */
  predicate Fits(file: seq<byte>, e: Event) {
    match e
    case DidRead(t, offset, bytes) => offset + |bytes| <= |file| && bytes == file[offset..offset + |bytes|]
    case DidWrite(t, offset, data) => offset + |data| <= |file|
  }

  function Apply(file: seq<byte>, e: Event): (r: seq<byte>)
    requires Fits(file, e)
    ensures |r| == |file|
  {
    match e
    case DidRead(_, _, _) => file
    case DidWrite(_, offset, data) => Overwritten(file, offset, data)
  }

  /** The accesses in this order, each at once, explain what every one of them got and leave `after`. */
  predicate Explains(file: seq<byte>, log: seq<Event>, after: seq<byte>)
    decreases |log|
  {
    if log == [] then after == file else Fits(file, log[0]) && Explains(Apply(file, log[0]), log[1..], after)
  }

  lemma {:induction false} ExplainsMore(file: seq<byte>, log: seq<Event>, middle: seq<byte>, e: Event)
    requires Explains(file, log, middle) && Fits(middle, e)
    ensures Explains(file, log + [e], Apply(middle, e))
    decreases |log|
  {
    hide Fits, Apply;
    if log == [] {
      assert (log + [e])[1..] == [];
    } else {
      assert (log + [e])[1..] == log[1..] + [e];
      ExplainsMore(Apply(file, log[0]), log[1..], middle, e);
    }
  }

  // ----- the invariant -----

  predicate Quiet(s: RW.State) { forall t | 0 <= t < |s.threads| :: s.threads[t].pc != RW.Writing }

  /** Where a thread stands with respect to `settled`, the file that the finished accesses leave. */
  predicate AccessOk(pc: RW.Pc, a: Access, settled: seq<byte>, file: seq<byte>) {
    && (pc == RW.Reading ==>
          && a.Reads? && a.offset + a.size <= |settled| && |a.got| <= a.size
          && a.got == settled[a.offset..a.offset + |a.got|])
    && (pc == RW.Writing ==>
          && a.Writes? && a.offset + |a.data| <= |settled| && a.done <= |a.data|
          && file == Overwritten(settled, a.offset, a.data[..a.done])
          && (a.fetched ==> a.offset + a.done < |file| && a.block == BlockAt(file, a.offset + a.done)))
  }

  ghost predicate Ok(j: State, first: seq<byte>, settled: seq<byte>) {
    && RW.Inv(j.s) && |j.access| == |j.s.threads| && |settled| == |j.file|
    && Explains(first, j.log, settled)
    && (Quiet(j.s) ==> j.file == settled)
    && forall t | 0 <= t < |j.access| :: AccessOk(j.s.threads[t].pc, j.access[t], settled, j.file)
  }

  lemma ReadersAreQuiet(s: RW.State, t: int)
    requires RW.Inv(s) && 0 <= t < |s.threads| && s.threads[t].pc == RW.Reading
    ensures Quiet(s)
  {
    hide RW.Inv;
    forall u | 0 <= u < |s.threads| ensures s.threads[u].pc != RW.Writing { RW.InvSafety(s, u); }
  }

  lemma WriterIsAlone(s: RW.State, t: int)
    requires RW.Inv(s) && 0 <= t < |s.threads| && s.threads[t].pc == RW.Writing
    ensures forall u | 0 <= u < |s.threads| && u != t :: !Inner(s.threads[u].pc)
  {
    hide RW.Inv;
    RW.InvSafety(s, t);
  }

  /** From the block that was read come the bytes of the file. */
  lemma BlockBytes(file: seq<byte>, pos: nat, n: nat)
    requires 0 < n && pos + n <= |file| && n <= BLOCK - pos % BLOCK
    ensures BlockStart(pos) <= pos && pos + n <= BlockEnd(pos, |file|) <= |file|
    ensures BlockAt(file, pos)[pos - BlockStart(pos)..pos - BlockStart(pos) + n] == file[pos..pos + n]
  {
    var low, high := BlockStart(pos), BlockEnd(pos, |file|);
    assert low <= pos && pos + n <= high;
    RangeOfRange(file, low, high, pos - low, pos - low + n);
  }

  lemma RangeOfRange(file: seq<byte>, low: nat, high: nat, a: nat, b: nat)
    requires low <= high <= |file| && a <= b <= high - low
    ensures file[low..high][a..b] == file[low + a..low + b]
  {
    var whole := file[low..high];
    var left, right := whole[a..b], file[low + a..low + b];
    forall k | 0 <= k < b - a ensures left[k] == right[k] { assert left[k] == whole[a + k] == file[low + a + k]; }
  }

  lemma RangeGrows(file: seq<byte>, offset: nat, a: nat, b: nat)
    requires offset + a + b <= |file|
    ensures file[offset..offset + a] + file[offset + a..offset + a + b] == file[offset..offset + a + b]
  {
  }

  /** Changing a block in part and putting it back changes just those bytes of the file. */
  lemma PutBytes(file: seq<byte>, pos: nat, piece: seq<byte>)
    requires piece != [] && pos + |piece| <= |file| && |piece| <= BLOCK - pos % BLOCK
    ensures BlockStart(pos) <= pos < |file| && pos - BlockStart(pos) + |piece| <= |BlockAt(file, pos)|
    ensures BlockStart(pos) + |BlockAt(file, pos)| <= |file|
    ensures Overwritten(file, BlockStart(pos), Overwritten(BlockAt(file, pos), pos - BlockStart(pos), piece)) == Overwritten(file, pos, piece)
  {
    var low, high := BlockStart(pos), BlockEnd(pos, |file|);
    assert file == file[..low] + file[low..high] + file[high..];
  }

  lemma WriteGrows(file: seq<byte>, offset: nat, data: seq<byte>, a: nat, b: nat)
    requires offset + |data| <= |file| && a + b <= |data|
    ensures Overwritten(Overwritten(file, offset, data[..a]), offset + a, data[a..a + b]) == Overwritten(file, offset, data[..a + b])
  {
    assert data[..a + b] == data[..a] + data[a..a + b];
  }

  lemma ReadIs(j: State, t: int)
    requires ReadsOn(j, t)
    ensures var a, after := j.access[t], AfterRead(j, t).access;
            var pos, n := a.offset + |a.got|, Chunk(a.offset + |a.got|, a.size - |a.got|);
            after == j.access[t := a.(got := a.got + j.file[pos..pos + n])]
  {
    hide BlockAt;
    var a := j.access[t];
    BlockBytes(j.file, a.offset + |a.got|, Chunk(a.offset + |a.got|, a.size - |a.got|));
  }

  lemma ReadKeeps(j: State, t: int, first: seq<byte>, settled: seq<byte>)
    requires Ok(j, first, settled) && ReadsOn(j, t)
    ensures Ok(AfterRead(j, t), first, settled)
  {
    hide RW.Inv, Explains, BlockAt, BlockStart, BlockEnd, Overwritten;
    ReadersAreQuiet(j.s, t);
    var a := j.access[t];
    assert AccessOk(j.s.threads[t].pc, a, settled, j.file);
    ReadIs(j, t);
    RangeGrows(j.file, a.offset, |a.got|, Chunk(a.offset + |a.got|, a.size - |a.got|));
  }

  lemma FetchKeeps(j: State, t: int, first: seq<byte>, settled: seq<byte>)
    requires Ok(j, first, settled) && WritesOn(j, t)
    ensures Ok(AfterFetch(j, t), first, settled)
  {
    hide RW.Inv, Explains, BlockAt, Overwritten;
    assert AccessOk(j.s.threads[t].pc, j.access[t], settled, j.file);
  }

  lemma PutKeeps(j: State, t: int, first: seq<byte>, settled: seq<byte>)
    requires Ok(j, first, settled) && CanPut(j, t)
    ensures Ok(AfterPut(j, t), first, settled)
  {
    hide RW.Inv, Explains, BlockAt, Overwritten, BlockStart, BlockEnd;
    WriterIsAlone(j.s, t);
    var a := j.access[t];
    assert AccessOk(j.s.threads[t].pc, a, settled, j.file);
    PutIs(j, t);
    WriteGrows(settled, a.offset, a.data, a.done, |Piece(a)|);
  }

  lemma SizeKept(file: seq<byte>, at: nat, data: seq<byte>)
    requires at + |data| <= |file|
    ensures |Overwritten(file, at, data)| == |file|
  {
  }

  lemma WholeBlock(file: seq<byte>, pos: nat, piece: seq<byte>)
    requires piece != [] && pos + |piece| <= |file| && |piece| <= BLOCK - pos % BLOCK
    ensures |piece| == BLOCK ==> BlockStart(pos) == pos
  {
  }

  lemma PutIs(j: State, t: int)
    requires CanPut(j, t) && var a := j.access[t]; a.fetched ==> a.offset + a.done < |j.file| && a.block == BlockAt(j.file, a.offset + a.done)
    ensures var a := j.access[t];
            AfterPut(j, t).file == Overwritten(j.file, a.offset + a.done, Piece(a)) && |AfterPut(j, t).file| == |j.file|
  {
    hide Overwritten;
    var a := j.access[t];
    PutBytes(j.file, a.offset + a.done, Piece(a));
    WholeBlock(j.file, a.offset + a.done, Piece(a));
    SizeKept(j.file, a.offset + a.done, Piece(a));
  }

  /** What a line of the protocol does to the place of the thread, as far as the access goes. */
  lemma StepPlaces(s: RW.State, t: int)
    requires RW.Inv(s) && RW.Enabled(s, t)
    ensures var next := RW.Step(s, t);
            && |next.threads| == |s.threads| && forall u | 0 <= u < |s.threads| && u != t :: next.threads[u] == s.threads[u]
    ensures var before, after := s.threads[t].pc, RW.Step(s, t).threads[t].pc;
            && (Inner(before) ==> !Inner(after)) && (Inner(after) ==> !Inner(before))
  {
    hide RW.MonitorOk, RW.Readers, RW.L.AfterAcquire, RW.L.AfterResume, RW.L.AfterWait, RW.L.AfterUnlock, RW.L.AfterBroadcast;
    assert RW.ThreadOk(t, s.threads[t].pc, RW.PlaceOf(s.m, t), s.readernum, s.writer, RW.HolderPc(s));
    if t in s.m.handed || t in s.m.signalled { NotInside(s, t); }
  }

  lemma NotInside(s: RW.State, t: int)
    requires RW.Inv(s) && RW.Enabled(s, t) && (t in s.m.handed || t in s.m.signalled)
    ensures !Inner(s.threads[t].pc)
  {
    assert RW.ThreadOk(t, s.threads[t].pc, RW.PlaceOf(s.m, t), s.readernum, s.writer, RW.HolderPc(s));
  }

  /** A line of the protocol that neither begins nor ends an access. */
  lemma ElsewhereKeeps(j: State, t: int, first: seq<byte>, settled: seq<byte>)
    requires Ok(j, first, settled) && RW.Enabled(j.s, t)
    requires !Inner(j.s.threads[t].pc) && !Inner(RW.Step(j.s, t).threads[t].pc)
    ensures Ok(j.(s := RW.Step(j.s, t)), first, settled)
  {
    hide RW.Inv, RW.Step, RW.Enabled, Explains, BlockAt, Overwritten;
    RW.StepKeeps(j.s, t);
    StepPlaces(j.s, t);
    if Quiet(RW.Step(j.s, t)) { QuietBefore(j.s, t); }
    forall u | 0 <= u < |j.access| ensures AccessOk(RW.Step(j.s, t).threads[u].pc, j.access[u], settled, j.file) {
      assert AccessOk(j.s.threads[u].pc, j.access[u], settled, j.file);
    }
  }

  /** When nobody but `t` can be writing, and `t` is not yet. */
  lemma QuietBefore(s: RW.State, t: int)
    requires RW.Enabled(s, t) && !Inner(s.threads[t].pc)
    requires var next := RW.Step(s, t);
             && |next.threads| == |s.threads| && (forall u | 0 <= u < |s.threads| && u != t :: next.threads[u] == s.threads[u])
             && forall u | 0 <= u < |s.threads| && u != t :: next.threads[u].pc != RW.Writing
    ensures Quiet(s)
  {
    hide RW.Enabled, RW.Step;
    var next := RW.Step(s, t);
    forall u | 0 <= u < |s.threads| ensures s.threads[u].pc != RW.Writing { if u != t { assert next.threads[u] == s.threads[u]; } }
  }

  lemma BeginKeeps(j: State, t: int, op: Op, first: seq<byte>, settled: seq<byte>)
    requires Ok(j, first, settled) && RW.Enabled(j.s, t)
    requires !Inner(j.s.threads[t].pc) && Inner(RW.Step(j.s, t).threads[t].pc)
    ensures Ok(AfterProtocol(j, t, op), first, settled)
  {
    hide RW.Inv, RW.Step, Explains, BlockAt;
    var next := RW.Step(j.s, t);
    RW.StepKeeps(j.s, t);
    StepPlaces(j.s, t);
    if next.threads[t].pc == RW.Reading { ReadersAreQuiet(next, t); } else { WriterIsAlone(next, t); }
    QuietBefore(j.s, t);
    forall u | 0 <= u < |j.access| && u != t ensures AccessOk(next.threads[u].pc, j.access[u], settled, j.file) {
      assert AccessOk(j.s.threads[u].pc, j.access[u], settled, j.file);
    }
    assert AccessOk(next.threads[t].pc, Begun(next.threads[t].pc, op, |j.file|), settled, j.file);
  }

  /** The file that the finished accesses leave when `t` has ended its own. */
  function SettledAfter(j: State, t: int, settled: seq<byte>): seq<byte>
    requires 0 <= t < |j.s.threads|
  {
    if j.s.threads[t].pc == RW.Writing then j.file else settled
  }

  lemma EndKeeps(j: State, t: int, op: Op, first: seq<byte>, settled: seq<byte>)
    requires Ok(j, first, settled) && RW.Enabled(j.s, t) && Inner(j.s.threads[t].pc)
    ensures Ok(AfterProtocol(j, t, op), first, SettledAfter(j, t, settled))
  {
    hide RW.Inv, RW.Step, Explains, BlockAt, Overwritten;
    var next := RW.Step(j.s, t);
    RW.StepKeeps(j.s, t);
    StepPlaces(j.s, t);
    assert AccessOk(j.s.threads[t].pc, j.access[t], settled, j.file);
    ExplainsMore(first, j.log, settled, Finished(t, j.access[t])[0]);
    if j.s.threads[t].pc == RW.Reading { ReadersAreQuiet(j.s, t); } else { WriterIsAlone(j.s, t); }
    forall u | 0 <= u < |j.access| && u != t
      ensures AccessOk(next.threads[u].pc, j.access[u], SettledAfter(j, t, settled), j.file) {
      assert AccessOk(j.s.threads[u].pc, j.access[u], settled, j.file);
    }
  }

  lemma StepKeeps(j: State, t: int, action: Action, next: State, first: seq<byte>, settled: seq<byte>) returns (after: seq<byte>)
    requires Ok(j, first, settled) && Follows(j, t, action, next)
    ensures Ok(next, first, after)
  {
    hide Ok, RW.Step, RW.Enabled, AfterRead, AfterFetch, AfterPut;
    after := settled;
    match action {
      case Protocol(op) =>
        OkPlaces(j, t, first, settled);
        if Inner(j.s.threads[t].pc) {
          EndKeeps(j, t, op, first, settled);
          after := SettledAfter(j, t, settled);
        } else if Inner(RW.Step(j.s, t).threads[t].pc) {
          BeginKeeps(j, t, op, first, settled);
        } else {
          ElsewhereKeeps(j, t, first, settled);
        }
      case ReadBlock => ReadKeeps(j, t, first, settled);
      case FetchBlock => FetchKeeps(j, t, first, settled);
      case PutBlock => PutKeeps(j, t, first, settled);
    }
  }

  lemma OkPlaces(j: State, t: int, first: seq<byte>, settled: seq<byte>)
    requires Ok(j, first, settled) && RW.Enabled(j.s, t)
    ensures 0 <= t < |j.s.threads| == |RW.Step(j.s, t).threads|
  {
    StepPlaces(j.s, t);
  }

  /** As long as an access is not complete, a block read brings it forward, and so does a fetch followed by a put: to the
      end of a block, if not to its own. */
  lemma BlocksAdvance(j: State, t: int, first: seq<byte>, settled: seq<byte>)
    requires Ok(j, first, settled)
    ensures ReadsOn(j, t) ==>
              var a, n := j.access[t], |AfterRead(j, t).access[t].got|;
              |a.got| < n <= a.size && (n < a.size ==> (a.offset + n) % BLOCK == 0)
    ensures WritesOn(j, t) ==>
              && CanPut(AfterFetch(j, t), t)
              && var a, n := j.access[t], AfterPut(AfterFetch(j, t), t).access[t].done;
                 a.done < n <= |a.data| && (n < |a.data| ==> (a.offset + n) % BLOCK == 0)
  {
    hide RW.Inv, Explains, Overwritten, BlockAt;
    if ReadsOn(j, t) {
      ReadIs(j, t);
      ChunkEnds(j.access[t].offset + |j.access[t].got|, j.access[t].size - |j.access[t].got|);
    }
    if WritesOn(j, t) {
      BlockSize(j.file, j.access[t].offset + j.access[t].done);
      ChunkEnds(j.access[t].offset + j.access[t].done, |j.access[t].data| - j.access[t].done);
    }
  }

  lemma ChunkEnds(pos: nat, left: nat)
    requires left > 0
    ensures 0 < Chunk(pos, left) <= left && (Chunk(pos, left) < left ==> (pos + Chunk(pos, left)) % BLOCK == 0)
  {
  }

  lemma BlockSize(file: seq<byte>, pos: nat)
    requires pos < |file|
    ensures |BlockAt(file, pos)| == BlockEnd(pos, |file|) - BlockStart(pos)
  {
  }

  // ----- all runs -----

  /** One thread's move. */
  datatype Move = Move(thread: int, action: Action)

  predicate Initial(j: State) {
    RW.Initial(j.s) && |j.access| == |j.s.threads| && (forall t | 0 <= t < |j.access| :: j.access[t] == Nothing) && j.log == []
  }

  ghost predicate IsRun(run: seq<State>, moves: seq<Move>) {
    && |run| == |moves| + 1 && Initial(run[0])
    && forall i, k | 0 <= i < |moves| && k == i + 1 :: Follows(run[i], moves[i].thread, moves[i].action, run[k])
  }

  lemma InitialOk(j: State)
    requires Initial(j)
    ensures Ok(j, j.file, j.file)
  {
    RW.InitialInv(j.s);
  }

  lemma {:induction false} ReachableOk(run: seq<State>, moves: seq<Move>, n: nat) returns (settled: seq<byte>)
    requires IsRun(run, moves) && n < |run|
    ensures Ok(run[n], run[0].file, settled)
  {
    hide Ok, Initial, Follows;
    if n == 0 {
      InitialOk(run[0]);
      settled := run[0].file;
    } else {
      settled := ReachableOk(run, moves, n - 1);
      var move := moves[n - 1];
      assert Follows(run[n - 1], move.thread, move.action, run[n]);
      settled := StepKeeps(run[n - 1], move.thread, move.action, run[n], run[0].file, settled);
    }
  }

  /** What a thread that is reading has got so far. */
  predicate HasPartOf(a: Access, file: seq<byte>) {
    a.Reads? && a.offset + |a.got| <= |file| && a.got == file[a.offset..a.offset + |a.got|]
  }

  /** In every run of any number of threads, block by block: the finished reads and writes, in the order in which they
      ended and each taken at once, explain the bytes that every read got and, when nobody is writing, the file. A
      thread that is still reading has its bytes from that one file. */
  lemma AccessesAreAtomic(run: seq<State>, moves: seq<Move>, n: nat)
    requires IsRun(run, moves) && n < |run|
    ensures exists settled ::
              && Explains(run[0].file, run[n].log, settled) && |settled| == |run[0].file|
              && (Quiet(run[n].s) ==> run[n].file == settled)
              && forall t | 0 <= t < |run[n].s.threads| && t < |run[n].access| && run[n].s.threads[t].pc == RW.Reading ::
                   HasPartOf(run[n].access[t], settled)
  {
    hide IsRun, Explains, RW.Inv, Overwritten, BlockAt;
    var settled := ReachableOk(run, moves, n);
    ExplainsSize(run[0].file, run[n].log, settled);
    forall t | 0 <= t < |run[n].s.threads| && t < |run[n].access| && run[n].s.threads[t].pc == RW.Reading
      ensures HasPartOf(run[n].access[t], settled) {
      assert AccessOk(run[n].s.threads[t].pc, run[n].access[t], settled, run[n].file);
    }
  }

  lemma {:induction false} ExplainsSize(file: seq<byte>, log: seq<Event>, after: seq<byte>)
    requires Explains(file, log, after)
    ensures |after| == |file|
    decreases |log|
  {
    if log != [] { ExplainsSize(Apply(file, log[0]), log[1..], after); }
  }

  // ----- what was asked for is what was accessed -----

  /** Move `i` of a run gives thread `t` the permission for what `op` asks for. */
  ghost predicate Begins(run: seq<State>, moves: seq<Move>, i: nat, t: int, op: Op) {
    && i < |moves| && i + 1 < |run| && moves[i] == Move(t, Protocol(op))
    && 0 <= t < |run[i].s.threads| && t < |run[i + 1].s.threads|
    && !Inner(run[i].s.threads[t].pc) && Inner(run[i + 1].s.threads[t].pc)
  }

  /** From state `i` to state `n` thread `t` keeps its permission. */
  ghost predicate Stays(run: seq<State>, i: nat, n: nat, t: int) {
    i <= n < |run| && forall m | i <= m <= n :: 0 <= t < |run[m].s.threads| && Inner(run[m].s.threads[t].pc)
  }

  /** Move `n` takes the permission from thread `t`. */
  ghost predicate Ends(run: seq<State>, moves: seq<Move>, n: nat, t: int) {
    && n < |moves| && n + 1 < |run| && moves[n].thread == t && moves[n].action.Protocol?
    && 0 <= t < |run[n + 1].s.threads| && !Inner(run[n + 1].s.threads[t].pc)
  }

  /** No block is left for the thread to read or to write. */
  predicate AllDone(j: State, t: int) { !ReadsOn(j, t) && !WritesOn(j, t) }

  /** The access is the one asked for. */
  predicate AsAsked(pc: RW.Pc, a: Access, op: Op, length: nat) {
    && (pc == RW.Reading ==>
          && a.Reads?
          && if op.offset <= length then a.offset == op.offset && a.size == Least(op.size, length - op.offset) else a.size == 0)
    && (pc == RW.Writing ==>
          && a.Writes?
          && if op.offset <= length then a.offset == op.offset && a.data == op.data[..Least(|op.data|, length - op.offset)] else a.data == [])
  }

  lemma StepStays(j: State, u: int, action: Action, next: State, t: int, first: seq<byte>, settled: seq<byte>, op: Op, length: nat)
    requires Ok(j, first, settled) && Follows(j, u, action, next) && 0 <= t < |j.access| && t < |next.s.threads|
    requires Inner(j.s.threads[t].pc) && Inner(next.s.threads[t].pc) && AsAsked(j.s.threads[t].pc, j.access[t], op, length)
    ensures t < |next.access| && AsAsked(next.s.threads[t].pc, next.access[t], op, length)
    ensures next.s.threads[t].pc == j.s.threads[t].pc && (action.Protocol? ==> u != t)
  {
    hide RW.Inv, RW.Step, Explains, BlockAt, Overwritten;
    if action.Protocol? { StepPlaces(j.s, u); }
  }

  lemma LengthKept(run: seq<State>, moves: seq<Move>, n: nat)
    requires IsRun(run, moves) && n < |run|
    ensures |run[n].file| == |run[0].file|
  {
    var settled := ReachableOk(run, moves, n);
    ExplainsSize(run[0].file, run[n].log, settled);
  }

  lemma BeginsAsAsked(run: seq<State>, moves: seq<Move>, i: nat, t: int, op: Op)
    requires IsRun(run, moves) && Begins(run, moves, i, t, op)
    ensures t < |run[i + 1].access| && AsAsked(run[i + 1].s.threads[t].pc, run[i + 1].access[t], op, |run[0].file|)
  {
    hide RW.Inv, RW.Step, RW.Enabled, Explains, BlockAt, Overwritten;
    LengthKept(run, moves, i);
    assert Follows(run[i], moves[i].thread, moves[i].action, run[i + 1]);
  }

  lemma {:induction false} StaysAsAsked(run: seq<State>, moves: seq<Move>, i: nat, n: nat, t: int, op: Op)
    requires IsRun(run, moves) && Begins(run, moves, i, t, op) && Stays(run, i + 1, n, t)
    ensures t < |run[n].access| && AsAsked(run[n].s.threads[t].pc, run[n].access[t], op, |run[0].file|)
    ensures run[n].s.threads[t].pc == run[i + 1].s.threads[t].pc
    decreases n
  {
    hide AsAsked, Follows, Initial, Inner, Ok;
    if n == i + 1 {
      BeginsAsAsked(run, moves, i, t, op);
    } else {
      StaysAsAsked(run, moves, i, n - 1, t, op);
      var settled := ReachableOk(run, moves, n - 1);
      assert Follows(run[n - 1], moves[n - 1].thread, moves[n - 1].action, run[n]);
      StepStays(run[n - 1], moves[n - 1].thread, moves[n - 1].action, run[n], t, run[0].file, settled, op, |run[0].file|);
    }
  }

  /** What the log gains when a thread ends what it began with `op`: the bytes of the file from `op.offset` on, or as
      much of its data stored there; all that was asked for and is within the file, if no block is left to do. */
  ghost predicate Answers(e: Event, t: int, op: Op, pc: RW.Pc, settled: seq<byte>, complete: bool) {
    var room := if op.offset <= |settled| then |settled| - op.offset else 0;
    if pc == RW.Reading then
      && e.DidRead? && e.thread == t && |e.bytes| <= Least(op.size, room) && (complete ==> |e.bytes| == Least(op.size, room))
      && (op.offset <= |settled| ==> e.offset == op.offset && e.bytes == settled[op.offset..op.offset + |e.bytes|])
    else
      && e.DidWrite? && e.thread == t && |e.data| <= Least(|op.data|, room) && e.data == op.data[..|e.data|]
      && (complete ==> |e.data| == Least(|op.data|, room)) && (op.offset <= |settled| ==> e.offset == op.offset)
  }

  /** In every run: when a thread ends the access it began with `op`, just that access joins the log, with the offset
      asked for, and `settled` is what the accesses before it leave. */
  lemma AsAskedOverRuns(run: seq<State>, moves: seq<Move>, i: nat, n: nat, t: int, op: Op)
    requires IsRun(run, moves) && Begins(run, moves, i, t, op) && Stays(run, i + 1, n, t) && Ends(run, moves, n, t)
    ensures exists settled, e ::
              && Explains(run[0].file, run[n].log, settled)
              && run[n + 1].log == run[n].log + [e]
              && Answers(e, t, op, run[i + 1].s.threads[t].pc, settled, AllDone(run[n], t))
  {
    hide RW.Inv, RW.Step, RW.Enabled, Explains, BlockAt, Overwritten, IsRun;
    StaysAsAsked(run, moves, i, n, t, op);
    LengthKept(run, moves, n);
    var settled := ReachableOk(run, moves, n);
    var j := run[n];
    assert AccessOk(j.s.threads[t].pc, j.access[t], settled, j.file);
    MoveFollows(run, moves, n);
    var e := Finished(t, j.access[t])[0];
    assert run[n + 1].log == j.log + [e];
    assert Answers(e, t, op, j.s.threads[t].pc, settled, AllDone(j, t));
  }

  lemma MoveFollows(run: seq<State>, moves: seq<Move>, n: nat)
    requires IsRun(run, moves) && n < |moves|
    ensures Follows(run[n], moves[n].thread, moves[n].action, run[n + 1])
  {
  }
}
