/** The system call that moves the end of the heap (`syscall_handle_memlimit`). How far the heap reaches is kept in one
    static variable, `offset`, for all processes. */
module Memlimit {
  import opened Sequences
  import opened PagePool
  import opened PageTable
  import opened ProcessLife
  import opened ProcessPages

  const STACK_BOTTOM := 0x7fff_e000

  function Word(x: int): nat { x % 0x1_0000_0000 }

  /** The page of the present end of the heap. */
  function PageNow(heap: nat, offset: nat): nat { Word(heap + offset) / 4096 }

  /** `can_be_mapped`: enough entries whatever the pairs, and none of the pages is mapped. */
  predicate CanBeMapped(v: Virtual, n: nat, page: nat) {
    n <= PAGETABLE_ENTRIES - |v.pairs| && forall p | page <= p < page + n :: p !in v.mapped
  }

  function Grow(page: nat, n: nat): seq<Request> { seq(n, i requires 0 <= i < n => MapAt((page + 1 + i) * 4096)) }

  function Shrink(page: nat, n: nat): seq<Request>
    requires n <= page
  {
    seq(n, i requires 0 <= i < n => UnmapAt((page - i) * 4096))
  }

  predicate InRange(heap: nat, end: nat) { heap <= end < STACK_BOTTOM }

  /** The call refuses to grow the heap when `can_be_mapped` says yes. */
  predicate Refused(v: Virtual, offset: nat, heap: nat, end: nat) {
    var n := end / 4096 - PageNow(heap, offset);
    !InRange(heap, end) || (n > 0 && (n > v.free || CanBeMapped(v, n, PageNow(heap, offset))))
  }

  /** What a call asks of the page table. */
  function Asks(v: Virtual, offset: nat, heap: nat, end: nat): seq<Request> {
    var page, last := PageNow(heap, offset), end / 4096;
    if end == 0 || Refused(v, offset, heap, end) then [] else if last > page then Grow(page, last - page) else Shrink(page, page - last)
  }

  function OffsetAfter(v: Virtual, offset: nat, heap: nat, end: nat): nat {
    if end == 0 || Refused(v, offset, heap, end) then offset else Word(offset + (end - Word(heap + offset)))
  }

  function After(v: Virtual, offset: nat, heap: nat, end: nat): Virtual { ServeAll(v, Asks(v, offset, heap, end)) }

  lemma OffsetIs(v: Virtual, offset: nat, heap: nat, end: nat)
    requires offset < STACK_BOTTOM
    ensures OffsetAfter(v, offset, heap, end) == (if end == 0 || Refused(v, offset, heap, end) then offset else end - heap) < STACK_BOTTOM
    ensures end != 0 && !Refused(v, offset, heap, end) ==> PageNow(heap, offset) == (heap + offset) / 4096
  {
    hide CanBeMapped;
  }

  // ----- one call -----

  predicate Between(p: int, above: int, upTo: int) { above < p <= upTo }

  lemma ShrinkSnoc(v: Virtual, page: nat, n: nat)
    requires n < page
    ensures ServeAll(v, Shrink(page, n + 1)) == UnmapPage(ServeAll(v, Shrink(page, n)), page - n)
  {
    assert Shrink(page, n + 1) == Shrink(page, n) + [UnmapAt((page - n) * 4096)];
    ServeSnoc(v, Shrink(page, n), UnmapAt((page - n) * 4096));
  }

  lemma GrowSnoc(v: Virtual, page: nat, n: nat)
    ensures ServeAll(v, Grow(page, n + 1)) == MapPage(ServeAll(v, Grow(page, n)), page + 1 + n)
  {
    assert Grow(page, n + 1) == Grow(page, n) + [MapAt((page + 1 + n) * 4096)];
    ServeSnoc(v, Grow(page, n), MapAt((page + 1 + n) * 4096));
  }

  /** Shrinking unmaps exactly the pages above the new end, and hands back a stale frame number exactly when one of
      them is not mapped while its pair has an entry. */
  lemma {:induction false} ShrinkIs(v: Virtual, page: nat, n: nat)
    requires n <= page
    ensures var w := ServeAll(v, Shrink(page, n));
            && (forall q :: q in w.mapped <==> q in v.mapped && !Between(q, page - n, page))
            && w.pairs == v.pairs && w.lost == v.lost && w.stale >= v.stale
            && (w.stale > v.stale <==> exists q :: Between(q, page - n, page) && Stale(v, q))
  {
    hide ServeAll, Shrink;
    if n == 0 {
      NothingServed(v, page);
    } else {
      ShrinkIs(v, page, n - 1);
      ShrinkSnoc(v, page, n - 1);
      var w := ServeAll(v, Shrink(page, n - 1));
      var low := page - n;
      assert forall q :: Between(q, low, page) <==> q == low + 1 || Between(q, low + 1, page);
      assert Stale(w, page - n + 1) <==> Stale(v, page - n + 1);
    }
  }

  lemma NothingServed(v: Virtual, page: nat)
    ensures ServeAll(v, Shrink(page, 0)) == v == ServeAll(v, Grow(page, 0))
  {
  }

  /** Growing with enough pages maps every new page, but those for whose pair there is no entry left. */
  lemma {:induction false} GrowIs(v: Virtual, page: nat, n: nat)
    requires n <= v.free
    ensures var w := ServeAll(v, Grow(page, n));
            && v.mapped <= w.mapped && v.pairs <= w.pairs && w.stale == v.stale && w.lost >= v.lost && w.free == v.free - n
            && forall q | Between(q, page, page + n) :: q in w.mapped || (|w.pairs| >= PAGETABLE_ENTRIES && q / 2 !in w.pairs)
  {
    hide ServeAll, Grow;
    if n == 0 {
      NothingServed(v, page);
    } else {
      GrowIs(v, page, n - 1);
      GrowSnoc(v, page, n - 1);
      var w := ServeAll(v, Grow(page, n - 1));
      var high := page + n;
      assert forall q :: Between(q, page, high) <==> q == high || Between(q, page, high - 1);
      if CanMap(w, page + n) && |w.pairs| >= PAGETABLE_ENTRIES { assert w.pairs + {(page + n) / 2} == w.pairs; }
    }
  }

  /** Whatever the offset, a call hands back a stale frame number if and only if it is not refused and some page above
      the new end, up to where the offset says the heap ends, is not mapped while its pair has an entry. */
  lemma CallStaleIff(v: Virtual, offset: nat, heap: nat, end: nat)
    ensures After(v, offset, heap, end).stale >= v.stale
    ensures After(v, offset, heap, end).stale > v.stale
            <==> end != 0 && !Refused(v, offset, heap, end) && exists q :: Between(q, end / 4096, PageNow(heap, offset)) && Stale(v, q)
  {
    hide CanBeMapped, PageNow, ServeAll, Shrink, Grow;
    var page, last := PageNow(heap, offset), end / 4096;
    if end == 0 || Refused(v, offset, heap, end) {
      NothingAsked(v);
    } else if last > page {
      GrowIs(v, page, last - page);
    } else {
      ShrinkIs(v, page, page - last);
    }
  }

  lemma NothingAsked(v: Virtual)
    ensures ServeAll(v, []) == v
  {
  }

  /** All pages of the heap, from its first one to the one it ends on, are mapped. */
  predicate HeapMapped(v: Virtual, heap: nat, offset: nat) {
    forall q | heap / 4096 <= q <= (heap + offset) / 4096 :: q in v.mapped
  }

  /** When the offset is the process's own, a call hands back no stale frame number, the heap keeps all its pages unless
      the table has no entry for one, and the call is refused exactly outside the heap's range or for want of pages: that
      the answer of `can_be_mapped` is taken the wrong way round does no harm, because it is asked about a page too low. */
  lemma OwnOffset(v: Virtual, offset: nat, heap: nat, end: nat)
    requires offset < STACK_BOTTOM && heap < 0x1_0000_0000 && HeapMapped(v, heap, offset)
    ensures var w := After(v, offset, heap, end);
            && w.stale == v.stale && v.pairs <= w.pairs
            && (HeapMapped(w, heap, OffsetAfter(v, offset, heap, end)) || |w.pairs| >= PAGETABLE_ENTRIES)
    ensures Refused(v, offset, heap, end)
            <==> !InRange(heap, end) || (var n := end / 4096 - PageNow(heap, offset); n > 0 && n > v.free)
  {
    hide ServeAll, Shrink, Grow, PageNow;
    var page, last := PageNow(heap, offset), end / 4096;
    OffsetIs(v, offset, heap, end);
    if InRange(heap, end) {
      PageNowIs(heap, offset);
      assert page in v.mapped;
    }
    if end == 0 || Refused(v, offset, heap, end) {
      NothingAsked(v);
    } else if last > page {
      GrowIs(v, page, last - page);
      var w := After(v, offset, heap, end);
      forall q | heap / 4096 <= q <= last && |w.pairs| < PAGETABLE_ENTRIES ensures q in w.mapped {
        if q <= page { assert q in v.mapped; } else { assert Between(q, page, last); }
      }
    } else {
      ShrinkIs(v, page, page - last);
      forall q | Between(q, last, page) ensures q in v.mapped && !Stale(v, q) {}
      forall q | heap / 4096 <= q <= last ensures q in v.mapped && !Between(q, last, page) {}
    }
  }

  lemma PageNowIs(heap: nat, offset: nat)
    requires heap < STACK_BOTTOM && offset < STACK_BOTTOM
    ensures PageNow(heap, offset) == (heap + offset) / 4096 >= heap / 4096
  {
  }

  // ----- all calls of a process -----

  /** The requests of a sequence of calls, when the offset is the process's own. */
  function AllAsks(v: Virtual, offset: nat, heap: nat, ends: seq<nat>): seq<Request>
    decreases |ends|
  {
    if ends == [] then []
    else
      Asks(v, offset, heap, ends[0])
      + AllAsks(After(v, offset, heap, ends[0]), OffsetAfter(v, offset, heap, ends[0]), heap, ends[1..])
  }

  lemma {:induction false} ServeConcat(v: Virtual, a: seq<Request>, b: seq<Request>)
    ensures ServeAll(v, a + b) == ServeAll(ServeAll(v, a), b)
    decreases |a|
  {
    if a == [] {
      assert a + b == b;
    } else {
      assert (a + b)[1..] == a[1..] + b;
      ServeConcat(ServeOne(v, a[0]), a[1..], b);
    }
  }

  lemma {:induction false} OwnOffsetRuns(v: Virtual, offset: nat, heap: nat, ends: seq<nat>)
    requires offset < STACK_BOTTOM && heap < 0x1_0000_0000 && HeapMapped(v, heap, offset)
    ensures var w := ServeAll(v, AllAsks(v, offset, heap, ends));
            v.pairs <= w.pairs && (|w.pairs| < PAGETABLE_ENTRIES ==> w.stale == v.stale && heap / 4096 in w.mapped)
    decreases |ends|
  {
    hide ServeAll, HeapMapped, Asks, OffsetAfter, After, Refused;
    if ends == [] {
      NothingAsked(v);
      FirstPage(v, heap, offset);
    } else {
      OwnOffset(v, offset, heap, ends[0]);
      OffsetIs(v, offset, heap, ends[0]);
      var w, next := After(v, offset, heap, ends[0]), OffsetAfter(v, offset, heap, ends[0]);
      ServeConcat(v, Asks(v, offset, heap, ends[0]), AllAsks(w, next, heap, ends[1..]));
      AfterIs(v, offset, heap, ends[0]);
      if HeapMapped(w, heap, next) {
        OwnOffsetRuns(w, next, heap, ends[1..]);
      } else {
        PairsStay(w, AllAsks(w, next, heap, ends[1..]));
        CardinalityMonotone(w.pairs, ServeAll(w, AllAsks(w, next, heap, ends[1..])).pairs);
      }
    }
  }

  lemma AfterIs(v: Virtual, offset: nat, heap: nat, end: nat)
    ensures After(v, offset, heap, end) == ServeAll(v, Asks(v, offset, heap, end))
  {
  }

  lemma FirstPage(v: Virtual, heap: nat, offset: nat)
    requires HeapMapped(v, heap, offset)
    ensures heap / 4096 in v.mapped
  {
  }

  lemma {:induction false} PairsStay(v: Virtual, requests: seq<Request>)
    ensures v.pairs <= ServeAll(v, requests).pairs
    decreases |requests|
  {
    if requests != [] { PairsStay(ServeOne(v, requests[0]), requests[1..]); }
  }

  /** The table when a process starts to run. */
  function Running(free: nat, image: seq<nat>, heap: nat): Virtual {
    MapPage(MapWhile(Start(free - 1), PagesOf(image)).0, heap / 4096)
  }

  /** A process that is the only one to have moved its heap's end hands back no stale frame number in its whole life, as
      long as its page table does not fill up. */
  lemma OwnOffsetLife(free: nat, image: seq<nat>, left: nat, heap: nat, ends: seq<nat>)
    requires heap < 0x1_0000_0000
    requires LifeOf(free, image, left, heap, true, []).fate == Exited
    ensures var start := Running(free, image, heap);
            var later := AllAsks(start, 0, heap, ends);
            |ServeAll(start, later).pairs| < PAGETABLE_ENTRIES ==> LifeOf(free, image, left, heap, true, later).stale == 0
  {
    hide MapWhile, ServeAll, AllAsks;
    var start := Running(free, image, heap);
    MapWhileKeepsStale(Start(free - 1), PagesOf(image));
    assert HeapMapped(start, heap, 0);
    OwnOffsetRuns(start, 0, heap, ends);
  }

  lemma {:induction false} MapWhileKeepsStale(v: Virtual, vps: seq<int>)
    ensures MapWhile(v, vps).0.stale == v.stale
    decreases |vps|
  {
    if vps != [] { MapWhileKeepsStale(MapPage(v, vps[0]), vps[1..]); }
  }

  /** The offset is not the process's own: after another process has grown its heap by a page, one with a heap page at
      0x8000 sets its heap's end to where it is, and the page above is unmapped although it was never mapped. */
  lemma ForeignOffsetExample()
    ensures var start := Running(9, [], 0x8000);
            var later := Asks(start, 4096, 0x8000, 0x8000);
            later == [UnmapAt(0x9000)] && LifeOf(9, [], 0, 0x8000, true, later) == Life(Exited, 0, 1)
  {
    var start := Running(9, [], 0x8000);
    assert PagesOf([]) == [];
    assert start == Virtual({8}, {4}, 7, 0, 0);
    var later := Asks(start, 4096, 0x8000, 0x8000);
    assert later == [UnmapAt(0x9000)];
    assert later[1..] == [];
    assert ServeAll(start, later) == ServeOne(start, UnmapAt(0x9000)) == Virtual({8}, {4}, 8, 0, 1);
  }

  // ----- the call in place -----

  predicate Vacant(es: seq<Entry>, page: nat, n: nat) { forall p | page <= p < page + n :: !Lookup(es, p).Mapped? }

  /** `can_be_mapped`. */
  method LooksMappable(t: Table, n: nat, page: nat) returns (r: bool)
    requires t.Valid()
    ensures r <==> n <= PAGETABLE_ENTRIES - |t.Es()| && Vacant(t.Es(), page, n)
  {
    hide Lookup;
    if n > PAGETABLE_ENTRIES - t.validCount {
      return false;
    }
    var j := 0;
    while j < n
      invariant 0 <= j <= n && Vacant(t.Es(), page, j)
    {
      var i := 0;
      while i < t.validCount
        invariant 0 <= i <= t.validCount
        invariant forall k | 0 <= k < i && t.entries[k].vpn2 == (page + j) / 2 :: !Half(t.entries[k], Odd(page + j)).Mapped?
      {
        if t.entries[i].vpn2 == (page + j) / 2 && Half(t.entries[i], Odd(page + j)).Mapped? {
          LookupAt(t.Es(), i, page + j);
          return false;
        }
        i := i + 1;
      }
      NoneMapped(t.Es(), page + j);
      j := j + 1;
    }
    return true;
  }

  lemma NoneMapped(es: seq<Entry>, vp: int)
    requires Unique(es) && forall k | 0 <= k < |es| && es[k].vpn2 == vp / 2 :: !Half(es[k], Odd(vp)).Mapped?
    ensures !Lookup(es, vp).Mapped?
  {
    hide Lookup;
    if k :| 0 <= k < |es| && es[k].vpn2 == vp / 2 { LookupAt(es, k, vp); } else { LookupNone(es, vp); }
  }

  lemma MappableIs(v: Virtual, base: set<int>, out: set<int>, es: seq<Entry>, page: int, numFree: int, n: nat, first: nat)
    requires Unique(es) && Tracks(v, base, out, es, page, numFree)
    ensures v.free == numFree
    ensures CanBeMapped(v, n, first) <==> n <= PAGETABLE_ENTRIES - |es| && Vacant(es, first, n)
  {
    hide Holds, Frames, Pairs;
    PairsSize(es);
    assert forall p :: p in v.mapped <==> Lookup(es, p).Mapped?;
  }

  /** The kernel refuses: the end is not in the heap's range, or there are pages to map and too few of them free, or
      the table looks as if all of them could be mapped. */
  predicate Refuses(es: seq<Entry>, numFree: int, offset: nat, heap: nat, end: nat) {
    var page := Word(heap + offset) / 4096;
    var n := end / 4096 - page;
    || end < heap || end >= STACK_BOTTOM
    || (n > 0 && (n > numFree || (n <= PAGETABLE_ENTRIES - |es| && Vacant(es, page, n))))
  }

  lemma RefusesIs(v: Virtual, base: set<int>, out: set<int>, es: seq<Entry>, page: int, numFree: int, offset: nat, heap: nat, end: nat)
    requires Unique(es) && Tracks(v, base, out, es, page, numFree)
    ensures Refused(v, offset, heap, end) <==> Refuses(es, numFree, offset, heap, end)
  {
    hide Tracks, Unique, Vacant, CanBeMapped;
    var now, last := PageNow(heap, offset), end / 4096;
    if last > now { MappableIs(v, base, out, es, page, numFree, last - now, now); }
  }

  /** `syscall_handle_memlimit` of a process with its heap at `heap`. */
  method MoveEnd(pool: Pool, t: Table, offset: nat, heap: nat, end: nat, ghost v: Virtual, ghost base: set<int>)
    returns (result: nat, offsetAfter: nat, stopped: bool)
    requires pool.Valid() && pool.staticEnd > 0 && t.Valid() && Tracks(v, base, pool.out, t.Es(), t.page, pool.numFree)
    modifies pool, pool.freePages, t`validCount, t.entries
    ensures pool.Valid() && t.Valid()
    ensures if stopped then After(v, offset, heap, end).stale > 0
            else
              && Tracks(After(v, offset, heap, end), base, pool.out, t.Es(), t.page, pool.numFree)
              && offsetAfter == OffsetAfter(v, offset, heap, end)
    ensures end == 0 ==> result == (heap + offset) % 0x1_0000_0000
    ensures !stopped && end != 0 ==> result == if old(Refuses(t.Es(), pool.numFree, offset, heap, end)) then 0 else end
    ensures end == 0 || old(Refuses(t.Es(), pool.numFree, offset, heap, end)) ==>
              !stopped && offsetAfter == offset && pool.out == old(pool.out) && pool.numFree == old(pool.numFree) && t.Es() == old(t.Es())
  {
    hide PoolOk, Tracks, Maps, Frames, Lookup, WithoutPage, UnmapFrees, Release, Unique, CanMap, MapPage, UnmapPage, CanBeMapped,
      ServeAll, Shrink, Grow, Vacant;
    var now := Word(heap + offset);
    var page, last := now / 4096, end / 4096;
    NothingAsked(v);
    if end == 0 {
      return now, offset, false;
    }
    if end >= STACK_BOTTOM || end < heap {
      return 0, offset, false;
    }
    if last > page {
      MappableIs(v, base, pool.out, t.Es(), t.page, pool.numFree, last - page, page);
      var can := LooksMappable(t, last - page, page);
      if last - page > pool.numFree || can {
        return 0, offset, false;
      }
      MapAbove(pool, t, page, last - page, v, base);
    } else {
      stopped := UnmapDown(pool, t, page, page - last, v, base);
      if stopped {
        return 0, offset, true;
      }
    }
    return end, Word(offset + (end - now)), false;
  }

  /** Asks where the heap ends, moves its end, and asks again: a move that succeeds answers the end asked for, and that is
      where the heap ends from then on; one that is refused answers zero and changes nothing. */
  method MoveAndAsk(pool: Pool, t: Table, offset: nat, heap: nat, end: nat, ghost v: Virtual, ghost base: set<int>)
    returns (before: nat, answer: nat, now: nat, offsetAfter: nat, stopped: bool)
    requires pool.Valid() && pool.staticEnd > 0 && t.Valid() && Tracks(v, base, pool.out, t.Es(), t.page, pool.numFree)
    requires offset < STACK_BOTTOM && end != 0
    modifies pool, pool.freePages, t`validCount, t.entries
    ensures pool.Valid() && t.Valid() && offsetAfter < STACK_BOTTOM
    ensures !stopped ==> (answer == 0 <==> old(Refuses(t.Es(), pool.numFree, offset, heap, end)))
    ensures !stopped && answer != 0 ==> answer == end == now
    ensures !stopped && answer == 0 ==>
              now == before && offsetAfter == offset && pool.out == old(pool.out) && pool.numFree == old(pool.numFree) && t.Es() == old(t.Es())
  {
    hide PoolOk, Tracks, Vacant, Unique, ServeAll, CanBeMapped;
    RefusesIs(v, base, pool.out, t.Es(), t.page, pool.numFree, offset, heap, end);
    NothingAsked(v);
    OffsetIs(v, offset, heap, end);
    before, offsetAfter, stopped := MoveEnd(pool, t, offset, heap, 0, v, base);
    answer, offsetAfter, stopped := MoveEnd(pool, t, offset, heap, end, v, base);
    if stopped {
      return before, 0, 0, offset, true;
    }
    ghost var w := After(v, offset, heap, end);
    NothingAsked(w);
    now, offsetAfter, stopped := MoveEnd(pool, t, offsetAfter, heap, 0, w, base);
  }

  /** The loop that maps pages. */
  method MapAbove(pool: Pool, t: Table, page: nat, n: nat, ghost v: Virtual, ghost base: set<int>)
    requires pool.Valid() && pool.staticEnd > 0 && t.Valid() && Tracks(v, base, pool.out, t.Es(), t.page, pool.numFree)
    modifies pool, pool.freePages, t`validCount, t.entries
    ensures pool.Valid() && t.Valid()
    ensures Tracks(ServeAll(v, Grow(page, n)), base, pool.out, t.Es(), t.page, pool.numFree)
  {
    hide PoolOk, Tracks, Maps, Frames, Lookup, Unique, CanMap, MapPage, ServeAll, Grow;
    NothingServed(v, page);
    var i := 0;
    while i < n
      invariant 0 <= i <= n && pool.Valid() && t.Valid()
      invariant Tracks(ServeAll(v, Grow(page, i)), base, pool.out, t.Es(), t.page, pool.numFree)
    {
      GrowSnoc(v, page, i);
      var ok := GetAndMap(pool, t, (page + 1 + i) * 4096, ServeAll(v, Grow(page, i)), base);
      i := i + 1;
    }
  }

  /** The loop that unmaps pages, until one of the kernel's assertions stops it. */
  method UnmapDown(pool: Pool, t: Table, page: nat, n: nat, ghost v: Virtual, ghost base: set<int>) returns (stopped: bool)
    requires n <= page && pool.Valid() && t.Valid() && Tracks(v, base, pool.out, t.Es(), t.page, pool.numFree)
    modifies pool, pool.freePages, t.entries
    ensures pool.Valid() && t.Valid()
    ensures if stopped then ServeAll(v, Shrink(page, n)).stale > 0
            else Tracks(ServeAll(v, Shrink(page, n)), base, pool.out, t.Es(), t.page, pool.numFree)
  {
    hide PoolOk, Tracks, Frames, Lookup, WithoutPage, UnmapFrees, Release, Unique, UnmapPage, ServeAll, Shrink;
    NothingServed(v, page);
    var i := 0;
    while i < n
      invariant 0 <= i <= n && pool.Valid() && t.Valid()
      invariant Tracks(ServeAll(v, Shrink(page, i)), base, pool.out, t.Es(), t.page, pool.numFree)
    {
      ShrinkSnoc(v, page, i);
      stopped := Unmap(pool, t, (page - i) * 4096, ServeAll(v, Shrink(page, i)), base);
      if stopped {
        MoreIsStale(v, page, i + 1, n);
        return;
      }
      i := i + 1;
    }
    stopped := false;
  }

  lemma {:induction false} MoreIsStale(v: Virtual, page: nat, i: nat, n: nat)
    requires i <= n <= page && ServeAll(v, Shrink(page, i)).stale > 0
    ensures ServeAll(v, Shrink(page, n)).stale > 0
  {
    hide ServeAll, Shrink;
    if i < n {
      MoreIsStale(v, page, i, n - 1);
      ShrinkSnoc(v, page, n - 1);
    }
  }
}
