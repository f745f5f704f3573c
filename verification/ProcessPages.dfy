/** The pages of a process from the creation of its page table to its exit (`proc/process.c`,
    `proc/syscall_handler_proc.c`): whose they are at every moment, and which of them come back. */
module ProcessPages {
  import opened Sequences
  import opened PagePool
  import opened PageTable
  import opened ProcessLife

  /** The pages that are out are `base`, which others answer for, and the process's own, all different. */
  ghost predicate Holds(out: set<int>, base: set<int>, es: seq<Entry>, page: int) {
    var mine := Belongings(es, page);
    Distinct(mine) && out == base + Members(mine) && base !! Members(mine)
  }

  lemma HoldsOwns(out: set<int>, base: set<int>, es: seq<Entry>, page: int)
    requires Holds(out, base, es, page)
    ensures Owns(out, es, page) && out - Members(Belongings(es, page)) == base
  {
    hide Distinct, Frames;
    forall p | p in Belongings(es, page) ensures p in out { assert p in Members(Belongings(es, page)); }
  }

  /** A new table owns its own page. */
  lemma HoldsAtFirst(base: set<int>, page: int)
    requires page !in base
    ensures Holds(base + {page}, base, [], page)
  {
    assert Belongings([], page) == [page];
  }

  /** Mapping a page that was not out makes it the process's. */
  lemma HoldsMore(out: set<int>, base: set<int>, es: seq<Entry>, after: seq<Entry>, page: int, p: int)
    requires Holds(out, base, es, page) && p !in out && multiset(Frames(after)) == multiset(Frames(es)) + multiset{p}
    ensures Holds(out + {p}, base, after, page)
  {
    hide Distinct, Frames;
    var mine, more := Belongings(es, page), [p] + Belongings(es, page);
    assert p !in Members(mine);
    assert more[1..] == mine;
    DistinctCons(more);
    assert multiset(more) == multiset(Belongings(after, page));
    DistinctByMultiset(more, Belongings(after, page));
    assert Members(more) == Members(mine) + {p};
  }

  lemma HeapOkIs(es: seq<Entry>, vp: int)
    requires Unique(es)
    ensures HeapOk(es, vp) <==> Lookup(es, vp).Mapped? || vp / 2 !in Pairs(es)
    ensures |UnmapFrees(es, vp)| == if vp / 2 in Pairs(es) then 1 else 0
    ensures Lookup(es, vp).Mapped? ==> vp / 2 in Pairs(es)
  {
    hide Lookup, UnmapFrees;
    if vp / 2 in Pairs(es) {
      var i :| 0 <= i < |es| && es[i].vpn2 == vp / 2;
      LookupAt(es, i, vp);
      HeapOkAt(es, vp, i);
      OneToUnmap(es, vp, i);
    } else {
      forall i | 0 <= i < |es| ensures es[i].vpn2 != vp / 2 { assert es[i].vpn2 in Pairs(es); }
      LookupNone(es, vp);
      NothingToUnmap(es, vp);
    }
  }

  lemma HeapOkAt(es: seq<Entry>, vp: int, e: int)
    requires Unique(es)
    requires if e == -1 then forall k | 0 <= k < |es| :: es[k].vpn2 != vp / 2 else 0 <= e < |es| && es[e].vpn2 == vp / 2
    ensures HeapOk(es, vp) <==> e == -1 || Half(es[e], Odd(vp)).Mapped?
  {
  }

  /** Unmapping gives up the process's own page, if anything, and leaves it the others, if and only if the page is
      mapped or its pair has no entry. */
  lemma UnmapKeepsIff(out: set<int>, base: set<int>, es: seq<Entry>, page: int, vp: int)
    requires Unique(es) && Holds(out, base, es, page)
    ensures (forall p | p in UnmapFrees(es, vp) :: p in out)
            && Holds(out - Members(UnmapFrees(es, vp)), base, WithoutPage(es, vp), page)
            <==> HeapOk(es, vp)
  {
    hide Distinct, Frames, UnmapFrees, WithoutPage, HeapOk, Unique;
    if HeapOk(es, vp) {
      UnmapKeeps(out, base, es, page, vp);
    } else {
      ExitSplit(es, vp);
      var stale := UnmapFrees(es, vp)[0];
      assert stale in Members(UnmapFrees(es, vp));
    }
  }

  lemma UnmapKeeps(out: set<int>, base: set<int>, es: seq<Entry>, page: int, vp: int)
    requires Unique(es) && Holds(out, base, es, page) && HeapOk(es, vp)
    ensures forall p | p in UnmapFrees(es, vp) :: p in out
    ensures Holds(out - Members(UnmapFrees(es, vp)), base, WithoutPage(es, vp), page)
  {
    hide Distinct, Frames, UnmapFrees, WithoutPage, HeapOk, Unique;
    HoldsOwns(out, base, es, page);
    ExitListOk(out, es, vp, page);
    var first, rest := UnmapFrees(es, vp), Belongings(WithoutPage(es, vp), page);
    assert Members(rest) <= out - Members(first) by {
      forall p | p in Members(rest) ensures p in out - Members(first) { assert p in rest; }
    }
    SplitMembers(es, vp, page);
    DisjointParts(out, base, es, vp, page);
  }

  lemma SplitMembers(es: seq<Entry>, vp: int, page: int)
    requires Unique(es) && HeapOk(es, vp)
    ensures Members(Belongings(es, page)) == Members(UnmapFrees(es, vp)) + Members(Belongings(WithoutPage(es, vp), page))
  {
    hide Distinct, Frames, UnmapFrees, WithoutPage, HeapOk, Unique;
    ExitSplit(es, vp);
    var mine, frees := Belongings(es, page), ExitFrees(es, vp, page);
    assert multiset(mine) == multiset(frees);
    forall x ensures x in mine <==> x in frees { assert x in multiset(mine) <==> x in multiset(frees); }
  }

  lemma DisjointParts(out: set<int>, base: set<int>, es: seq<Entry>, vp: int, page: int)
    requires Holds(out, base, es, page)
    requires var first, rest := Members(UnmapFrees(es, vp)), Members(Belongings(WithoutPage(es, vp), page));
             Members(Belongings(es, page)) == first + rest && rest <= out - first
    ensures var first, rest := Members(UnmapFrees(es, vp)), Members(Belongings(WithoutPage(es, vp), page));
            out - first == base + rest && base !! rest
  {
    hide Distinct, Frames, UnmapFrees, WithoutPage;
  }

  /** A page that is had from the pool but could not be mapped is nobody's: nothing ever gives it back. */
  lemma HoldsLeak(out: set<int>, base: set<int>, es: seq<Entry>, page: int, p: int)
    requires Holds(out, base, es, page) && p !in out
    ensures Holds(out + {p}, base + {p}, es, page)
  {
  }

  // ----- the addresses decide -----

  /** What the addresses and the number of free pages say is what the page table says. */
  ghost predicate Represents(v: Virtual, es: seq<Entry>, numFree: int) {
    (forall q :: q in v.mapped <==> Lookup(es, q).Mapped?) && v.pairs == Pairs(es) && v.free == numFree
  }

  /** The pages that are out and not the process's. */
  ghost function Others(out: set<int>, es: seq<Entry>, page: int): set<int> { out - Members(Belongings(es, page)) }

  /** As many pages are out as the count of mapped, lost and stale pages says; and unless a stale frame number has
      been handed back, the process's pages are its own and all pages of `base` are still out. */
  ghost predicate Tracks(v: Virtual, base: set<int>, out: set<int>, es: seq<Entry>, page: int, numFree: int) {
    var others := Others(out, es, page);
    && Represents(v, es, numFree) && |out| + v.stale == |base| + v.lost + |Frames(es)| + 1
    && (v.stale == 0 ==> Holds(out, others, es, page) && base <= others)
  }

  lemma TracksAtFirst(base: set<int>, page: int, numFree: int)
    requires page !in base
    ensures Tracks(Start(numFree), base, base + {page}, [], page, numFree)
  {
    hide Holds;
    HoldsAtFirst(base, page);
    HoldsOwns(base + {page}, base, [], page);
    assert Pairs([]) == {};
  }

  lemma CanMapIff(v: Virtual, es: seq<Entry>, numFree: int, vp: int)
    requires Unique(es) && Represents(v, es, numFree)
    ensures CanMap(v, vp) <==> numFree > 0 && Lookup(es, vp) == Unmapped && (|es| < PAGETABLE_ENTRIES || HasPair(es, vp / 2))
  {
    hide Lookup;
    PairsSize(es);
    PairsAre(es, vp / 2);
  }

  lemma PairsAre(es: seq<Entry>, v: int)
    ensures HasPair(es, v) <==> v in Pairs(es)
  {
  }

  lemma TracksMapped(v: Virtual, base: set<int>, out: set<int>, es: seq<Entry>, after: seq<Entry>, page: int, numFree: int, vp: int, p: int)
    requires Tracks(v, base, out, es, page, numFree) && p !in out && CanMap(v, vp)
    requires Maps(es, after, vp, Mapped(p, 1)) && multiset(Frames(after)) == multiset(Frames(es)) + multiset{p}
    requires Pairs(after) == Pairs(es) + {vp / 2}
    ensures Tracks(MapPage(v, vp), base, out + {p}, after, page, numFree - 1)
  {
    hide Holds, Frames, Lookup, Pairs;
    assert |multiset(Frames(after))| == |Frames(es)| + 1;
    if v.stale == 0 {
      var others := Others(out, es, page);
      HoldsMore(out, others, es, after, page, p);
      HoldsOwns(out + {p}, others, after, page);
    }
  }

  lemma TracksLost(v: Virtual, base: set<int>, out: set<int>, es: seq<Entry>, page: int, numFree: int, vp: int, p: int)
    requires Tracks(v, base, out, es, page, numFree) && p !in out && v.free > 0 && !CanMap(v, vp)
    ensures Tracks(MapPage(v, vp), base, out + {p}, es, page, numFree - 1)
  {
    hide Holds, Frames, Lookup, Pairs;
    if v.stale == 0 {
      var others := Others(out, es, page);
      HoldsBase(out, others, es, page);
      HoldsLeak(out, others, es, page, p);
      HoldsOwns(out + {p}, others + {p}, es, page);
    }
  }

  lemma HoldsBase(out: set<int>, base: set<int>, es: seq<Entry>, page: int)
    requires Holds(out, base, es, page)
    ensures base <= out
  {
  }

  lemma LookupWithout(es: seq<Entry>, vp: int, q: int)
    requires Unique(es)
    ensures Lookup(WithoutPage(es, vp), q).Mapped? <==> q != vp && Lookup(es, q).Mapped?
    ensures Pairs(WithoutPage(es, vp)) == Pairs(es)
  {
    hide Lookup;
    var after := WithoutPage(es, vp);
    UniqueWithout(es, vp);
    assert forall i | 0 <= i < |es| :: after[i].vpn2 == es[i].vpn2;
    SamePage(vp, q);
    if i :| 0 <= i < |es| && es[i].vpn2 == q / 2 {
      LookupAt(es, i, q);
      LookupAt(after, i, q);
    } else {
      LookupNone(es, q);
      LookupNone(after, q);
    }
  }

  /** What unmapping hands back, counted. */
  lemma UnmapCounts(v: Virtual, es: seq<Entry>, numFree: int, vp: int)
    requires Unique(es) && Represents(v, es, numFree)
    ensures HeapOk(es, vp) <==> !Stale(v, vp)
    ensures |UnmapFrees(es, vp)| == if Stale(v, vp) || vp in v.mapped then 1 else 0
    ensures |UnmapFrees(es, vp)| + |Frames(WithoutPage(es, vp))| == |Frames(es)| + if Stale(v, vp) then 1 else 0
    ensures Represents(UnmapPage(v, vp), WithoutPage(es, vp), numFree + |UnmapFrees(es, vp)|)
  {
    hide Frames, Lookup, Pairs, UnmapFrees, WithoutPage, HeapOk, Unique;
    HeapOkIs(es, vp);
    ExitSplit(es, vp);
    if HeapOk(es, vp) {
      assert |multiset(Frames(es))| == |multiset(UnmapFrees(es, vp)) + multiset(Frames(WithoutPage(es, vp)))|;
    }
    forall q ensures Lookup(WithoutPage(es, vp), q).Mapped? <==> q != vp && Lookup(es, q).Mapped? { LookupWithout(es, vp, q); }
    LookupWithout(es, vp, vp);
  }

  lemma TracksUnmapped(v: Virtual, base: set<int>, out: set<int>, es: seq<Entry>, page: int, numFree: int, vp: int)
    requires Unique(es) && Tracks(v, base, out, es, page, numFree)
    ensures match Release(out, UnmapFrees(es, vp))
            case Halted => UnmapPage(v, vp).stale > 0
            case Released(now) => Tracks(UnmapPage(v, vp), base, now, WithoutPage(es, vp), page, numFree + |UnmapFrees(es, vp)|)
  {
    hide Holds, Frames, Lookup, Pairs, UnmapFrees, WithoutPage, HeapOk, Unique, Release, Distinct, Represents;
    UnmapCounts(v, es, numFree, vp);
    ReleaseSize(out, UnmapFrees(es, vp));
    ReleaseIs(out, UnmapFrees(es, vp));
    OneOrNone(es, vp);
    if v.stale == 0 && !Stale(v, vp) {
      var others := Others(out, es, page);
      UnmapKeeps(out, others, es, page, vp);
      HoldsOwns(out - Members(UnmapFrees(es, vp)), others, WithoutPage(es, vp), page);
    }
  }

  // ----- a process's life -----

  /** `pagepool_get_phys_page` followed by `vm_map`, as process start and `memlimit` do it. A page that was had
      but could not be mapped is lost. */
  method GetAndMap(pool: Pool, t: Table, vaddr: nat, ghost v: Virtual, ghost base: set<int>) returns (ok: bool)
    requires pool.Valid() && pool.staticEnd > 0 && t.Valid() && Tracks(v, base, pool.out, t.Es(), t.page, pool.numFree)
    modifies pool, pool.freePages, t`validCount, t.entries
    ensures pool.Valid() && t.Valid()
    ensures ok <==> var es, vp := old(t.Es()), vaddr / 4096;
                    old(pool.numFree) > 0 && Lookup(es, vp) == Unmapped && (|es| < PAGETABLE_ENTRIES || HasPair(es, vp / 2))
    ensures if ok then Maps(old(t.Es()), t.Es(), vaddr / 4096, Lookup(t.Es(), vaddr / 4096)) else t.Es() == old(t.Es())
    ensures pool.numFree == old(pool.numFree) - if old(pool.numFree) > 0 then 1 else 0
    ensures Tracks(MapPage(v, vaddr / 4096), base, pool.out, t.Es(), t.page, pool.numFree)
    ensures ok <==> CanMap(v, vaddr / 4096)
  {
    hide PoolOk, Tracks, Maps, Frames, Lookup, Unique, Pairs;
    ghost var es, out, free, vp := t.Es(), pool.out, pool.numFree, vaddr / 4096;
    FreeCount(pool);
    TrackedCanMap(v, base, out, es, t.page, free, vp);
    var address := pool.Get();
    if address == 0 {
      NothingTaken(v, base, out, es, t.page, free, vp);
      return false;
    }
    var r := t.Map(address, vaddr, 1);
    if r < 0 {
      TracksLost(v, base, out, es, t.page, free, vp, address / 4096);
      return false;
    }
    TracksMapped(v, base, out, es, t.Es(), t.page, free, vp, address / 4096);
    MapsValue(es, t.Es(), vp, Mapped(address / 4096, 1));
    return true;
  }

  lemma TrackedCanMap(v: Virtual, base: set<int>, out: set<int>, es: seq<Entry>, page: int, numFree: int, vp: int)
    requires Unique(es) && Tracks(v, base, out, es, page, numFree) && |es| <= PAGETABLE_ENTRIES
    ensures v.free == numFree
    ensures CanMap(v, vp) <==> numFree > 0 && !Lookup(es, vp).Mapped? && (|es| != PAGETABLE_ENTRIES || HasPair(es, vp / 2))
  {
    hide Holds, Lookup, Pairs, Frames;
    CanMapIff(v, es, numFree, vp);
  }

  lemma NothingTaken(v: Virtual, base: set<int>, out: set<int>, es: seq<Entry>, page: int, numFree: int, vp: int)
    requires Tracks(v, base, out, es, page, numFree) && numFree == 0
    ensures Tracks(MapPage(v, vp), base, out, es, page, numFree)
  {
    hide Holds, Lookup, Pairs;
  }

  lemma MapsValue(es: seq<Entry>, after: seq<Entry>, vp: int, frame: Frame)
    requires Maps(es, after, vp, frame)
    ensures Lookup(after, vp) == frame
  {
  }

  /** `vm_unmap`, which does not look whether the page is mapped. */
  method Unmap(pool: Pool, t: Table, vaddr: nat, ghost v: Virtual, ghost base: set<int>) returns (stopped: bool)
    requires pool.Valid() && t.Valid() && Tracks(v, base, pool.out, t.Es(), t.page, pool.numFree)
    modifies pool, pool.freePages, t.entries
    ensures pool.Valid() && t.Valid()
    ensures Release(old(pool.out), UnmapFrees(old(t.Es()), vaddr / 4096)) == if stopped then Halted else Released(pool.out)
    ensures !stopped ==> t.Es() == WithoutPage(old(t.Es()), vaddr / 4096)
    ensures if stopped then UnmapPage(v, vaddr / 4096).stale > 0
            else Tracks(UnmapPage(v, vaddr / 4096), base, pool.out, t.Es(), t.page, pool.numFree)
  {
    hide PoolOk, Tracks, Frames, Lookup, UnmapFrees, WithoutPage, Unique, Release, UnmapPage;
    TracksUnmapped(v, base, pool.out, t.Es(), t.page, pool.numFree, vaddr / 4096);
    stopped := t.Unmap(pool, vaddr);
  }

  lemma OneOrNone(es: seq<Entry>, vp: int)
    requires Unique(es)
    ensures Distinct(UnmapFrees(es, vp))
  {
    hide UnmapFrees, Unique;
    ExitSplit(es, vp);
  }

  /** The loops of `process_start` over stack and segments: the first page that cannot be had or mapped ends
      them. */
  method MapImage(pool: Pool, t: Table, image: seq<nat>, ghost v: Virtual, ghost base: set<int>) returns (ok: bool)
    requires pool.Valid() && pool.staticEnd > 0 && t.Valid() && Tracks(v, base, pool.out, t.Es(), t.page, pool.numFree)
    modifies pool, pool.freePages, t`validCount, t.entries
    ensures pool.Valid() && t.Valid()
    ensures Tracks(MapWhile(v, PagesOf(image)).0, base, pool.out, t.Es(), t.page, pool.numFree)
    ensures ok <==> MapWhile(v, PagesOf(image)).1
  {
    hide PoolOk, Tracks, Maps, Frames, Lookup, PagesOf, Unique;
    ghost var w := v;
    assert image[0..] == image;
    var i := 0;
    while i < |image|
      invariant 0 <= i <= |image| && pool.Valid() && t.Valid() && Tracks(w, base, pool.out, t.Es(), t.page, pool.numFree)
      invariant MapWhile(w, PagesOf(image[i..])) == MapWhile(v, PagesOf(image))
    {
      PagesCons(image[i..]);
      ok := GetAndMap(pool, t, image[i], w, base);
      w := MapPage(w, image[i] / 4096);
      if !ok {
        return;
      }
      assert image[i..][1..] == image[i + 1..];
      i := i + 1;
    }
    ok := true;
  }

  lemma PagesCons(vaddrs: seq<nat>)
    requires vaddrs != []
    ensures PagesOf(vaddrs)[0] == vaddrs[0] / 4096 && PagesOf(vaddrs)[1..] == PagesOf(vaddrs[1..])
  {
  }

  /** Serves requests in order, until one of the kernel's assertions stops it. */
  method Serve(pool: Pool, t: Table, requests: seq<Request>, ghost v: Virtual, ghost base: set<int>) returns (stopped: bool)
    requires pool.Valid() && pool.staticEnd > 0 && t.Valid() && Tracks(v, base, pool.out, t.Es(), t.page, pool.numFree)
    modifies pool, pool.freePages, t`validCount, t.entries
    ensures pool.Valid() && t.Valid()
    ensures if stopped then ServeAll(v, requests).stale > 0
            else Tracks(ServeAll(v, requests), base, pool.out, t.Es(), t.page, pool.numFree)
  {
    hide PoolOk, Tracks, Maps, Frames, Lookup, WithoutPage, UnmapFrees, Release, Unique, CanMap, MapPage, UnmapPage;
    ghost var w := v;
    assert requests[0..] == requests;
    var i := 0;
    while i < |requests|
      invariant 0 <= i <= |requests| && pool.Valid() && t.Valid() && Tracks(w, base, pool.out, t.Es(), t.page, pool.numFree)
      invariant ServeAll(w, requests[i..]) == ServeAll(v, requests)
      decreases |requests| - i
    {
      ghost var next := ServeOne(w, requests[i]);
      assert requests[i..][1..] == requests[i + 1..];
      match requests[i] {
        case MapAt(vaddr) =>
          var ok := GetAndMap(pool, t, vaddr, w, base);
        case UnmapAt(vaddr) =>
          stopped := Unmap(pool, t, vaddr, w, base);
          if stopped {
            StaleStays(next, requests[i + 1..]);
            return;
          }
      }
      w := next;
      i := i + 1;
    }
    stopped := false;
  }

  lemma {:induction false} StaleStays(v: Virtual, requests: seq<Request>)
    requires v.stale > 0
    ensures ServeAll(v, requests).stale > 0
    decreases |requests|
  {
    if requests != [] { StaleStays(ServeOne(v, requests[0]), requests[1..]); }
  }

  /** What the clean-up of a failed start hands back, in order. */
  function RestoreFrees(es: seq<Entry>, heap: nat, page: int): seq<int> {
    if heap == 0 then Belongings(es, page) else ExitFrees(es, heap / 4096, page)
  }

  /** The page release of `restore_process_state`, with the heap address that the process entry holds. */
  method Restore(pool: Pool, t: Table, heap: nat) returns (stopped: bool)
    requires pool.Valid() && t.Valid()
    modifies pool, pool.freePages, t.entries
    ensures pool.Valid()
    ensures Release(old(pool.out), RestoreFrees(old(t.Es()), heap, t.page)) == if stopped then Halted else Released(pool.out)
  {
    hide PoolOk, Frames, UnmapFrees, WithoutPage, Unique, Release;
    if heap != 0 {
      ExitFreesParts(pool.out, t.Es(), heap / 4096, t.page);
      stopped := t.Unmap(pool, heap);
      if stopped {
        return;
      }
    }
    stopped := t.ReleaseAll(pool);
  }

  /** How the pool stands when a process has ended: `lost` pages more are out than at first, less one for each stale
      frame number; with none of these nobody else's page is touched. */
  ghost predicate Settled(base: set<int>, now: set<int>, lost: nat, stale: nat) {
    |now| + stale == |base| + lost && (stale == 0 ==> base <= now)
  }

  lemma ExitSettles(v: Virtual, base: set<int>, out: set<int>, es: seq<Entry>, page: int, numFree: int, heap: nat)
    requires Unique(es) && Tracks(v, base, out, es, page, numFree)
    ensures var w := UnmapPage(v, heap / 4096);
            match Release(out, ExitFrees(es, heap / 4096, page))
            case Halted => w.stale > 0
            case Released(now) => Settled(base, now, w.lost, w.stale)
  {
    hide Holds, Frames, Lookup, Pairs, UnmapFrees, WithoutPage, HeapOk, Unique, Release, Represents;
    UnmapCounts(v, es, numFree, heap / 4096);
    ReleaseSize(out, ExitFrees(es, heap / 4096, page));
    if v.stale == 0 && !Stale(v, heap / 4096) {
      HoldsOwns(out, Others(out, es, page), es, page);
      ExitReleasesIff(out, es, heap / 4096, page);
    }
  }

  lemma RestoreSettles(v: Virtual, base: set<int>, out: set<int>, es: seq<Entry>, page: int, numFree: int, heap: nat)
    requires Unique(es) && Tracks(v, base, out, es, page, numFree)
    ensures var w := CleanUp(v, heap);
            match Release(out, RestoreFrees(es, heap, page))
            case Halted => w.stale > 0
            case Released(now) => Settled(base, now, w.lost, w.stale)
  {
    hide Holds, Frames, Lookup, Pairs, Unique, Release, Represents, UnmapPage, ExitFrees, Distinct;
    if heap == 0 {
      ReleaseSize(out, Belongings(es, page));
      ReleaseIs(out, Belongings(es, page));
      if v.stale == 0 { HoldsOwns(out, Others(out, es, page), es, page); }
    } else {
      ExitSettles(v, base, out, es, page, numFree, heap);
    }
  }

  /** A process from its page table to its exit: the pages of its image, its heap page, whatever it maps and
      unmaps later, and the release of everything. What becomes of it is decided by the addresses and the number of
      free pages. If these do not make it hand back a stale frame number, no assertion of the kernel stops it, every
      page that was out still is, and of the others just the lost ones are. If they do, the kernel stops or has one
      page less out for each of them. */
  method RunProcess(pool: Pool, image: seq<nat>, left: nat, heap: nat, loads: bool, later: seq<Request>)
    returns (fate: Fate, stopped: bool)
    requires pool.Valid() && pool.staticEnd > 0
    modifies pool, pool.freePages
    ensures pool.Valid()
    ensures var life := LifeOf(old(pool.numFree), image, left, heap, loads, later);
            && (!stopped ==> fate == life.fate && |pool.out| + life.stale == |old(pool.out)| + life.lost)
            && (life.stale == 0 <==> !stopped && old(pool.out) <= pool.out && |pool.out| == |old(pool.out)| + life.lost)
            && (life.stale == 0 ==> (pool.out == old(pool.out) <==> life.lost == 0))
  {
    hide PoolOk, Tracks, Frames, Unique, Release, MapWhile, ServeAll, MapPage, UnmapPage, CleanUp, CanMap, PagesOf, Maps, Lookup, ExitFrees, RestoreFrees;
    FreeCount(pool);
    ghost var base, free := pool.out, pool.numFree;
    var t := CreatePagetable(pool);
    if t == null {
      return NoTable, false;
    }
    ghost var v := Start(free - 1);
    TracksAtFirst(base, t.page, free - 1);
    var ok := MapImage(pool, t, image, v, base);
    v := MapWhile(v, PagesOf(image)).0;
    if !ok {
      RestoreSettles(v, base, pool.out, t.Es(), t.page, pool.numFree, left);
      stopped := Restore(pool, t, left);
      OnlyLost(base, pool.out);
      return ImageFailed, stopped;
    }
    ok := GetAndMap(pool, t, heap, v, base);
    v := MapPage(v, heap / 4096);
    if !ok || !loads {
      RestoreSettles(v, base, pool.out, t.Es(), t.page, pool.numFree, heap);
      stopped := Restore(pool, t, heap);
      OnlyLost(base, pool.out);
      return if ok then LoadFailed else HeapFailed, stopped;
    }
    stopped := Serve(pool, t, later, v, base);
    v := ServeAll(v, later);
    StaleUnmaps(v, heap / 4096);
    if stopped {
      return Exited, true;
    }
    ExitSettles(v, base, pool.out, t.Es(), t.page, pool.numFree, heap);
    stopped := t.ExitRelease(pool, heap);
    OnlyLost(base, pool.out);
    return Exited, stopped;
  }

  lemma OnlyLost(base: set<int>, others: set<int>)
    ensures base <= others ==> (others == base <==> |others| == |base|)
  {
    if base <= others && |others| == |base| {
      assert others == base + (others - base);
      assert others - base == {};
    }
  }

  lemma StaleUnmaps(v: Virtual, vp: int)
    ensures UnmapPage(v, vp).stale >= v.stale
  {
  }

  /** How the stale case comes about: the last page of the image is an even one with a new entry, the heap page
      is its odd neighbour, and no page is left for it. */
  lemma StaleHeapIsReached(es: seq<Entry>, after: seq<Entry>, vp: int, frame: Frame)
    requires Unique(es) && !HasPair(es, vp / 2) && !Odd(vp) && frame.Mapped? && Maps(es, after, vp, frame)
    ensures !HeapOk(after, vp + 1)
  {
    hide Lookup;
    assert Lookup(after, vp) == frame;
    PairOfMapped(after, vp);
    var i :| 0 <= i < |after| && after[i].vpn2 == vp / 2;
    LookupNone(es, vp + 1);
    LookupAt(after, i, vp + 1);
    assert Lookup(after, vp + 1) == Lookup(es, vp + 1);
    HeapOkAt(after, vp + 1, i);
  }
}
