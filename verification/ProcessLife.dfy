/** What becomes of a process's pages as far as the addresses it uses and the number of free pages decide it:
    which mappings succeed, which pages are lost, and how often a stale frame number is handed back. */
module ProcessLife {
  import opened Sequences
  import opened PageTable

  /** The virtual pages that are mapped, the pairs of pages that have an entry, the free pages left, the pages
      lost so far, and how often `vm_unmap` has met an entry whose half was not valid. */
  datatype Virtual = Virtual(mapped: set<int>, pairs: set<int>, free: int, lost: nat, stale: nat)

  function Start(free: int): Virtual { Virtual({}, {}, free, 0, 0) }

  /** There is a page for it, it is not mapped, and its pair has an entry or can get one. */
  predicate CanMap(v: Virtual, vp: int) {
    v.free > 0 && vp !in v.mapped && (|v.pairs| < PAGETABLE_ENTRIES || vp / 2 in v.pairs)
  }

  /** A page from the pool and a mapping for it; what cannot be mapped is lost. */
  function MapPage(v: Virtual, vp: int): Virtual {
    if v.free <= 0 then v
    else if CanMap(v, vp) then v.(mapped := v.mapped + {vp}, pairs := v.pairs + {vp / 2}, free := v.free - 1)
    else v.(free := v.free - 1, lost := v.lost + 1)
  }

  /** `vm_unmap` does not look whether the page is mapped. */
  predicate Stale(v: Virtual, vp: int) { vp / 2 in v.pairs && vp !in v.mapped }

  function UnmapPage(v: Virtual, vp: int): Virtual {
    if Stale(v, vp) then v.(free := v.free + 1, stale := v.stale + 1)
    else if vp in v.mapped then v.(mapped := v.mapped - {vp}, free := v.free + 1)
    else v
  }

  /** Mappings in order up to the first that fails, and whether none did. */
  function MapWhile(v: Virtual, vps: seq<int>): (Virtual, bool)
    decreases |vps|
  {
    if vps == [] then (v, true)
    else if CanMap(v, vps[0]) then MapWhile(MapPage(v, vps[0]), vps[1..])
    else (MapPage(v, vps[0]), false)
  }

  /** What a process asks of its page table while it runs. */
  datatype Request = MapAt(vaddr: nat) | UnmapAt(vaddr: nat)

  function ServeOne(v: Virtual, r: Request): Virtual {
    match r
    case MapAt(a) => MapPage(v, a / 4096)
    case UnmapAt(a) => UnmapPage(v, a / 4096)
  }

  function ServeAll(v: Virtual, requests: seq<Request>): Virtual
    decreases |requests|
  {
    if requests == [] then v else ServeAll(ServeOne(v, requests[0]), requests[1..])
  }

  datatype Fate =
    | NoTable       // no page for the page table
    | ImageFailed   // a page of the image could not be had or mapped
    | HeapFailed    // the heap page could not be had or mapped
    | LoadFailed    // the image could not be read into its pages
    | Exited

  datatype Life = Life(fate: Fate, lost: nat, stale: nat)

  /** Cleaning up after a failed start unmaps the heap address that the process entry holds, if it is not zero. */
  function CleanUp(v: Virtual, heap: nat): Virtual { if heap == 0 then v else UnmapPage(v, heap / 4096) }

  function PagesOf(vaddrs: seq<nat>): (vps: seq<int>)
    ensures |vps| == |vaddrs|
  {
    seq(|vaddrs|, i requires 0 <= i < |vaddrs| => vaddrs[i] / 4096)
  }

  /** The life of a process that finds `free` pages: stack and segments at the addresses `image`, the heap page,
      loading, the requests made while it runs, and exit. `left` is the heap address that an earlier process
      left in the process entry. */
  function LifeOf(free: nat, image: seq<nat>, left: nat, heap: nat, loads: bool, later: seq<Request>): Life {
    if free == 0 then Life(NoTable, 0, 0)
    else
      var (v, ok) := MapWhile(Start(free - 1), PagesOf(image));
      if !ok then Ended(ImageFailed, CleanUp(v, left))
      else
        var w := MapPage(v, heap / 4096);
        if !CanMap(v, heap / 4096) then Ended(HeapFailed, CleanUp(w, heap))
        else if !loads then Ended(LoadFailed, CleanUp(w, heap))
        else Ended(Exited, UnmapPage(ServeAll(w, later), heap / 4096))
  }

  function Ended(fate: Fate, v: Virtual): Life { Life(fate, v.lost, v.stale) }

  // ----- when mappings succeed -----

  function Halves(vps: seq<int>): set<int> { set i | 0 <= i < |vps| :: vps[i] / 2 }

  /** Request `j` asks for a page that was asked for before, or for a new pair when there are entries for no more. */
  predicate Wasted(vps: seq<int>, j: nat)
    requires j < |vps|
  {
    vps[j] in vps[..j] || (|Halves(vps[..j])| >= PAGETABLE_ENTRIES && vps[j] / 2 !in Halves(vps[..j]))
  }

  /** One of the first `n` requests is such a request. */
  predicate Wastes(vps: seq<int>, n: int) { exists j :: 0 <= j < |vps| && j < n && Wasted(vps, j) }

  /** Mapping every page in turn, whatever fails. */
  function MapEach(v: Virtual, vps: seq<int>): Virtual
    decreases |vps|
  {
    if vps == [] then v else MapEach(MapPage(v, vps[0]), vps[1..])
  }

  /** The first `j` requests succeed, and `j` ends them: there are no more, or no more pages, or it cannot be mapped. */
  predicate StopsAt(vps: seq<int>, j: int, free: int) {
    0 <= j <= |vps| && j <= free && !Wastes(vps, j) && (j == |vps| || j == free || Wasted(vps, j))
  }

  lemma MapEachSnoc(v: Virtual, vps: seq<int>, j: nat)
    requires j < |vps|
    ensures MapEach(v, vps[..j + 1]) == MapPage(MapEach(v, vps[..j]), vps[j])
  {
    hide MapPage;
    assert vps[..j + 1] == vps[..j] + [vps[j]];
    MapEachConcat(v, vps[..j], [vps[j]]);
    MapEachOne(MapEach(v, vps[..j]), vps[j], []);
    assert [vps[j]] + [] == [vps[j]];
  }

  lemma SetsSnoc(vps: seq<int>, j: nat)
    requires j < |vps|
    ensures Members(vps[..j + 1]) == Members(vps[..j]) + {vps[j]}
    ensures Halves(vps[..j + 1]) == Halves(vps[..j]) + {vps[j] / 2}
  {
    var most, more := vps[..j], vps[..j + 1];
    assert more == most + [vps[j]];
    forall i | 0 <= i < |more| ensures more[i] / 2 in Halves(most) + {vps[j] / 2} { if i < j { assert most[i] == more[i]; } }
    forall i | 0 <= i < |most| ensures most[i] / 2 in Halves(more) { assert most[i] == more[i]; }
    assert more[j] == vps[j];
  }

  /** Before the first wasted request every page is mapped, each pair has its entry and nothing is lost. */
  lemma {:induction false} Prefix(free: nat, vps: seq<int>, j: nat)
    requires j <= |vps| && j <= free && !Wastes(vps, j)
    ensures MapEach(Start(free), vps[..j]) == Virtual(Members(vps[..j]), Halves(vps[..j]), free - j, 0, 0)
    ensures j < |vps| ==> (CanMap(MapEach(Start(free), vps[..j]), vps[j]) <==> j < free && !Wasted(vps, j))
  {
    hide Members, Halves, MapEach;
    if j == 0 {
      assert vps[..0] == [];
      MapEachNothing(Start(free));
      NoSets();
    } else {
      FewerWaste(vps, j - 1, j);
      Prefix(free, vps, j - 1);
      MapEachSnoc(Start(free), vps, j - 1);
      SetsSnoc(vps, j - 1);
    }
    InMembers(vps[..j]);
  }

  lemma FewerWaste(vps: seq<int>, i: nat, j: nat)
    requires i < j <= |vps| && !Wastes(vps, j)
    ensures !Wastes(vps, i) && !Wasted(vps, i)
  {
    hide Wasted;
  }

  lemma NoSets()
    ensures Members([]) == {} && Halves([]) == {}
  {
  }

  lemma InMembers(vps: seq<int>)
    ensures forall x :: x in Members(vps) <==> x in vps
  {
  }

  lemma {:induction false} StopFrom(vps: seq<int>, free: nat, i: nat) returns (j: nat)
    requires i <= |vps| && i <= free && !Wastes(vps, i)
    ensures StopsAt(vps, j, free)
    decreases |vps| - i
  {
    hide Wasted;
    if i == |vps| || i == free || Wasted(vps, i) {
      j := i;
    } else {
      j := StopFrom(vps, free, i + 1);
    }
  }

  lemma {:induction false} MapWhileFrom(free: nat, vps: seq<int>, j: nat)
    requires j <= |vps| && j <= free && !Wastes(vps, j)
    ensures MapWhile(Start(free), vps) == MapWhile(MapEach(Start(free), vps[..j]), vps[j..])
  {
    hide MapEach, Wasted, CanMap, MapPage;
    if j == 0 {
      assert vps[..0] == [] && vps[0..] == vps;
      MapEachNothing(Start(free));
    } else {
      FewerWaste(vps, j - 1, j);
      MapWhileFrom(free, vps, j - 1);
      Prefix(free, vps, j - 1);
      MapEachSnoc(Start(free), vps, j - 1);
      assert vps[j - 1..][0] == vps[j - 1] && vps[j - 1..][1..] == vps[j..];
    }
  }

  /** Mapping up to the first failure maps exactly the pages before it. */
  lemma MapWhileStops(free: nat, vps: seq<int>, j: nat)
    requires StopsAt(vps, j, free)
    ensures var v := Virtual(Members(vps[..j]), Halves(vps[..j]), free - j, 0, 0);
            if j == |vps| then MapWhile(Start(free), vps) == (v, true)
            else !CanMap(v, vps[j]) && MapWhile(Start(free), vps) == (MapPage(v, vps[j]), false)
  {
    hide MapEach, Members, Halves, MapPage, CanMap, Wasted;
    MapWhileFrom(free, vps, j);
    Prefix(free, vps, j);
    if j < |vps| { assert vps[j..][0] == vps[j]; }
  }

  /** The fate of a process, from what it asks for: it needs a page for its table; then pages for its image, none of them
      wasted; then one for its heap, not wasted either; then it must be possible to read the image. */
  lemma FateIff(free: nat, image: seq<nat>, left: nat, heap: nat, loads: bool, later: seq<Request>)
    ensures var fate := LifeOf(free, image, left, heap, loads, later).fate;
            var imageFits := |image| + 1 <= free && !Wastes(PagesOf(image), |image|);
            var heapFits := |image| + 2 <= free && !Wastes(PagesOf(image) + [heap / 4096], |image| + 1);
            && (fate == NoTable <==> free == 0)
            && (fate == ImageFailed <==> free > 0 && !imageFits)
            && (fate == HeapFailed <==> imageFits && !heapFits)
            && (fate == LoadFailed <==> heapFits && !loads)
            && (fate == Exited <==> heapFits && loads)
  {
    hide MapWhile, Members, Halves, Wasted, MapPage, UnmapPage, ServeAll, CanMap;
    var pages, n := PagesOf(image), |image|;
    var all := pages + [heap / 4096];
    assert all[..n] == pages && all[n] == heap / 4096;
    WasteOfMore(pages, heap / 4096);
    if free > 0 {
      var j := StopFrom(pages, free - 1, 0);
      MapWhileStops(free - 1, pages, j);
      if j == n {
        Prefix(free - 1, pages, n);
        Prefix(free - 1, all, n);
        assert pages[..n] == pages;
      } else {
        StoppedShort(pages, j, free - 1);
      }
    }
  }

  lemma StoppedShort(vps: seq<int>, j: nat, free: nat)
    requires StopsAt(vps, j, free) && j < |vps|
    ensures Wastes(vps, |vps|) || free < |vps|
  {
    hide Wasted;
  }

  lemma WasteOfMore(vps: seq<int>, p: int)
    ensures Wastes(vps + [p], |vps|) <==> Wastes(vps, |vps|)
    ensures Wastes(vps + [p], |vps| + 1) <==> Wastes(vps, |vps|) || Wasted(vps + [p], |vps|)
  {
    var all, n := vps + [p], |vps|;
    forall j | 0 <= j < n ensures Wasted(all, j) <==> Wasted(vps, j) { assert all[..j] == vps[..j] && all[j] == vps[j]; }
    hide Wasted;
    if Wastes(vps, n) { var j :| 0 <= j < n && Wasted(vps, j); assert Wasted(all, j); }
    if Wastes(all, n) { var j :| 0 <= j < n && Wasted(all, j); assert Wasted(vps, j); }
  }

  // ----- when pages are lost -----

  lemma {:induction false} MapEachOutOfPages(v: Virtual, vps: seq<int>)
    requires v.free <= 0
    ensures MapEach(v, vps) == v
    decreases |vps|
  {
    if vps != [] { MapEachOutOfPages(v, vps[1..]); }
  }

  lemma {:induction false} MapEachLosesMore(v: Virtual, vps: seq<int>)
    ensures MapEach(v, vps).lost >= v.lost
    decreases |vps|
  {
    if vps != [] { MapEachLosesMore(MapPage(v, vps[0]), vps[1..]); }
  }

  lemma MapEachLosesIff(free: nat, vps: seq<int>)
    ensures MapEach(Start(free), vps).lost > 0 <==> Wastes(vps, free)
  {
    hide MapEach, Wasted, Members, Halves, CanMap;
    var start := Start(free);
    var j := StopFrom(vps, free, 0);
    Prefix(free, vps, j);
    assert vps == vps[..j] + vps[j..];
    MapEachConcat(start, vps[..j], vps[j..]);
    var v := MapEach(start, vps[..j]);
    if j == |vps| {
      assert vps[..j] == vps;
    } else if j == free {
      MapEachOutOfPages(v, vps[j..]);
    } else {
      assert vps[j..] == [vps[j]] + vps[j + 1..];
      MapEachOne(v, vps[j], vps[j + 1..]);
      MapEachLosesMore(MapPage(v, vps[j]), vps[j + 1..]);
    }
  }

  lemma {:induction false} MapEachConcat(v: Virtual, a: seq<int>, b: seq<int>)
    ensures MapEach(v, a + b) == MapEach(MapEach(v, a), b)
    decreases |a|
  {
    if a == [] {
      assert a + b == b;
    } else {
      assert (a + b)[1..] == a[1..] + b;
      MapEachConcat(MapPage(v, a[0]), a[1..], b);
    }
  }

  /** Stopping at the first failure loses a page exactly when going on would. */
  lemma {:induction false} StoppingLosesAlike(v: Virtual, vps: seq<int>)
    ensures var (w, ok) := MapWhile(v, vps);
            && w.lost >= v.lost
            && (ok ==> w == MapEach(v, vps) && w.lost == v.lost)
            && (!ok ==> if w.lost > v.lost then MapEach(v, vps).lost > v.lost else w.free <= 0 && w == MapEach(v, vps))
    decreases |vps|
  {
    if vps != [] {
      var next, rest := MapPage(v, vps[0]), vps[1..];
      if CanMap(v, vps[0]) {
        StoppingLosesAlike(next, rest);
      } else if v.free <= 0 {
        MapEachOutOfPages(v, vps);
      } else {
        MapEachLosesMore(next, rest);
      }
    }
  }

  predicate OnlyMaps(requests: seq<Request>) { forall i | 0 <= i < |requests| :: requests[i].MapAt? }

  function RequestPages(requests: seq<Request>): (vps: seq<int>)
    ensures |vps| == |requests|
  {
    seq(|requests|, i requires 0 <= i < |requests| => requests[i].vaddr / 4096)
  }

  lemma {:induction false} ServingMaps(v: Virtual, requests: seq<Request>)
    requires OnlyMaps(requests)
    ensures ServeAll(v, requests) == MapEach(v, RequestPages(requests))
    decreases |requests|
  {
    if requests != [] {
      ServingMaps(ServeOne(v, requests[0]), requests[1..]);
      assert RequestPages(requests)[1..] == RequestPages(requests[1..]);
    }
  }

  /** All pages that a process asks for, in order. */
  function Asked(image: seq<nat>, heap: nat, later: seq<Request>): seq<int> {
    PagesOf(image) + ([heap / 4096] + RequestPages(later))
  }

  lemma MapEachOne(v: Virtual, vp: int, rest: seq<int>)
    ensures MapEach(v, [vp] + rest) == MapEach(MapPage(v, vp), rest)
  {
    assert ([vp] + rest)[1..] == rest;
  }

  lemma LifeLosesAsMapEach(free: nat, image: seq<nat>, left: nat, heap: nat, loads: bool, later: seq<Request>)
    requires free > 0 && OnlyMaps(later) && (loads || later == [])
    ensures LifeOf(free, image, left, heap, loads, later).lost > 0
            <==> MapEach(Start(free - 1), Asked(image, heap, later)).lost > 0
  {
    hide MapEach, MapWhile, ServeAll;
    var start, pages, rest := Start(free - 1), PagesOf(image), RequestPages(later);
    var (v, ok) := MapWhile(start, pages);
    StoppingLosesAlike(start, pages);
    MapEachConcat(start, pages, [heap / 4096] + rest);
    MapEachLosesMore(MapEach(start, pages), [heap / 4096] + rest);
    if ok {
      var w := MapPage(v, heap / 4096);
      MapEachOne(v, heap / 4096, rest);
      MapEachLosesMore(w, rest);
      ServingMaps(w, later);
      if v.free <= 0 { MapEachOutOfPages(w, rest); }
      if !loads { MapEachNothing(w); }
    } else if v.lost == 0 {
      MapEachOutOfPages(v, [heap / 4096] + rest);
    }
  }

  lemma MapEachNothing(v: Virtual)
    ensures MapEach(v, []) == v
  {
  }

  /** A process that unmaps nothing in between loses a page if and only if, while pages are left, it asks for one
      that it has asked for before or for a pair for which there is no entry. */
  lemma LosesIff(free: nat, image: seq<nat>, left: nat, heap: nat, loads: bool, later: seq<Request>)
    requires OnlyMaps(later) && (loads || later == [])
    ensures LifeOf(free, image, left, heap, loads, later).lost > 0 <==> Wastes(Asked(image, heap, later), free - 1)
  {
    hide LifeOf, MapEach, Wasted;
    if free == 0 {
      NoTableNoLoss(image, left, heap, loads, later);
    } else {
      LifeLosesAsMapEach(free, image, left, heap, loads, later);
      MapEachLosesIff(free - 1, Asked(image, heap, later));
    }
  }

  lemma NoTableNoLoss(image: seq<nat>, left: nat, heap: nat, loads: bool, later: seq<Request>)
    ensures LifeOf(0, image, left, heap, loads, later) == Life(NoTable, 0, 0)
  {
  }

  // ----- when a stale frame number is handed back -----

  lemma {:induction false} MapEachKeeps(v: Virtual, vps: seq<int>, vp: int)
    ensures MapEach(v, vps).stale == v.stale && (vp in v.mapped ==> vp in MapEach(v, vps).mapped)
    decreases |vps|
  {
    if vps != [] { MapEachKeeps(MapPage(v, vps[0]), vps[1..], vp); }
  }

  /** With the pages `vps` mapped, the other half of the pair of `vaddr` is among them and its own page is not. */
  predicate StaleAt(vaddr: nat, vps: seq<int>) { vaddr != 0 && vaddr / 8192 in Halves(vps) && vaddr / 4096 !in vps }

  /** A process that unmaps nothing while it runs makes the kernel hand back a stale frame number if and only if its
      start fails, either in the image, when the heap address left in the process entry is next to a page mapped so far,
      or because the image takes the last page, when the heap page is next to one of the image. */
  lemma StaleIff(free: nat, image: seq<nat>, left: nat, heap: nat, loads: bool, later: seq<Request>)
    requires OnlyMaps(later)
    ensures LifeOf(free, image, left, heap, loads, later).stale > 0
            <==> exists j :: StaleFrom(free, image, left, heap, j)
  {
    hide LifeOf, StaleAt, StopsAt;
    var pages := PagesOf(image);
    if free == 0 {
      NoTableNoLoss(image, left, heap, loads, later);
      if j :| StaleFrom(free, image, left, heap, j) { NotStopped(pages, j); }
    } else {
      NoneWasted(pages);
      var i := StopFrom(pages, free - 1, 0);
      StaleAtStop(free, image, left, heap, loads, later, i);
      if j :| StaleFrom(free, image, left, heap, j) { StaleAtStop(free, image, left, heap, loads, later, j); }
    }
  }

  /** The image stops at `j`, and the clean-up meets the heap address next to a mapped page. */
  predicate StaleFrom(free: nat, image: seq<nat>, left: nat, heap: nat, j: int) {
    var pages := PagesOf(image);
    && 0 <= j <= |image| && StopsAt(pages, j, free - 1)
    && if j < |image| then StaleAt(left, pages[..j]) else free == |image| + 1 && StaleAt(heap, pages)
  }

  lemma NoneWasted(vps: seq<int>)
    ensures !Wastes(vps, 0)
  {
  }

  lemma NotStopped(vps: seq<int>, j: int)
    ensures !StopsAt(vps, j, -1)
  {
  }

  lemma StaleAtStop(free: nat, image: seq<nat>, left: nat, heap: nat, loads: bool, later: seq<Request>, j: nat)
    requires free > 0 && OnlyMaps(later) && StopsAt(PagesOf(image), j, free - 1)
    ensures LifeOf(free, image, left, heap, loads, later).stale > 0 <==> StaleFrom(free, image, left, heap, j)
  {
    hide MapWhile, ServeAll, Members, Halves, Wasted, Wastes, OnlyMaps, RequestPages, MapEach;
    var pages, h := PagesOf(image), heap / 4096;
    MapWhileStops(free - 1, pages, j);
    InMembers(pages[..j]);
    var (v, ok) := MapWhile(Start(free - 1), pages);
    if ok {
      assert pages[..j] == pages;
      if CanMap(v, h) {
        ServingMaps(MapPage(v, h), later);
        MapEachKeeps(MapPage(v, h), RequestPages(later), h);
      }
    }
  }

  /** With unmapping: it happens exactly when some request unmaps a page that is not mapped while its pair has an
      entry, and a page is lost exactly when some request asks for one that cannot be mapped while pages are left. */
  lemma {:induction false} ServingIff(v: Virtual, requests: seq<Request>)
    ensures ServeAll(v, requests).stale >= v.stale
    ensures ServeAll(v, requests).stale > v.stale
            <==> exists k :: 0 <= k < |requests| && requests[k].UnmapAt? && Stale(ServeAll(v, requests[..k]), requests[k].vaddr / 4096)
    ensures ServeAll(v, requests).lost >= v.lost
    ensures ServeAll(v, requests).lost > v.lost
            <==> exists k :: 0 <= k < |requests| && requests[k].MapAt? && Futile(ServeAll(v, requests[..k]), requests[k].vaddr / 4096)
    decreases |requests|
  {
    if requests != [] {
      var n := |requests| - 1;
      var most, last := requests[..n], requests[n];
      ServingIff(v, most);
      ServeSnoc(v, most, last);
      assert requests == most + [last];
      forall k | 0 <= k < n ensures most[..k] == requests[..k] && most[k] == requests[k] {}
    }
  }

  predicate Futile(v: Virtual, vp: int) { v.free > 0 && !CanMap(v, vp) }

  lemma {:induction false} ServeSnoc(v: Virtual, requests: seq<Request>, r: Request)
    ensures ServeAll(v, requests + [r]) == ServeOne(ServeAll(v, requests), r)
    decreases |requests|
  {
    if requests == [] {
      assert ([] + [r])[1..] == [];
    } else {
      assert (requests + [r])[1..] == requests[1..] + [r];
      ServeSnoc(ServeOne(v, requests[0]), requests[1..], r);
    }
  }

  // ----- inputs for which it goes wrong -----

  /** Two segments on one page: the second page is had from the pool and never given back. */
  lemma LostPageExample()
    ensures LifeOf(5, [0x8000, 0x8000], 0, 0xa000, true, []) == Life(ImageFailed, 1, 0)
  {
    var pages := PagesOf([0x8000, 0x8000]);
    assert pages == [8, 8] && pages[1..] == [8];
    assert MapPage(Start(4), 8) == Virtual({8}, {4}, 3, 0, 0);
    assert MapWhile(Virtual({8}, {4}, 3, 0, 0), [8]) == (Virtual({8}, {4}, 2, 1, 0), false);
  }

  /** The image takes the last page and ends on an even one: there is no page for the heap, and cleaning up unmaps it all
      the same. */
  lemma StaleStartExample()
    ensures LifeOf(2, [0x8000], 0, 0x9000, true, []) == Life(HeapFailed, 0, 1)
  {
    var pages := PagesOf([0x8000]);
    assert pages == [8] && pages[1..] == [];
    assert MapPage(Start(1), 8) == Virtual({8}, {4}, 0, 0, 0);
    assert MapWhile(Virtual({8}, {4}, 0, 0, 0), []) == (Virtual({8}, {4}, 0, 0, 0), true);
  }

  /** The image fails in a process entry that still holds the heap address of the process before. */
  lemma LeftHeapExample()
    ensures LifeOf(2, [0x8000, 0xa000], 0x9000, 0xb000, true, []) == Life(ImageFailed, 0, 1)
  {
    var pages := PagesOf([0x8000, 0xa000]);
    assert pages == [8, 10] && pages[1..] == [10];
    assert MapPage(Start(1), 8) == Virtual({8}, {4}, 0, 0, 0);
    assert MapWhile(Virtual({8}, {4}, 0, 0, 0), [10]) == (Virtual({8}, {4}, 0, 0, 0), false);
  }
}
