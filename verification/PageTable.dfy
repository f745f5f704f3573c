/** Page tables (`vm/vm.c`) and the release of a process's pages at exit
    (`proc/syscall_handler_proc.c`). Virtual pages come in pairs that share one table entry. */
module PageTable {
  import opened Sequences
  import opened PagePool

  const PAGETABLE_ENTRIES := 340

  /** One TLB-format entry: an even and an odd page under one VPN2. */
  datatype Entry = Entry(vpn2: int, pfn0: int, d0: int, v0: bool, pfn1: int, d1: int, v1: bool)

  datatype Frame = Unmapped | Mapped(pfn: int, dirty: int)

  function Half(e: Entry, odd: bool): Frame {
    if odd then (if e.v1 then Mapped(e.pfn1, e.d1) else Unmapped)
    else if e.v0 then Mapped(e.pfn0, e.d0) else Unmapped
  }

  /** The frame number stored for a half, whether or not it is valid. */
  function StoredPfn(e: Entry, odd: bool): int { if odd then e.pfn1 else e.pfn0 }

  function WithoutHalf(e: Entry, odd: bool): Entry { if odd then e.(v1 := false) else e.(v0 := false) }

  function Odd(vp: int): bool { vp % 2 == 1 }

  /** What the table says about virtual page `vp`. */
  function Lookup(es: seq<Entry>, vp: int): Frame {
    if es == [] then Unmapped
    else if es[0].vpn2 == vp / 2 then Half(es[0], Odd(vp))
    else Lookup(es[1..], vp)
  }

  /** No two entries for the same pair of pages. */
  predicate Unique(es: seq<Entry>) { forall i, j | 0 <= i < j < |es| :: es[i].vpn2 != es[j].vpn2 }

  predicate HasPair(es: seq<Entry>, v: int) { exists i :: 0 <= i < |es| && es[i].vpn2 == v }

  /** The pairs that have an entry. */
  function Pairs(es: seq<Entry>): set<int> { set i | 0 <= i < |es| :: es[i].vpn2 }

  lemma {:induction false} PairsSize(es: seq<Entry>)
    requires Unique(es)
    ensures |Pairs(es)| == |es|
  {
    if es == [] {
      assert Pairs(es) == {};
    } else {
      var most, e := es[..|es| - 1], es[|es| - 1];
      PairsSize(most);
      assert es == most + [e];
      PairsAppend(most, e);
      assert e.vpn2 !in Pairs(most);
    }
  }

  lemma PairsAppend(es: seq<Entry>, e: Entry)
    ensures Pairs(es + [e]) == Pairs(es) + {e.vpn2}
  {
    var all := es + [e];
    assert all[|es|] == e && forall i | 0 <= i < |es| :: all[i] == es[i];
  }

  lemma PairsUpdate(es: seq<Entry>, i: nat, e: Entry)
    requires i < |es| && e.vpn2 == es[i].vpn2
    ensures Pairs(es[i := e]) == Pairs(es) == Pairs(es) + {e.vpn2}
  {
    var after := es[i := e];
    assert forall k | 0 <= k < |es| :: after[k].vpn2 == es[k].vpn2;
  }

  lemma {:induction false} LookupAt(es: seq<Entry>, i: nat, vp: int)
    requires Unique(es) && i < |es| && es[i].vpn2 == vp / 2
    ensures Lookup(es, vp) == Half(es[i], Odd(vp))
  {
    if i > 0 {
      assert es[0].vpn2 != es[i].vpn2;
      LookupAt(es[1..], i - 1, vp);
    }
  }

  lemma {:induction false} LookupNone(es: seq<Entry>, vp: int)
    requires forall i | 0 <= i < |es| :: es[i].vpn2 != vp / 2
    ensures Lookup(es, vp) == Unmapped
  {
    if es != [] { LookupNone(es[1..], vp); }
  }

  lemma {:induction false} LookupUpdate(es: seq<Entry>, i: nat, e: Entry, vp: int)
    requires Unique(es) && i < |es| && e.vpn2 == es[i].vpn2
    ensures Unique(es[i := e])
    ensures Lookup(es[i := e], vp) == if vp / 2 == e.vpn2 then Half(e, Odd(vp)) else Lookup(es, vp)
  {
    if vp / 2 == e.vpn2 {
      LookupAt(es[i := e], i, vp);
    } else if i > 0 {
      LookupUpdate(es[1..], i - 1, e, vp);
      assert es[i := e][1..] == es[1..][i - 1 := e];
    } else {
      assert es[i := e][1..] == es[1..];
    }
  }

  lemma {:induction false} LookupAppend(es: seq<Entry>, e: Entry, vp: int)
    requires forall i | 0 <= i < |es| :: es[i].vpn2 != e.vpn2
    ensures Lookup(es + [e], vp) == if vp / 2 == e.vpn2 then Half(e, Odd(vp)) else Lookup(es, vp)
  {
    if es == [] {
      assert (es + [e])[1..] == [];
    } else {
      assert (es + [e])[1..] == es[1..] + [e];
      LookupAppend(es[1..], e, vp);
    }
  }

  lemma SamePage(vp: int, q: int)
    ensures vp / 2 == q / 2 && Odd(vp) == Odd(q) <==> vp == q
  {
  }

  /** One page more is mapped and every other page is as before. */
  ghost predicate Maps(es: seq<Entry>, after: seq<Entry>, vp: int, frame: Frame) {
    Unique(after) && forall q :: Lookup(after, q) == if q == vp then frame else Lookup(es, q)
  }

  lemma MapsUpdate(es: seq<Entry>, i: nat, e: Entry, vp: int)
    requires Unique(es) && i < |es| && es[i].vpn2 == vp / 2 == e.vpn2 && Half(e, !Odd(vp)) == Half(es[i], !Odd(vp))
    ensures Maps(es, es[i := e], vp, Half(e, Odd(vp)))
  {
    hide Lookup, Half, Odd;
    LookupUpdate(es, i, e, vp);
    forall q ensures Lookup(es[i := e], q) == if q == vp then Half(e, Odd(vp)) else Lookup(es, q) {
      LookupUpdate(es, i, e, q);
      SamePage(vp, q);
      if q / 2 == vp / 2 { LookupAt(es, i, q); }
    }
  }

  lemma MapsAppend(es: seq<Entry>, e: Entry, vp: int)
    requires Unique(es) && e.vpn2 == vp / 2 && Half(e, !Odd(vp)) == Unmapped
    requires forall i | 0 <= i < |es| :: es[i].vpn2 != vp / 2
    ensures Maps(es, es + [e], vp, Half(e, Odd(vp)))
  {
    hide Lookup, Half, Odd;
    forall q ensures Lookup(es + [e], q) == if q == vp then Half(e, Odd(vp)) else Lookup(es, q) {
      LookupAppend(es, e, q);
      SamePage(vp, q);
      if q / 2 == vp / 2 { LookupNone(es, q); }
    }
  }

  // ----- releasing everything -----

  function FramesOf(e: Entry): seq<int> {
    (if e.v0 then [e.pfn0] else []) + (if e.v1 then [e.pfn1] else [])
  }

  /** The mapped frames, in the order in which exit releases them. */
  function Frames(es: seq<Entry>): seq<int> {
    if es == [] then [] else Frames(es[..|es| - 1]) + FramesOf(es[|es| - 1])
  }

  /** Everything that belongs to a process: its mapped frames and the page of the table itself. */
  function Belongings(es: seq<Entry>, page: int): seq<int> { Frames(es) + [page] }

  /** The process's pages are all different and all of them are out. */
  predicate Owns(out: set<int>, es: seq<Entry>, page: int) {
    Distinct(Belongings(es, page)) && forall p | p in Belongings(es, page) :: p in out
  }

  /** The pages after releasing `ps` one by one; none at all if one of them was not out. */
  datatype Outcome = Halted | Released(out: set<int>)

  function Release(out: set<int>, ps: seq<int>): Outcome {
    if ps == [] then Released(out)
    else if ps[0] in out then Release(out - {ps[0]}, ps[1..])
    else Halted
  }

  /** Releasing works exactly on different pages that are all out, and takes exactly those. */
  lemma {:induction false} ReleaseIs(out: set<int>, ps: seq<int>)
    ensures Release(out, ps) == if Distinct(ps) && (forall p | p in ps :: p in out) then Released(out - Members(ps)) else Halted
  {
    if ps == [] {
      assert out - Members(ps) == out;
    } else {
      var rest := ps[1..];
      ReleaseIs(out - {ps[0]}, rest);
      DistinctCons(ps);
      assert Members(ps) == Members(rest) + {ps[0]};
      assert forall p :: p in ps <==> p == ps[0] || p in rest;
      assert out - {ps[0]} - Members(rest) == out - Members(ps);
    }
  }

  // ----- what exit releases -----

  function EntryWithout(e: Entry, vp: int): Entry { if e.vpn2 == vp / 2 then WithoutHalf(e, Odd(vp)) else e }

  /** The table after the half that holds `vp` has been marked invalid. */
  function WithoutPage(es: seq<Entry>, vp: int): (r: seq<Entry>)
    ensures |r| == |es|
  {
    seq(|es|, i requires 0 <= i < |es| => EntryWithout(es[i], vp))
  }

  /** The frame numbers that `vm_unmap` hands back, valid or not. */
  function UnmapFrees(es: seq<Entry>, vp: int): seq<int> {
    if es == [] then []
    else UnmapFrees(es[..|es| - 1], vp)
         + if es[|es| - 1].vpn2 == vp / 2 then [StoredPfn(es[|es| - 1], Odd(vp))] else []
  }

  /** All that exit releases, in order: the heap page, the frames still mapped, the table's page. */
  function ExitFrees(es: seq<Entry>, heap: int, page: int): seq<int> {
    UnmapFrees(es, heap) + Frames(WithoutPage(es, heap)) + [page]
  }

  /** The heap page is mapped, or no entry covers its pair at all. */
  predicate HeapOk(es: seq<Entry>, heap: int) {
    forall i | 0 <= i < |es| && es[i].vpn2 == heap / 2 :: Half(es[i], Odd(heap)).Mapped?
  }

  lemma UniquePrefix(es: seq<Entry>)
    requires Unique(es) && es != []
    ensures Unique(es[..|es| - 1])
    ensures forall i | 0 <= i < |es| - 1 :: es[i].vpn2 != es[|es| - 1].vpn2
  {
  }

  /** With nothing to unmap in a part of the table, nothing is freed and nothing changes there. */
  lemma {:induction false} NothingToUnmap(es: seq<Entry>, vp: int)
    requires forall i | 0 <= i < |es| :: es[i].vpn2 != vp / 2
    ensures UnmapFrees(es, vp) == [] && WithoutPage(es, vp) == es
  {
    if es != [] { NothingToUnmap(es[..|es| - 1], vp); }
  }

  /** What unmapping frees and what stays mapped make up what was mapped, when the heap page is in order;
      otherwise a stale frame number comes on top. */
  lemma {:induction false} ExitSplit(es: seq<Entry>, vp: int)
    requires Unique(es)
    ensures |UnmapFrees(es, vp)| <= 1
    ensures HeapOk(es, vp) ==> multiset(UnmapFrees(es, vp)) + multiset(Frames(WithoutPage(es, vp))) == multiset(Frames(es))
    ensures !HeapOk(es, vp) ==> |UnmapFrees(es, vp)| == 1 && Frames(WithoutPage(es, vp)) == Frames(es)
  {
    hide WithoutPage, Half, WithoutHalf, StoredPfn, FramesOf, HeapOk, Unique, Frames, UnmapFrees;
    if es == [] {
      NothingToUnmap(es, vp);
      HeapOkEmpty(vp);
    } else {
      var most, e := es[..|es| - 1], es[|es| - 1];
      assert es == most + [e];
      UniquePrefix(es);
      ExitSplit(most, vp);
      SnocParts(most, e, vp);
      if e.vpn2 == vp / 2 {
        NothingToUnmap(most, vp);
        LastHalf(e, Odd(vp));
        HeapOkLast(es, vp);
      } else {
        HeapOkPrefix(es, vp);
      }
    }
  }

  lemma HeapOkEmpty(vp: int)
    ensures HeapOk([], vp)
  {
  }

  lemma SnocParts(es: seq<Entry>, e: Entry, vp: int)
    ensures Frames(es + [e]) == Frames(es) + FramesOf(e)
    ensures UnmapFrees(es + [e], vp) == UnmapFrees(es, vp) + if e.vpn2 == vp / 2 then [StoredPfn(e, Odd(vp))] else []
    ensures Frames(WithoutPage(es + [e], vp))
            == Frames(WithoutPage(es, vp)) + FramesOf(if e.vpn2 == vp / 2 then WithoutHalf(e, Odd(vp)) else e)
  {
    hide FramesOf, StoredPfn, WithoutHalf;
    assert (es + [e])[..|es|] == es;
    var left := WithoutPage(es + [e], vp);
    assert left[..|es|] == WithoutPage(es, vp);
    assert left[|es|] == if e.vpn2 == vp / 2 then WithoutHalf(e, Odd(vp)) else e;
  }

  lemma LastHalf(e: Entry, odd: bool)
    ensures Half(e, odd).Mapped? ==> multiset([StoredPfn(e, odd)]) + multiset(FramesOf(WithoutHalf(e, odd))) == multiset(FramesOf(e))
    ensures !Half(e, odd).Mapped? ==> WithoutHalf(e, odd) == e
  {
  }

  lemma HeapOkLast(es: seq<Entry>, vp: int)
    requires Unique(es) && es != [] && es[|es| - 1].vpn2 == vp / 2
    ensures HeapOk(es, vp) <==> Half(es[|es| - 1], Odd(vp)).Mapped?
  {
  }

  lemma HeapOkPrefix(es: seq<Entry>, vp: int)
    requires es != [] && es[|es| - 1].vpn2 != vp / 2
    ensures HeapOk(es, vp) <==> HeapOk(es[..|es| - 1], vp)
  {
    var most := es[..|es| - 1];
    if HeapOk(most, vp) {
      forall i | 0 <= i < |es| && es[i].vpn2 == vp / 2 ensures Half(es[i], Odd(vp)).Mapped? { assert most[i] == es[i]; }
    }
  }

  lemma DistinctByMultiset(a: seq<int>, b: seq<int>)
    requires multiset(a) == multiset(b) && Distinct(a)
    ensures Distinct(b) && Members(a) == Members(b)
  {
    forall x ensures x in a <==> x in b { assert x in multiset(a) <==> x in multiset(b); }
    forall i, j | 0 <= i < j < |b| ensures b[i] != b[j] {
      OnceEach(a, b[i]);
      TwiceIn(b, i, j);
    }
  }

  lemma {:induction false} OnceEach(a: seq<int>, x: int)
    requires Distinct(a)
    ensures multiset(a)[x] <= 1
  {
    if a != [] {
      DistinctCons(a);
      OnceEach(a[1..], x);
      assert a == [a[0]] + a[1..];
    }
  }

  lemma TwiceIn(b: seq<int>, i: nat, j: nat)
    requires i < j < |b|
    ensures b[i] == b[j] ==> multiset(b)[b[i]] >= 2
  {
    assert b == b[..j] + [b[j]] + b[j + 1..];
    assert b[..j][i] == b[i];
  }

  /** Process exit releases each of the process's pages exactly once, and nothing else, if and only if the
      heap page is mapped or its pair has no entry: `vm_unmap` does not look at the valid bit. */
  lemma ExitReleasesIff(out: set<int>, es: seq<Entry>, heap: int, page: int)
    requires Unique(es) && Owns(out, es, page)
    ensures Release(out, ExitFrees(es, heap, page)) == Released(out - Members(Belongings(es, page))) <==> HeapOk(es, heap)
  {
    hide Frames, UnmapFrees, WithoutPage, HeapOk, Release, Distinct;
    var frees, mine := ExitFrees(es, heap, page), Belongings(es, page);
    ReleaseIs(out, frees);
    ExitSplit(es, heap);
    if HeapOk(es, heap) {
      DistinctByMultiset(mine, frees);
      forall p | p in frees ensures p in out { assert p in Members(frees); }
    } else {
      var stale := UnmapFrees(es, heap)[0];
      assert frees == [stale] + mine;
      DistinctCons(frees);
      assert frees[1..] == mine;
      assert stale in frees && stale in Members(frees);
      assert stale in mine <==> stale in Members(mine);
    }
  }

  // ----- the table in place -----

  lemma {:induction false} FramesPrefix(es: seq<Entry>, i: nat)
    requires i <= |es|
    ensures Frames(es[..i]) <= Frames(es)
    decreases |es|
  {
    if i < |es| {
      FramesPrefix(es[..|es| - 1], i);
      assert es[..|es| - 1][..i] == es[..i];
    } else {
      assert es[..i] == es;
    }
  }

  /** Changing one entry exchanges its frames and leaves all others. */
  lemma {:induction false} FramesUpdate(es: seq<Entry>, i: nat, e: Entry)
    requires i < |es|
    ensures multiset(Frames(es[i := e])) + multiset(FramesOf(es[i])) == multiset(Frames(es)) + multiset(FramesOf(e))
  {
    hide FramesOf, Frames;
    var n := |es| - 1;
    var most, last := es[..n], es[n];
    assert es == most + [last];
    FramesSnoc(most, last);
    if i < n {
      FramesUpdate(most, i, e);
      assert es[i := e] == most[i := e] + [last];
      FramesSnoc(most[i := e], last);
      WithMore(multiset(Frames(most[i := e])), multiset(FramesOf(es[i])), multiset(Frames(most)), multiset(FramesOf(e)), multiset(FramesOf(last)));
    } else {
      assert es[i := e] == most + [e];
      FramesSnoc(most, e);
    }
  }

  lemma WithMore(a: multiset<int>, o: multiset<int>, b: multiset<int>, n: multiset<int>, more: multiset<int>)
    requires a + o == b + n
    ensures a + more + o == b + more + n
  {
    forall x ensures (a + more + o)[x] == (b + more + n)[x] { assert (a + o)[x] == (b + n)[x]; }
  }

  lemma Cancel(a: multiset<int>, b: multiset<int>, o: multiset<int>, p: int)
    requires a + o == b + (o + multiset{p})
    ensures a == b + multiset{p}
  {
    forall x ensures a[x] == (b + multiset{p})[x] { assert (a + o)[x] == (b + (o + multiset{p}))[x]; }
  }

  lemma FramesSnoc(es: seq<Entry>, e: Entry)
    ensures multiset(Frames(es + [e])) == multiset(Frames(es)) + multiset(FramesOf(e))
  {
    assert (es + [e])[..|es|] == es;
  }

  /** Making one half valid adds its frame to those of the entry. */
  lemma HalfAdded(e: Entry, odd: bool, pfn: int, dirty: int)
    requires Half(e, odd) == Unmapped
    ensures var after := if odd then e.(pfn1 := pfn, v1 := true, d1 := dirty) else e.(pfn0 := pfn, v0 := true, d0 := dirty);
            multiset(FramesOf(after)) == multiset(FramesOf(e)) + multiset{pfn}
  {
  }

  /** With the heap page in order, the pages that exit releases are the process's own. */
  lemma ExitListOk(out: set<int>, es: seq<Entry>, heap: int, page: int)
    requires Unique(es) && Owns(out, es, page) && HeapOk(es, heap)
    ensures var first, rest := UnmapFrees(es, heap), Frames(WithoutPage(es, heap)) + [page];
            && |first| <= 1 && (forall p | p in first :: p in out)
            && Distinct(rest) && (forall p | p in rest :: p in out - Members(first))
            && out - Members(first) - Members(rest) == out - Members(Belongings(es, page))
  {
    hide Frames, UnmapFrees, WithoutPage, HeapOk, Distinct;
    var frees, mine := ExitFrees(es, heap, page), Belongings(es, page);
    var first, rest := UnmapFrees(es, heap), Frames(WithoutPage(es, heap)) + [page];
    ExitSplit(es, heap);
    DistinctByMultiset(mine, frees);
    assert frees == first + rest;
    DistinctParts(first, rest);
    forall p | p in first || p in rest ensures p in out { assert p in frees; assert p in Members(frees); }
    assert Members(frees) == Members(first) + Members(rest);
  }

  lemma DistinctParts(a: seq<int>, b: seq<int>)
    requires Distinct(a + b)
    ensures Distinct(b) && forall p | p in b :: p !in a
  {
    var all := a + b;
    forall i, j | 0 <= i < j < |b| ensures b[i] != b[j] { assert all[|a| + i] == b[i] && all[|a| + j] == b[j]; }
    forall i, j | 0 <= i < |a| && 0 <= j < |b| ensures a[i] != b[j] { assert all[i] == a[i] && all[|a| + j] == b[j]; }
  }

  class Table {
    const page: int
    const entries: array<Entry>
    var validCount: nat

    ghost predicate Valid()
      reads this, entries
    {
      entries.Length == PAGETABLE_ENTRIES && validCount <= PAGETABLE_ENTRIES && Unique(Es())
    }

    ghost function Es(): seq<Entry>
      requires validCount <= entries.Length
      reads this, entries
    {
      entries[..validCount]
    }

    /** An empty table on physical page `at`; what the page held before does not matter. */
    constructor (at: int)
      ensures Valid() && Es() == [] && page == at && fresh(entries)
    {
      page, validCount := at, 0;
      entries := new Entry[PAGETABLE_ENTRIES];
    }

    /** The index of the entry for a pair of pages, or -1. */
    method FindPair(vpn2: int) returns (i: int)
      requires Valid()
      ensures i == -1 <==> forall k | 0 <= k < validCount :: entries[k].vpn2 != vpn2
      ensures i != -1 ==> 0 <= i < validCount && entries[i].vpn2 == vpn2
    {
      i := 0;
      while i < validCount
        invariant 0 <= i <= validCount && forall k | 0 <= k < i :: entries[k].vpn2 != vpn2
      {
        if entries[i].vpn2 == vpn2 {
          return;
        }
        i := i + 1;
      }
      i := -1;
    }

    /** `vm_get_entry_by_vaddr`. */
    method GetEntry(vaddr: nat) returns (i: int)
      requires Valid()
      ensures i == -1 <==> vaddr < 4096 || forall k | 0 <= k < validCount :: entries[k].vpn2 != vaddr / 8192
      ensures i != -1 ==> 0 <= i < validCount && Half(entries[i], Odd(vaddr / 4096)) == Lookup(Es(), vaddr / 4096)
    {
      if vaddr < 4096 {
        return -1;
      }
      i := FindPair(vaddr / 8192);
      if i != -1 {
        LookupAt(Es(), i, vaddr / 4096);
      }
    }

    /** `vm_map` where the pair has entry `i`. */
    method MapInPair(i: nat, physaddr: nat, vaddr: nat, dirty: int) returns (r: int)
      requires Valid() && i < validCount && entries[i].vpn2 == vaddr / 8192
      modifies entries
      ensures Valid()
      ensures var es, vp := old(Es()), vaddr / 4096;
              if Lookup(es, vp).Mapped? then r == -1 && Es() == es
              else
                && r == 1 && Maps(es, Es(), vp, Mapped(physaddr / 4096, dirty))
                && multiset(Frames(Es())) == multiset(Frames(es)) + multiset{physaddr / 4096}
                && Pairs(Es()) == Pairs(es) + {vp / 2}
    {
      hide Lookup, Maps, Frames, Pairs;
      ghost var es, vp := Es(), vaddr / 4096;
      LookupAt(es, i, vp);
      var e := entries[i];
      if vaddr / 4096 % 2 == 0 {
        if e.v0 {
          return -1;
        }
        entries[i] := e.(pfn0 := physaddr / 4096, v0 := true, d0 := dirty);
      } else {
        if e.v1 {
          return -1;
        }
        entries[i] := e.(pfn1 := physaddr / 4096, v1 := true, d1 := dirty);
      }
      MapsUpdate(es, i, entries[i], vp);
      MapsKeepsUnique(es, es[i := entries[i]], vp, Mapped(physaddr / 4096, dirty));
      PairsUpdate(es, i, entries[i]);
      FramesUpdate(es, i, entries[i]);
      HalfAdded(e, Odd(vp), physaddr / 4096, dirty);
      Cancel(multiset(Frames(es[i := entries[i]])), multiset(Frames(es)), multiset(FramesOf(e)), physaddr / 4096);
      assert Es() == es[i := entries[i]];
      return 1;
    }

    /** `vm_map` where the pair has no entry yet and there is room for one. */
    method MapOnNew(physaddr: nat, vaddr: nat, dirty: int)
      requires Valid() && validCount < PAGETABLE_ENTRIES && !HasPair(Es(), vaddr / 8192)
      modifies this`validCount, entries
      ensures Valid() && Maps(old(Es()), Es(), vaddr / 4096, Mapped(physaddr / 4096, dirty)) && validCount == old(validCount) + 1
      ensures multiset(Frames(Es())) == multiset(Frames(old(Es()))) + multiset{physaddr / 4096}
      ensures Pairs(Es()) == Pairs(old(Es())) + {vaddr / 8192}
    {
      hide Lookup, Maps, Frames, WithoutPage, UnmapFrees, Pairs;
      ghost var es, vp := Es(), vaddr / 4096;
      var e := entries[validCount].(vpn2 := vaddr / 8192);
      entries[validCount] :=
        if vaddr / 4096 % 2 == 0 then e.(pfn0 := physaddr / 4096, d0 := dirty, v0 := true, v1 := false)
        else e.(pfn1 := physaddr / 4096, d1 := dirty, v1 := true, v0 := false);
      ghost var added := entries[validCount];
      MapsAppend(es, added, vp);
      MapsKeepsUnique(es, es + [added], vp, Mapped(physaddr / 4096, dirty));
      SnocParts(es, added, vp);
      PairsAppend(es, added);
      validCount := validCount + 1;
      assert Es() == es + [added];
    }

    /** `vm_map`: fails exactly when the page is mapped already, or its pair has no entry and the table is
        full. On success that page, and no other, is mapped, and its frame joins those of the table. */
    method Map(physaddr: nat, vaddr: nat, dirty: int) returns (r: int)
      requires Valid() && (dirty == 0 || dirty == 1)
      modifies this`validCount, entries
      ensures Valid() && old(validCount) <= validCount <= old(validCount) + 1
      ensures var es, vp := old(Es()), vaddr / 4096;
              if Lookup(es, vp).Mapped? || (|es| == PAGETABLE_ENTRIES && !HasPair(es, vp / 2)) then r == -1 && Es() == es
              else
                && r == 1 && Maps(es, Es(), vp, Mapped(physaddr / 4096, dirty))
                && multiset(Frames(Es())) == multiset(Frames(es)) + multiset{physaddr / 4096}
                && Pairs(Es()) == Pairs(es) + {vp / 2}
    {
      hide Lookup, Maps, Frames, Unique, Pairs;
      ghost var es, vp := Es(), vaddr / 4096;
      var i := FindPair(vaddr / 8192);
      if i != -1 {
        assert es[i].vpn2 == vp / 2 && HasPair(es, vp / 2);
        r := MapInPair(i, physaddr, vaddr, dirty);
        return;
      }
      LookupNone(es, vp);
      assert !HasPair(es, vp / 2);
      if validCount >= PAGETABLE_ENTRIES {
        return -1;
      }
      MapOnNew(physaddr, vaddr, dirty);
      return 1;
    }

    /** `vm_set_dirty`, which demands that the page is mapped. */
    method SetDirty(vaddr: nat, dirty: int)
      requires Valid() && (dirty == 0 || dirty == 1) && Lookup(Es(), vaddr / 4096).Mapped?
      modifies entries
      ensures Valid() && Maps(old(Es()), Es(), vaddr / 4096, Mapped(Lookup(old(Es()), vaddr / 4096).pfn, dirty))
    {
      hide Lookup, Maps;
      ghost var es, vp := Es(), vaddr / 4096;
      var i := FindPair(vaddr / 8192);
      PairOfMapped(es, vp);
      LookupAt(es, i, vp);
      if vaddr / 4096 % 2 == 0 {
        entries[i] := entries[i].(d0 := dirty);
      } else {
        entries[i] := entries[i].(d1 := dirty);
      }
      MapsUpdate(es, i, entries[i], vp);
      MapsKeepsUnique(es, es[i := entries[i]], vp, Half(entries[i], Odd(vp)));
      assert Es() == es[i := entries[i]];
    }

    /** `vm_unmap`: hands back the frame of the page's half, whether or not it is valid. The pool's assertions stop
        the kernel if that frame is not out. */
    method Unmap(pool: Pool, vaddr: nat) returns (stopped: bool)
      requires Valid() && pool.Valid()
      modifies entries, pool`numFree, pool`out, pool.freePages
      ensures Valid() && pool.Valid()
      ensures Release(old(pool.out), UnmapFrees(old(Es()), vaddr / 4096)) == if stopped then Halted else Released(pool.out)
      ensures !stopped ==> Es() == WithoutPage(old(Es()), vaddr / 4096)
      ensures !stopped ==> pool.numFree == old(pool.numFree) + |UnmapFrees(old(Es()), vaddr / 4096)|
    {
      hide PoolOk, UnmapFrees, WithoutHalf, StoredPfn, Release;
      ghost var es, out, free, vp := Es(), pool.out, pool.numFree, vaddr / 4096;
      ghost var hit := -1;
      var i := 0;
      while i < validCount
        invariant 0 <= i <= validCount == |es| && pool.Valid()
        invariant forall k | 0 <= k < validCount :: entries[k] == if k < i then EntryWithout(es[k], vp) else es[k]
        invariant if hit == -1 then pool.out == out && pool.numFree == free && forall k | 0 <= k < i :: es[k].vpn2 != vp / 2
                  else
                    && 0 <= hit < i && es[hit].vpn2 == vp / 2 && StoredPfn(es[hit], Odd(vp)) in out
                    && pool.out == out - {StoredPfn(es[hit], Odd(vp))} && pool.numFree == free + 1
      {
        if entries[i].vpn2 == vaddr / 8192 {
          stopped := UnmapHalf(pool, i, vaddr / 4096 % 2 == 1);
          if stopped {
            ReleaseOne(es, vp, i, out);
            assert Es() == es;
            return;
          }
          hit := i;
        }
        i := i + 1;
      }
      UniqueWithout(es, vp);
      assert Es() == WithoutPage(es, vp);
      if hit == -1 { ReleaseNone(es, vp, out); } else { ReleaseOne(es, vp, hit, out); }
      return false;
    }

    /** Frees and invalidates one half of entry `i`. */
    method UnmapHalf(pool: Pool, i: nat, odd: bool) returns (stopped: bool)
      requires i < entries.Length && pool.Valid()
      modifies entries, pool`numFree, pool`out, pool.freePages
      ensures pool.Valid() && pool.out == old(pool.out) - {StoredPfn(old(entries[i]), odd)}
      ensures stopped <==> StoredPfn(old(entries[i]), odd) !in old(pool.out)
      ensures pool.numFree == old(pool.numFree) + if stopped then 0 else 1
      ensures entries[i] == if stopped then old(entries[i]) else WithoutHalf(old(entries[i]), odd)
      ensures forall k | 0 <= k < entries.Length && k != i :: entries[k] == old(entries[k])
    {
      hide PoolOk;
      if odd {
        stopped := pool.Free(entries[i].pfn1 * 4096);
        if !stopped { entries[i] := entries[i].(v1 := false); }
      } else {
        stopped := pool.Free(entries[i].pfn0 * 4096);
        if !stopped { entries[i] := entries[i].(v0 := false); }
      }
    }

    /** The release of a page table: every frame that is mapped goes back to the pool, and the table's own page. */
    method ReleaseAll(pool: Pool) returns (stopped: bool)
      requires Valid() && pool.Valid()
      modifies pool`numFree, pool`out, pool.freePages
      ensures pool.Valid()
      ensures Release(old(pool.out), Belongings(Es(), page)) == if stopped then Halted else Released(pool.out)
    {
      hide PoolOk, FramesOf, Frames, Release;
      ghost var es, out := Es(), pool.out;
      NoFrames();
      ReleaseNothing(out);
      assert es[..0] == [];
      var i := 0;
      while i < validCount
        invariant 0 <= i <= validCount == |es| && pool.Valid() && Release(out, Frames(es[..i])) == Released(pool.out)
      {
        assert es[..i + 1] == es[..i] + [es[i]];
        FramesUpTo(es, i, page);
        ghost var done := Frames(es[..i]);
        if entries[i].v0 {
          stopped := FreeNext(pool, entries[i].pfn0, out, done);
          if stopped {
            ReleaseHalts(out, done + [es[i].pfn0], Belongings(es, page));
            return;
          }
          done := done + [es[i].pfn0];
        }
        if entries[i].v1 {
          stopped := FreeNext(pool, entries[i].pfn1, out, done);
          if stopped {
            ReleaseHalts(out, done + [es[i].pfn1], Belongings(es, page));
            return;
          }
          done := done + [es[i].pfn1];
        }
        assert done == Frames(es[..i + 1]);
        i := i + 1;
      }
      assert es[..i] == es;
      stopped := FreeNext(pool, page, out, Frames(es));
    }

    /** The next frame of the list goes back. */
    method FreeNext(pool: Pool, pfn: int, ghost out: set<int>, ghost done: seq<int>) returns (stopped: bool)
      requires pool.Valid() && Release(out, done) == Released(pool.out)
      modifies pool`numFree, pool`out, pool.freePages
      ensures pool.Valid() && Release(out, done + [pfn]) == if stopped then Halted else Released(pool.out)
    {
      hide PoolOk, Release;
      ReleaseSnoc(out, done, pfn);
      stopped := pool.Free(pfn * 4096);
    }

    /** The invalidation loop of `syscall_handle_exit`. */
    method Invalidate()
      requires validCount <= entries.Length
      modifies entries
      ensures forall i | 0 <= i < validCount :: !entries[i].v0 && !entries[i].v1
    {
      var i := 0;
      while i < validCount
        invariant 0 <= i <= validCount
        invariant forall k | 0 <= k < i :: !entries[k].v0 && !entries[k].v1
      {
        entries[i] := entries[i].(v0 := false, v1 := false);
        i := i + 1;
      }
    }

    /** The page release of `syscall_handle_exit`: the heap page, every frame still mapped, and the page of the
        table. `ExitReleasesIff` says when these are exactly the process's pages. */
    method ExitRelease(pool: Pool, heapVaddr: nat) returns (stopped: bool)
      requires Valid() && pool.Valid()
      modifies entries, pool`numFree, pool`out, pool.freePages
      ensures pool.Valid()
      ensures Release(old(pool.out), ExitFrees(old(Es()), heapVaddr / 4096, page)) == if stopped then Halted else Released(pool.out)
      ensures !stopped ==> forall i | 0 <= i < validCount :: !entries[i].v0 && !entries[i].v1
    {
      hide PoolOk, UnmapFrees, Frames, WithoutPage, Unique, Release;
      ghost var es, out := Es(), pool.out;
      ExitFreesParts(out, es, heapVaddr / 4096, page);
      stopped := Unmap(pool, heapVaddr);
      if stopped {
        return;
      }
      stopped := ReleaseAll(pool);
      Invalidate();
    }
  }

  lemma ExitFreesParts(out: set<int>, es: seq<Entry>, heap: int, page: int)
    ensures Release(out, ExitFrees(es, heap, page))
            == match Release(out, UnmapFrees(es, heap))
               case Halted => Halted
               case Released(now) => Release(now, Belongings(WithoutPage(es, heap), page))
  {
    hide Release, UnmapFrees, Frames, WithoutPage;
    assert ExitFrees(es, heap, page) == UnmapFrees(es, heap) + Belongings(WithoutPage(es, heap), page);
    ReleaseConcat(out, UnmapFrees(es, heap), Belongings(WithoutPage(es, heap), page));
  }

  /** Releasing one list after another. */
  lemma {:induction false} ReleaseConcat(out: set<int>, a: seq<int>, b: seq<int>)
    ensures Release(out, a + b)
            == match Release(out, a)
               case Halted => Halted
               case Released(now) => Release(now, b)
  {
    if a == [] {
      assert a + b == b;
    } else {
      assert (a + b)[1..] == a[1..] + b;
      if a[0] in out { ReleaseConcat(out - {a[0]}, a[1..], b); }
    }
  }

  lemma {:induction false} ReleaseSize(out: set<int>, ps: seq<int>)
    ensures Release(out, ps).Released? ==> |Release(out, ps).out| == |out| - |ps|
  {
    if ps != [] && ps[0] in out { ReleaseSize(out - {ps[0]}, ps[1..]); }
  }

  lemma ReleaseNothing(out: set<int>)
    ensures Release(out, []) == Released(out)
  {
  }

  lemma ReleaseSnoc(out: set<int>, done: seq<int>, p: int)
    requires Release(out, done).Released?
    ensures var now := Release(out, done).out;
            Release(out, done + [p]) == if p in now then Released(now - {p}) else Halted
  {
    ReleaseConcat(out, done, [p]);
    var now := Release(out, done).out;
    assert [p][1..] == [];
    assert p in now ==> Release(now - {p}, []) == Released(now - {p});
  }

  lemma ReleaseHalts(out: set<int>, first: seq<int>, all: seq<int>)
    requires first <= all && Release(out, first) == Halted
    ensures Release(out, all) == Halted
  {
    assert all == first + all[|first|..];
    ReleaseConcat(out, first, all[|first|..]);
  }

  /** The frames of the first entries, and of one entry more, in the order of release. */
  lemma FramesUpTo(es: seq<Entry>, i: nat, page: int)
    requires i < |es|
    ensures var done, e := Frames(es[..i]), es[i];
            && Frames(es[..i + 1]) == done + (if e.v0 then [e.pfn0] else []) + (if e.v1 then [e.pfn1] else [])
            && (e.v0 ==> done + [e.pfn0] <= Belongings(es, page))
            && Frames(es[..i + 1]) <= Belongings(es, page)
  {
    hide Frames;
    FramesPrefix(es, i + 1);
    assert es[..i + 1] == es[..i] + [es[i]];
    SnocParts(es[..i], es[i], 0);
    var upTo := Frames(es[..i + 1]);
    assert upTo <= Frames(es) <= Belongings(es, page);
  }

  lemma ReleaseNone(es: seq<Entry>, vp: int, out: set<int>)
    requires forall i | 0 <= i < |es| :: es[i].vpn2 != vp / 2
    ensures Release(out, UnmapFrees(es, vp)) == Released(out) && |UnmapFrees(es, vp)| == 0
  {
    NothingToUnmap(es, vp);
  }

  lemma ReleaseOne(es: seq<Entry>, vp: int, i: nat, out: set<int>)
    requires Unique(es) && i < |es| && es[i].vpn2 == vp / 2
    ensures var p := StoredPfn(es[i], Odd(vp));
            Release(out, UnmapFrees(es, vp)) == if p in out then Released(out - {p}) else Halted
    ensures |UnmapFrees(es, vp)| == 1
  {
    hide StoredPfn, UnmapFrees;
    OneToUnmap(es, vp, i);
    ReleaseNothing(out);
    ReleaseSnoc(out, [], StoredPfn(es[i], Odd(vp)));
    assert [] + [StoredPfn(es[i], Odd(vp))] == [StoredPfn(es[i], Odd(vp))];
  }

  lemma NoFrames()
    ensures Frames([]) == []
  {
  }

  lemma {:induction false} OneToUnmap(es: seq<Entry>, vp: int, i: nat)
    requires Unique(es) && i < |es| && es[i].vpn2 == vp / 2
    ensures UnmapFrees(es, vp) == [StoredPfn(es[i], Odd(vp))]
    ensures Members(UnmapFrees(es, vp)) == {StoredPfn(es[i], Odd(vp))}
  {
    hide StoredPfn;
    UniquePrefix(es);
    if i < |es| - 1 {
      OneToUnmap(es[..|es| - 1], vp, i);
    } else {
      NothingToUnmap(es[..|es| - 1], vp);
    }
  }

  lemma UniqueWithout(es: seq<Entry>, vp: int)
    requires Unique(es)
    ensures Unique(WithoutPage(es, vp))
  {
  }

  lemma MapsKeepsUnique(es: seq<Entry>, after: seq<Entry>, vp: int, frame: Frame)
    requires Maps(es, after, vp, frame)
    ensures Unique(after)
  {
  }

  lemma PairOfMapped(es: seq<Entry>, vp: int)
    requires Lookup(es, vp).Mapped?
    ensures HasPair(es, vp / 2)
  {
    if !HasPair(es, vp / 2) { LookupNone(es, vp); }
  }

  /** `vm_create_pagetable`: a table on a page of its own, or null. Zero is the address that says "no page",
      so the answer is reliable because page 0 belongs to the static area. */
  method CreatePagetable(pool: Pool) returns (t: Table?)
    requires pool.Valid()
    modifies pool`numFree, pool`out, pool.freePages
    ensures pool.Valid()
    ensures t != null ==> fresh(t) && fresh(t.entries) && t.Valid() && t.Es() == []
    ensures t != null ==> t.page !in old(pool.out) && pool.out == old(pool.out) + {t.page}
    ensures pool.staticEnd > 0 ==> (t == null <==> old(pool.numFree) == 0)
    ensures pool.staticEnd > 0 && t == null ==> pool.out == old(pool.out)
    ensures pool.numFree == old(pool.numFree) - if old(pool.numFree) > 0 then 1 else 0
  {
    hide PoolOk;
    var address := pool.Get();
    FreeCount(pool);
    if address == 0 {
      return null;
    }
    t := new Table(address / PAGE_SIZE);
  }

  lemma FreeCount(pool: Pool)
    requires pool.Valid()
    ensures pool.numFree >= 0
  {
  }

  /** A table whose heap page is invalid while its neighbour is mapped: releasing it stops at an
      assertion if the stale frame is free, and takes another owner's page if it is not. */
  lemma StaleHeapExample()
    ensures var es := [Entry(4, 7, 1, false, 8, 1, true)];
            && Unique(es) && Owns({8, 9}, es, 9) && !HeapOk(es, 8)
            && Release({8, 9}, ExitFrees(es, 8, 9)) == Halted
            && Release({7, 8, 9}, ExitFrees(es, 8, 9)) == Released({})
  {
    hide Release;
    var es := [Entry(4, 7, 1, false, 8, 1, true)];
    assert UnmapFrees(es, 8) == [7] && WithoutPage(es, 8) == es && Frames(es) == [8];
    var frees := ExitFrees(es, 8, 9);
    assert frees == [7, 8, 9] && Belongings(es, 9) == [8, 9];
    assert Half(es[0], Odd(8)) == Unmapped;
    ReleaseIs({8, 9}, frees);
    ReleaseIs({7, 8, 9}, frees);
    assert 7 in frees;
    assert {7, 8, 9} - Members(frees) == {};
  }
}
