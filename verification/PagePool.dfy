/** The pool of physical pages (`vm/pagepool.c`): a bitmap, a counter, and the pages that are out. */
module PagePool {
  import opened Bitmap

  const PAGE_SIZE := 4096

  /** The bitmap marks the static area and the pages handed out, and the counter counts the rest. */
  ghost predicate PoolOk(words: seq<word>, numPages: nat, numFree: int, staticEnd: nat, out: set<int>) {
    && staticEnd <= numPages && Fits(words, numPages)
    && (forall p: nat | p < numPages :: Bit(words, p) <==> p < staticEnd || p in out)
    && (forall p | p in out :: staticEnd <= p < numPages)
    && numFree == ClearBits(words, numPages)
  }

  lemma TakenOk(words: seq<word>, numPages: nat, numFree: int, staticEnd: nat, out: set<int>, p: nat)
    requires PoolOk(words, numPages, numFree, staticEnd, out) && p < numPages && !Bit(words, p)
    ensures p !in out && staticEnd <= p
    ensures PoolOk(WithBit(words, p, true), numPages, numFree - 1, staticEnd, out + {p})
  {
    hide WithBit, ClearBits, Bit;
    BitsOfWithBit(words, p, true);
    ClearBitsOfWithBit(words, p, true, numPages);
  }

  lemma GivenBackOk(words: seq<word>, numPages: nat, numFree: int, staticEnd: nat, out: set<int>, p: nat)
    requires PoolOk(words, numPages, numFree, staticEnd, out) && p in out
    ensures p < numPages && Bit(words, p)
    ensures PoolOk(WithBit(words, p, false), numPages, numFree + 1, staticEnd, out - {p})
  {
    hide WithBit, ClearBits, Bit;
    BitsOfWithBit(words, p, false);
    ClearBitsOfWithBit(words, p, false, numPages);
  }

  class Pool {
    const freePages: array<word>
    const numPages: nat
    const staticEnd: nat
    var numFree: int
    /** Pages handed out and not yet given back. */
    ghost var out: set<int>

    ghost predicate Valid()
      reads this, freePages
    {
      PoolOk(freePages[..], numPages, numFree, staticEnd, out)
    }

    /** `pagepool_init` with `reserved` pages taken statically. */
    constructor (pages: nat, reserved: nat)
      requires reserved <= pages
      ensures Valid() && out == {} && numPages == pages && staticEnd == reserved && fresh(freePages)
    {
      hide WithBit, Bit, ClearBits;
      var bitmap := new word[WordsFor(pages)];
      Init(bitmap, pages);
      var i := 0;
      while i < reserved
        invariant 0 <= i <= reserved && bitmap.Length == WordsFor(pages)
        invariant forall p: nat | p < pages :: Bit(bitmap[..], p) <==> p < i
      {
        BitsOfWithBit(bitmap[..], i, true);
        Set(bitmap, i, true);
        i := i + 1;
      }
      freePages, numPages, numFree, staticEnd, out := bitmap, pages, pages - reserved, reserved, {};
      FirstBitsSet(bitmap[..], reserved, pages);
    }

    /** `pagepool_get_phys_page`: the lowest free page, or zero exactly when there is none. The kernel's own
        check on the counter always holds. */
    method Get() returns (address: int)
      requires Valid()
      modifies this`numFree, this`out, freePages
      ensures Valid()
      ensures old(numFree) == 0 ==> address == 0 && out == old(out)
      ensures old(numFree) > 0 ==>
                && address % PAGE_SIZE == 0 && staticEnd <= address / PAGE_SIZE < numPages
                && address / PAGE_SIZE !in old(out) && out == old(out) + {address / PAGE_SIZE}
                && forall p | staticEnd <= p < address / PAGE_SIZE :: p in old(out)
      ensures staticEnd > 0 ==> (address == 0 <==> old(numFree) == 0)
      ensures numFree == old(numFree) - if old(numFree) > 0 then 1 else 0
    {
      hide WithBit, Bit, ClearBits;
      ghost var words := freePages[..];
      var i;
      if numFree > 0 {
        i := FindAndSet(freePages, numPages);
        SearchFailsWhenFull(words, numPages, i);
        TakenOk(words, numPages, numFree, staticEnd, out, i);
        numFree := numFree - 1;
        assert i >= 0 && numFree >= 0;
        out := out + {i};
      } else {
        i := 0;
      }
      address := i * PAGE_SIZE;
    }

    /** `pagepool_free_phys_page`. One of its two assertions stops the kernel exactly when the page is not out. */
    method Free(address: int) returns (stopped: bool)
      requires Valid()
      modifies this`numFree, this`out, freePages
      ensures Valid() && out == old(out) - {address / PAGE_SIZE}
      ensures stopped <==> address / PAGE_SIZE !in old(out)
      ensures numFree == old(numFree) + if stopped then 0 else 1
    {
      hide WithBit, Bit, ClearBits;
      var i := address / PAGE_SIZE;
      if i < staticEnd || i >= numPages {
        return true;
      }
      var bit := Bitmap.Get(freePages, i);
      if bit != 1 {
        return true;
      }
      GivenBackOk(freePages[..], numPages, numFree, staticEnd, out, i);
      Set(freePages, i, false);
      numFree := numFree + 1;
      out := out - {i};
      return false;
    }
  }
}
