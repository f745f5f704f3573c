/** Taking blocks from the allocation bitmap and giving them back, several at a time. */
module SfsBlocks {
  import opened Sequences
  import opened Bitmap
  import opened SfsState

  predicate Within(bs: seq<int>, words: seq<word>) { forall i | 0 <= i < |bs| :: 0 <= bs[i] < 32 * |words| }

  /** The bitmap after the bits of `bs` have been written, in that order. */
  function Written(words: seq<word>, bs: seq<int>, value: bool): (r: seq<word>)
    requires Within(bs, words)
    ensures |r| == |words|
  {
    if bs == [] then words
    else WithBit(Written(words, bs[..|bs| - 1], value), bs[|bs| - 1], value)
  }

  lemma {:induction false} WrittenBit(words: seq<word>, bs: seq<int>, value: bool, q: nat)
    requires Within(bs, words) && q < 32 * |words|
    ensures Bit(Written(words, bs, value), q) == (if q in bs then value else Bit(words, q))
  {
    hide Bit, WithBit;
    if bs != [] {
      var most, last := bs[..|bs| - 1], bs[|bs| - 1];
      WrittenBit(words, most, value, q);
      BitOfWithBit(Written(words, most, value), last, value, q);
      assert bs == most + [last];
    }
  }

  /** Writing distinct bits that had the other value moves the count of clear bits by their number. */
  lemma {:induction false} WrittenCount(words: seq<word>, bs: seq<int>, value: bool, total: nat)
    requires Within(bs, words) && Fits(words, total) && Distinct(bs)
    requires forall i | 0 <= i < |bs| :: bs[i] < total && Bit(words, bs[i]) == !value
    ensures ClearBits(Written(words, bs, value), total) == ClearBits(words, total) + (if value then -|bs| else |bs|)
  {
    hide Bit, WithBit, ClearBits;
    if bs != [] {
      var most, last := bs[..|bs| - 1], bs[|bs| - 1];
      WrittenCount(words, most, value, total);
      WrittenBit(words, most, value, last);
      ClearBitsOfWithBit(Written(words, most, value), last, value, total);
    }
  }

  /** Each of `bs` was the lowest free block when it was taken, after those before it. */
  ghost predicate FirstFit(words: seq<word>, total: nat, bs: seq<int>)
    requires Within(bs, words) && Fits(words, total)
  {
    forall i | 0 <= i < |bs| :: IsLeastClear(Written(words, bs[..i], true), total, bs[i])
  }

  lemma FirstFitExtends(words: seq<word>, total: nat, bs: seq<int>, b: int)
    requires Within(bs, words) && Fits(words, total) && FirstFit(words, total, bs)
    requires IsLeastClear(Written(words, bs, true), total, b) && b != -1
    ensures Within(bs + [b], words) && FirstFit(words, total, bs + [b])
    ensures Written(words, bs + [b], true) == WithBit(Written(words, bs, true), b, true)
  {
    hide WithBit, Written;
    var more := bs + [b];
    assert Within(more, words);
    forall i | 0 <= i < |more| ensures IsLeastClear(Written(words, more[..i], true), total, more[i]) {
      if i < |bs| { assert more[..i] == bs[..i]; } else { assert more[..i] == bs; }
    }
    WrittenSnoc(words, bs, b, true);
  }

  lemma WrittenSnoc(words: seq<word>, bs: seq<int>, b: int, value: bool)
    requires Within(bs, words) && 0 <= b < 32 * |words|
    ensures Within(bs + [b], words) && Written(words, bs + [b], value) == WithBit(Written(words, bs, value), b, value)
  {
    assert (bs + [b])[..|bs|] == bs;
  }

  /** Blocks handed out one after the other are different, were free, and are the lowest there were. */
  lemma {:induction false} FirstFitIsFresh(words: seq<word>, total: nat, bs: seq<int>)
    requires Within(bs, words) && Fits(words, total) && FirstFit(words, total, bs)
    ensures Distinct(bs) && forall i | 0 <= i < |bs| :: bs[i] < total && !Bit(words, bs[i])
  {
    hide Bit, Written;
    forall i | 0 <= i < |bs| ensures bs[i] < total && !Bit(words, bs[i]) && bs[i] !in bs[..i] {
      assert IsLeastClear(Written(words, bs[..i], true), total, bs[i]);
      WrittenBit(words, bs[..i], true, bs[i]);
    }
    forall i, j | 0 <= i < j < |bs| ensures bs[i] != bs[j] {
      assert bs[j] !in bs[..j];
      assert bs[..j][i] == bs[i];
    }
  }

  /** So `n` blocks can be had exactly when `n` bits are clear: the search after `k` successes fails
      exactly when no more than `k` were. */
  lemma FirstFitRunsOut(words: seq<word>, total: nat, bs: seq<int>, r: int)
    requires Within(bs, words) && Fits(words, total) && FirstFit(words, total, bs)
    requires IsLeastClear(Written(words, bs, true), total, r)
    ensures |bs| <= ClearBits(words, total)
    ensures r == -1 <==> ClearBits(words, total) == |bs|
  {
    hide Bit, Written, ClearBits;
    FirstFitIsFresh(words, total, bs);
    WrittenCount(words, bs, true, total);
    SearchFailsWhenFull(Written(words, bs, true), total, r);
  }

  /** One block more: its number goes to the caller and its bit is set, or -1 if none is left. */
  method Allocate(bat: array<word>, total: nat, ghost words: seq<word>, ghost taken: seq<int>) returns (b: int)
    requires Fits(words, total) && bat.Length == |words| && Within(taken, words)
    requires FirstFit(words, total, taken) && bat[..] == Written(words, taken, true)
    modifies bat
    ensures b == -1 <==> ClearBits(words, total) == |taken|
    ensures |taken| <= ClearBits(words, total)
    ensures b == -1 ==> bat[..] == old(bat[..])
    ensures b != -1 ==>
              && 0 <= b < total && Within(taken + [b], words) && FirstFit(words, total, taken + [b])
              && bat[..] == Written(words, taken + [b], true)
  {
    hide FirstFit, Written, ClearBits;
    b := FindAndSet(bat, total);
    FirstFitRunsOut(words, total, taken, b);
    if b != -1 {
      FirstFitExtends(words, total, taken, b);
    }
  }

  /** The allocation loop of `sfs_create`: `n` blocks, their numbers stored behind the first word of the
      inode buffer. It fails exactly when there are not enough. */
  method AllocateMany(bat: array<word>, total: nat, inode: array<word>, n: nat, ghost words: seq<word>, ghost first: int)
    returns (ok: bool, ghost taken: seq<int>)
    requires Fits(words, total) && bat.Length == |words| && Within([first], words) && total <= MAX_BLOCKS
    requires FirstFit(words, total, [first]) && bat[..] == Written(words, [first], true)
    requires n < inode.Length && inode != bat
    modifies bat, inode
    ensures ok <==> 1 + n <= ClearBits(words, total)
    ensures inode[0] == old(inode[0])
    ensures ok ==>
              && |taken| == 1 + n && taken[0] == first && Within(taken, words) && FirstFit(words, total, taken)
              && bat[..] == Written(words, taken, true)
              && forall i | 0 < i <= n :: inode[i] == taken[i]
  {
    hide FirstFit, Written, ClearBits;
    taken := [first];
    var i := 0;
    while i < n
      invariant 0 <= i <= n && |taken| == 1 + i && taken[0] == first && Within(taken, words) && FirstFit(words, total, taken)
      invariant bat[..] == Written(words, taken, true) && inode[0] == old(inode[0])
      invariant forall k | 0 < k <= i :: inode[k] == taken[k]
    {
      var b := Allocate(bat, total, words, taken);
      if b == -1 {
        return false, taken;
      }
      inode[1 + i] := b;
      taken := taken + [b];
      i := i + 1;
    }
    AllocatedFits(words, total, taken);
    return true, taken;
  }

  lemma AllocatedFits(words: seq<word>, total: nat, taken: seq<int>)
    requires Within(taken, words) && Fits(words, total) && FirstFit(words, total, taken)
    ensures |taken| <= ClearBits(words, total)
  {
    FirstFitIsFresh(words, total, taken);
    WrittenCount(words, taken, true, total);
  }
}
