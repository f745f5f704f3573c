/** Word-packed bitmaps: the kernel's `lib/bitmap.c` beside the bit-by-bit search that the
    host-side volume tool uses on the same format (`util/tfstool.c`). */
module Bitmap {

  /** Number of 32-bit words that hold `bits` bits. */
  function WordsFor(bits: nat): nat { (bits + 31) / 32 }

  /** Size in bytes of a bitmap of `bits` bits. */
  function SizeOf(bits: nat): (r: nat)
    ensures r % 4 == 0
    ensures 8 * r >= bits
    ensures 8 * r < bits + 32
  {
    (bits + 31) / 32 * 4
  }

  // ----- one word, read bit by bit -----

  /** A 32-bit machine word by its unsigned value. */
  type word = x: int | 0 <= x < 0x1_0000_0000

  const FULL_WORD: word := 0xffff_ffff

  function Pow2(k: nat): (p: nat)
    ensures p >= 1
  {
    if k == 0 then 1 else 2 * Pow2(k - 1)
  }

  /** `(w >> j) & 1`. */
  function BitOf(w: nat, j: nat): (b: bool)
  {
    if j == 0 then w % 2 == 1 else BitOf(w / 2, j - 1)
  }

  /** `w | (1 << j)`. */
  function OrBit(w: nat, j: nat): nat
  {
    if j == 0 then w - w % 2 + 1 else 2 * OrBit(w / 2, j - 1) + w % 2
  }

  /** `w & ~(1 << j)`. */
  function AndNotBit(w: nat, j: nat): nat
  {
    if j == 0 then w - w % 2 else 2 * AndNotBit(w / 2, j - 1) + w % 2
  }

  lemma {:induction false} BitOfOr(w: nat, j: nat, k: nat)
    ensures BitOf(OrBit(w, j), k) == (j == k || BitOf(w, k))
  {
    if j > 0 && k > 0 {
      BitOfOr(w / 2, j - 1, k - 1);
      assert OrBit(w, j) / 2 == OrBit(w / 2, j - 1);
    } else if k > 0 {
      assert OrBit(w, j) / 2 == w / 2;
    }
  }

  lemma {:induction false} BitOfAndNot(w: nat, j: nat, k: nat)
    ensures BitOf(AndNotBit(w, j), k) == (j != k && BitOf(w, k))
  {
    if j > 0 && k > 0 {
      BitOfAndNot(w / 2, j - 1, k - 1);
      assert AndNotBit(w, j) / 2 == AndNotBit(w / 2, j - 1);
    } else if k > 0 {
      assert AndNotBit(w, j) / 2 == w / 2;
    }
  }

  lemma {:induction false} StaysBelow(w: nat, j: nat, width: nat)
    requires j < width && w < Pow2(width)
    ensures OrBit(w, j) < Pow2(width) && AndNotBit(w, j) < Pow2(width)
  {
    if j > 0 {
      StaysBelow(w / 2, j - 1, width - 1);
    }
  }

  lemma {:induction false} AllOnes(width: nat, j: nat)
    requires j < width
    ensures BitOf(Pow2(width) - 1, j)
  {
    if j > 0 {
      AllOnes(width - 1, j - 1);
      assert (Pow2(width) - 1) / 2 == Pow2(width - 1) - 1;
    }
  }

  lemma {:induction false} ZeroHasNoBits(j: nat)
    ensures !BitOf(0, j)
  {
    if j > 0 {
      ZeroHasNoBits(j - 1);
    }
  }

  lemma {:induction false} Pow2Adds(a: nat, b: nat)
    ensures Pow2(a + b) == Pow2(a) * Pow2(b)
  {
    if a > 0 {
      Pow2Adds(a - 1, b);
      assert Pow2(a + b) == 2 * (Pow2(a - 1) * Pow2(b));
    }
  }

  lemma WordWidth()
    ensures Pow2(32) == 0x1_0000_0000
  {
    assert Pow2(2) == 4;
    Pow2Adds(2, 2);
    Pow2Adds(4, 4);
    Pow2Adds(8, 8);
    Pow2Adds(16, 16);
  }

  lemma BitOfMasked(w: word, j: nat, k: nat)
    requires j < 32
    ensures BitOf(OrBit(w, j), k) == (j == k || BitOf(w, k))
    ensures BitOf(AndNotBit(w, j), k) == (j != k && BitOf(w, k))
    ensures OrBit(w, j) < 0x1_0000_0000 && AndNotBit(w, j) < 0x1_0000_0000
  {
    BitOfOr(w, j, k);
    BitOfAndNot(w, j, k);
    WordWidth();
    StaysBelow(w, j, 32);
  }

  lemma FullWordHasAllBits(k: nat)
    requires k < 32
    ensures BitOf(FULL_WORD, k)
  {
    WordWidth();
    AllOnes(32, k);
  }

  // ----- whole bitmaps as values -----

  /** Bit `pos` of the bitmap. */
  predicate Bit(words: seq<word>, pos: nat)
    requires pos / 32 < |words|
  {
    BitOf(words[pos / 32], pos % 32)
  }

  /** The bitmap with bit `pos` written. */
  function WithBit(words: seq<word>, pos: nat, value: bool): (r: seq<word>)
    requires pos / 32 < |words|
    ensures |r| == |words|
  {
    var w := words[pos / 32];
    BitOfMasked(w, pos % 32, 0);
    words[pos / 32 := if value then OrBit(w, pos % 32) else AndNotBit(w, pos % 32)]
  }

  /** A write is read back, and every other bit keeps its value. */
  lemma BitOfWithBit(words: seq<word>, pos: nat, value: bool, q: nat)
    requires pos / 32 < |words| && q / 32 < |words|
    ensures Bit(WithBit(words, pos, value), q) == (if q == pos then value else Bit(words, q))
  {
    if q / 32 == pos / 32 {
      BitOfMasked(words[pos / 32], pos % 32, q % 32);
    }
  }

  lemma BitsOfWithBit(words: seq<word>, pos: nat, value: bool)
    requires pos / 32 < |words|
    ensures forall q: nat | q / 32 < |words| ::
              Bit(WithBit(words, pos, value), q) == (if q == pos then value else Bit(words, q))
  {
    forall q: nat | q / 32 < |words|
      ensures Bit(WithBit(words, pos, value), q) == (if q == pos then value else Bit(words, q))
    {
      BitOfWithBit(words, pos, value, q);
    }
  }

  predicate Fits(words: seq<word>, length: nat) { length <= 32 * |words| }

  /** The search result that both implementations promise: the least clear bit below `length`,
      or -1 exactly when every bit below `length` is set. */
  predicate IsLeastClear(words: seq<word>, length: nat, r: int)
    requires Fits(words, length)
  {
    if r == -1 then forall p: nat | p < length :: Bit(words, p)
    else 0 <= r < length && !Bit(words, r) && forall p: nat | p < r :: Bit(words, p)
  }

  lemma LeastClearIsUnique(words: seq<word>, length: nat, r: int, s: int)
    requires Fits(words, length)
    requires IsLeastClear(words, length, r) && IsLeastClear(words, length, s)
    ensures r == s
  {
  }

  /** What either search leaves behind. */
  function AfterSearch(words: seq<word>, r: int): seq<word>
    requires r == -1 || (0 <= r && r / 32 < |words|)
  {
    if r == -1 then words else WithBit(words, r, true)
  }

  // ----- counting -----

  /** Number of clear bits among the first `length`. */
  function ClearBits(words: seq<word>, length: nat): (n: nat)
    requires Fits(words, length)
    ensures n <= length
  {
    if length == 0 then 0
    else ClearBits(words, length - 1) + (if Bit(words, length - 1) then 0 else 1)
  }

  lemma {:induction false} ClearBitsAgree(a: seq<word>, b: seq<word>, length: nat)
    requires Fits(a, length) && Fits(b, length)
    requires forall p: nat | p < length :: Bit(a, p) == Bit(b, p)
    ensures ClearBits(a, length) == ClearBits(b, length)
  {
    if length > 0 {
      ClearBitsAgree(a, b, length - 1);
    }
  }

  lemma {:induction false} FirstBitsSet(words: seq<word>, n: nat, length: nat)
    requires Fits(words, length) && n <= length && forall p: nat | p < length :: Bit(words, p) <==> p < n
    ensures ClearBits(words, length) == length - n
  {
    if length > 0 {
      FirstBitsSet(words, if n < length then n else n - 1, length - 1);
    }
  }

  /** Writing one bit moves the count by exactly the change of that bit. */
  lemma {:induction false} ClearBitsOfWithBit(words: seq<word>, pos: nat, value: bool, length: nat)
    requires Fits(words, length) && pos < length
    ensures Fits(WithBit(words, pos, value), length)
    ensures ClearBits(WithBit(words, pos, value), length)
            == ClearBits(words, length)
               + (if Bit(words, pos) then 1 else 0) - (if value then 1 else 0)
  {
    var after := WithBit(words, pos, value);
    BitsOfWithBit(words, pos, value);
    if pos == length - 1 {
      ClearBitsAgree(words, after, length - 1);
    } else {
      ClearBitsOfWithBit(words, pos, value, length - 1);
    }
  }

  lemma {:induction false} SomeClearBit(words: seq<word>, length: nat)
    requires Fits(words, length)
    ensures ClearBits(words, length) > 0 <==> exists p: nat :: p < length && !Bit(words, p)
  {
    if length > 0 {
      SomeClearBit(words, length - 1);
      if ClearBits(words, length) > 0 && Bit(words, length - 1) {
        var p: nat :| p < length - 1 && !Bit(words, p);
        assert p < length;
      }
    }
  }

  /** The search fails exactly when nothing is clear. */
  lemma SearchFailsWhenFull(words: seq<word>, length: nat, r: int)
    requires Fits(words, length) && IsLeastClear(words, length, r)
    ensures r == -1 <==> ClearBits(words, length) == 0
  {
    SomeClearBit(words, length);
    if r != -1 {
      assert !Bit(words, r);
    }
  }

  // ----- the in-place operations -----

  method Init(bm: array<word>, bits: nat)
    requires WordsFor(bits) <= bm.Length
    modifies bm
    ensures forall p: nat | p < bits :: p / 32 < bm.Length && !Bit(bm[..], p)
    ensures forall i | WordsFor(bits) <= i < bm.Length :: bm[i] == old(bm[i])
  {
    var i := 0;
    while i < (bits + 31) / 32
      invariant 0 <= i <= WordsFor(bits)
      invariant forall k | 0 <= k < i :: bm[k] == 0
      invariant forall k | i <= k < bm.Length :: bm[k] == old(bm[k])
    {
      bm[i] := 0;
      i := i + 1;
    }
    forall p: nat | p < bits ensures p / 32 < bm.Length && !Bit(bm[..], p) {
      ZeroHasNoBits(p % 32);
    }
  }

  method Get(bm: array<word>, pos: nat) returns (r: int)
    requires pos / 32 < bm.Length
    ensures r == if Bit(bm[..], pos) then 1 else 0
  {
    var i, j := pos / 32, pos % 32;
    r := if BitOf(bm[i], j) then 1 else 0;
  }

  method Set(bm: array<word>, pos: nat, value: bool)
    requires pos / 32 < bm.Length
    modifies bm
    ensures bm[..] == WithBit(old(bm[..]), pos, value)
  {
    var i, j := pos / 32, pos % 32;
    BitOfMasked(bm[i], j, 0);
    if !value {
      bm[i] := AndNotBit(bm[i], j);
    } else {
      bm[i] := OrBit(bm[i], j);
    }
  }

  /** `bitmap_findnset` of the kernel: skips words that are full. */
  method FindAndSet(bm: array<word>, length: nat) returns (r: int)
    requires Fits(bm[..], length)
    modifies bm
    ensures IsLeastClear(old(bm[..]), length, r)
    ensures bm[..] == AfterSearch(old(bm[..]), r)
  {
    ghost var was := bm[..];
    var i := 0;
    while i < SizeOf(length) / 4
      invariant 0 <= i <= SizeOf(length) / 4
      invariant bm[..] == was
      invariant forall p: nat | p < 32 * i && p < length :: Bit(was, p)
    {
      if bm[i] != FULL_WORD {
        var base := i * 32;
        var j := 0;
        while j < 32
          invariant 0 <= j <= 32
          invariant bm[..] == was
          invariant forall p: nat | p < base + j && p < length :: Bit(was, p)
        {
          var bit := Get(bm, base + j);
          if bit == 0 {
            if base + j >= length {
              return -1;
            }
            Set(bm, base + j, true);
            return base + j;
          }
          j := j + 1;
        }
      } else {
        FullWordCovers(was, i);
      }
      i := i + 1;
    }
    return -1;
  }

  lemma FullWordCovers(words: seq<word>, i: nat)
    requires i < |words| && words[i] == FULL_WORD
    ensures forall p: nat | 32 * i <= p < 32 * i + 32 :: Bit(words, p)
  {
    forall p: nat | 32 * i <= p < 32 * i + 32 ensures Bit(words, p) {
      FullWordHasAllBits(p % 32);
    }
  }

  /** `bitmap_findnset` of the volume tool: looks at every bit in turn. */
  method FindAndSetBitwise(bm: array<word>, length: nat) returns (r: int)
    requires Fits(bm[..], length)
    modifies bm
    ensures IsLeastClear(old(bm[..]), length, r)
    ensures bm[..] == AfterSearch(old(bm[..]), r)
  {
    var i := 0;
    while i < length
      invariant 0 <= i <= length
      invariant bm[..] == old(bm[..])
      invariant forall p: nat | p < i :: Bit(bm[..], p)
    {
      var bit := Get(bm, i);
      if bit == 0 {
        Set(bm, i, true);
        return i;
      }
      i := i + 1;
    }
    return -1;
  }

  /** The two searches agree on every bitmap and every length: same answer, same bitmap left. */
  method SearchesAgree(words: seq<word>, length: nat) returns (fast: int, slow: int, left: seq<word>, right: seq<word>)
    requires Fits(words, length)
    ensures fast == slow && left == right
    ensures IsLeastClear(words, length, fast) && left == AfterSearch(words, fast)
  {
    var a := new word[|words|](i requires 0 <= i < |words| => words[i]);
    var b := new word[|words|](i requires 0 <= i < |words| => words[i]);
    assert a[..] == words && b[..] == words;
    fast := FindAndSet(a, length);
    slow := FindAndSetBitwise(b, length);
    left, right := a[..], b[..];
    LeastClearIsUnique(words, length, fast, slow);
  }
}
