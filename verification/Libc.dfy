/** The byte-string routines of `lib/libc.c` that the file system uses. */
module Libc {

  type byte = x: int | 0 <= x < 256

  /** `MIN`. */
  function Least(a: int, b: int): (r: int)
    ensures r <= a && r <= b && (r == a || r == b)
  {
    if a < b then a else b
  }

  /** The string a buffer holds: everything before its first NUL. */
  function CString(s: seq<byte>): (r: seq<byte>)
    ensures r <= s
    ensures 0 !in r
    ensures |r| < |s| ==> s[|r|] == 0
  {
    if s == [] || s[0] == 0 then [] else [s[0]] + CString(s[1..])
  }

  /** The first NUL ends the string. */
  lemma {:induction false} CStringIs(s: seq<byte>, r: seq<byte>)
    requires |r| < |s| && s[..|r|] == r && s[|r|] == 0 && 0 !in r
    ensures CString(s) == r
  {
    if r != [] {
      assert s[0] == r[0] && r[0] in r;
      assert s[1..][..|r[1..]|] == r[1..];
      CStringIs(s[1..], r[1..]);
    }
  }

  /** Both buffers hold the same `i` characters first, none of them NUL. */
  predicate AgreeFor(s1: seq<byte>, s2: seq<byte>, i: nat)
    requires i <= |s1| && i <= |s2|
  {
    forall k | 0 <= k < i :: s1[k] == s2[k] && s1[k] != 0
  }

  lemma {:induction false} EqualIffSameAt(s1: seq<byte>, s2: seq<byte>, i: nat)
    requires i < |s1| && i < |s2| && AgreeFor(s1, s2, i) && (s1[i] == 0 || s2[i] == 0 || s1[i] != s2[i])
    ensures CString(s1) == CString(s2) <==> s1[i] == 0 == s2[i]
  {
    if i > 0 {
      EqualIffSameAt(s1[1..], s2[1..], i - 1);
      assert CString(s1)[1..] == CString(s1[1..]) && CString(s2)[1..] == CString(s2[1..]);
    } else {
      assert CString(s1) != [] && CString(s2) != [] ==> CString(s1)[0] == s1[0] && CString(s2)[0] == s2[0];
    }
  }

  /** The value of a byte as a plain `char`, which the target's compiler takes as signed or unsigned. */
  function CharValue(b: byte, signed: bool): int { if signed && b >= 128 then b - 256 else b }

  /** `stringcmp`: zero exactly on equal strings, otherwise the difference at the first place where
      they differ, with the terminating NUL taking part. `signed` says how the compiler takes `char`. */
  method StringCompare(s1: seq<byte>, s2: seq<byte>, signed: bool) returns (r: int)
    requires 0 in s1 && 0 in s2
    ensures r == 0 <==> CString(s1) == CString(s2)
    ensures r != 0 ==> exists i | 0 <= i < |s1| && i < |s2| ::
              AgreeFor(s1, s2, i) && r == CharValue(s1[i], signed) - CharValue(s2[i], signed)
  {
    hide CString;
    ghost var n1: nat :| n1 < |s1| && s1[n1] == 0;
    ghost var n2: nat :| n2 < |s2| && s2[n2] == 0;
    var i := 0;
    while true
      invariant 0 <= i <= n1 && i <= n2 && AgreeFor(s1, s2, i)
      decreases n1 - i
    {
      if s1[i] == 0 && s2[i] == 0 {
        EqualIffSameAt(s1, s2, i);
        return 0;
      }
      if s1[i] == 0 || s2[i] == 0 || s1[i] != s2[i] {
        EqualIffSameAt(s1, s2, i);
        return CharValue(s1[i], signed) - CharValue(s2[i], signed);
      }
      i := i + 1;
    }
  }

  /** What `stringcopy` to position `at` leaves: the text, cut to fit, one NUL, and whatever the target
      held beyond. The padding loop writes one cell over and over. */
  function Copied(target: seq<byte>, at: nat, text: seq<byte>, buflen: nat): seq<byte>
    requires 1 <= buflen && at + buflen <= |target|
  {
    var n := if |text| < buflen then |text| else buflen - 1;
    target[..at] + text[..n] + [0] + target[at + n + 1..]
  }

  /** `stringcopy` of the string that `source` holds. */
  method StringCopy(target: array<byte>, at: nat, source: seq<byte>, buflen: nat)
    requires 1 <= buflen && at + buflen <= target.Length && 0 in source
    modifies target
    ensures target[..] == Copied(old(target[..]), at, CString(source), buflen)
  {
    hide CString, Copied;
    ghost var text, was := CString(source), target[..];
    TextFacts(source);
    var i := 0;
    while i < buflen - 1
      invariant 0 <= i <= buflen - 1 && i <= |text| < |source|
      invariant forall k | 0 <= k < target.Length :: target[k] == if at <= k < at + i then text[k - at] else was[k]
    {
      target[at + i] := source[i];
      if source[i] == 0 {
        PadWithNul(target, at + i, buflen - i);
        CopiedIs(target[..], was, at, text, buflen, i);
        return;
      }
      i := i + 1;
    }
    target[at + i] := 0;
    CopiedIs(target[..], was, at, text, buflen, i);
  }

  lemma TextFacts(source: seq<byte>)
    requires 0 in source
    ensures |CString(source)| < |source| && source[|CString(source)|] == 0
    ensures forall k | 0 <= k < |CString(source)| :: source[k] == CString(source)[k] && source[k] != 0
  {
  }

  lemma CopiedIs(r: seq<byte>, was: seq<byte>, at: nat, text: seq<byte>, buflen: nat, n: nat)
    requires 1 <= buflen && at + buflen <= |was| == |r| && n == (if |text| < buflen then |text| else buflen - 1)
    requires forall k | 0 <= k < |r| :: r[k] == if at <= k < at + n then text[k - at] else if k == at + n then 0 else was[k]
    ensures r == Copied(was, at, text, buflen)
  {
  }

  /** The padding of `stringcopy`: `room` cells are meant, one is written. */
  method PadWithNul(target: array<byte>, i: nat, room: nat)
    requires i < target.Length
    modifies target
    ensures forall k | 0 <= k < target.Length :: target[k] == if k == i && 1 < room then 0 else old(target[k])
  {
    var k := 1;
    while k < room
      invariant forall j | 0 <= j < target.Length :: target[j] == if j == i && 1 < k then 0 else old(target[j])
      invariant 1 <= k && (k <= room || k == 1)
    {
      target[i] := 0;
      k := k + 1;
    }
  }

  /** The cells of `s` from `from` up to `to` are NUL. */
  predicate AllNul(s: seq<byte>, from: nat, to: nat)
    requires to <= |s|
  {
    forall k | from <= k < to :: s[k] == 0
  }

  /** The documentation promises NULs up to the end of the buffer. They are there exactly when the cells behind the
      first one were NUL before. */
  lemma PaddedIff(target: seq<byte>, at: nat, text: seq<byte>, buflen: nat)
    requires |text| < buflen && at + buflen <= |target|
    ensures |Copied(target, at, text, buflen)| == |target|
    ensures AllNul(Copied(target, at, text, buflen), at + |text|, at + buflen) <==> AllNul(target, at + |text| + 1, at + buflen)
  {
    var copied, n := Copied(target, at, text, buflen), at + |text|;
    assert copied[n] == 0;
    assert forall k | n < k < at + buflen :: copied[k] == target[k];
  }

  /** "a" copied over four bytes of 7: the two cells behind the NUL keep them. */
  lemma NotPaddedExample()
    ensures Copied([7, 7, 7, 7], 0, [97], 4) == [97, 0, 7, 7]
    ensures !AllNul(Copied([7, 7, 7, 7], 0, [97], 4), 1, 4)
  {
    var copied := Copied([7, 7, 7, 7], 0, [97], 4);
    assert copied == [97, 0, 7, 7] && copied[2] == 7;
  }

  /** A text that fits is read back as it was. */
  lemma CopiedReadsBack(target: seq<byte>, at: nat, text: seq<byte>, buflen: nat)
    requires 1 <= buflen && at + buflen <= |target| && |text| < buflen && 0 !in text
    ensures |Copied(target, at, text, buflen)| == |target| && CString(Copied(target, at, text, buflen)[at..]) == text
  {
    CStringIs(Copied(target, at, text, buflen)[at..], text);
  }

  /** The target of a copy of `n` bytes from `source` to position `at`. */
  function Overwritten(target: seq<byte>, at: nat, data: seq<byte>): seq<byte>
    requires at + |data| <= |target|
  {
    target[..at] + data + target[at + |data|..]
  }

  /** `memcopy` of `n` bytes between separate buffers; `aligned` says whether both addresses are
      multiples of four, in which case whole words go first. */
  method MemCopy(n: nat, target: array<byte>, at: nat, source: seq<byte>, from: nat, aligned: bool)
    requires at + n <= target.Length && from + n <= |source|
    modifies target
    ensures target[..] == Overwritten(old(target[..]), at, source[from..from + n])
  {
    if aligned {
      CopyWords(n / 4, target, at, source, from);
      CopyBytes(n % 4, target, at + n / 4 * 4, source, from + n / 4 * 4);
    } else {
      CopyBytes(n, target, at, source, from);
    }
  }

  method CopyWords(n: nat, target: array<byte>, at: nat, source: seq<byte>, from: nat)
    requires at + 4 * n <= target.Length && from + 4 * n <= |source|
    modifies target
    ensures forall k | 0 <= k < target.Length ::
              target[k] == if at <= k < at + 4 * n then source[from + (k - at)] else old(target[k])
  {
    var i := 0;
    while i < n
      invariant 0 <= i <= n
      invariant forall k | 0 <= k < target.Length ::
                  target[k] == if at <= k < at + 4 * i then source[from + (k - at)] else old(target[k])
    {
      var a, b := at + 4 * i, from + 4 * i;
      target[a], target[a + 1], target[a + 2], target[a + 3] := source[b], source[b + 1], source[b + 2], source[b + 3];
      i := i + 1;
    }
  }

  method CopyBytes(n: nat, target: array<byte>, at: nat, source: seq<byte>, from: nat)
    requires at + n <= target.Length && from + n <= |source|
    modifies target
    ensures forall k | 0 <= k < target.Length ::
              target[k] == if at <= k < at + n then source[from + (k - at)] else old(target[k])
  {
    var i := 0;
    while i < n
      invariant 0 <= i <= n
      invariant forall k | 0 <= k < target.Length ::
                  target[k] == if at <= k < at + i then source[from + (k - at)] else old(target[k])
    {
      target[at + i] := source[from + i];
      i := i + 1;
    }
  }
}
