/** Paths of the Student Filesystem: what a valid path is, its elements, and the loops of `fs/sfs.c`
    that check and take it apart. A folder's name carries its trailing slash. */
module SfsPath {
  import opened Libc

  const SLASH: byte := 47
  const NAME_LIMIT := 16

  predicate ValidChar(c: byte) {
    c == 95 || c == 45 || c == 46 || c == 126 || c == 32 || 48 <= c <= 57 || 65 <= c <= 90 || 97 <= c <= 122
  }

  predicate FolderName(e: seq<byte>) { e != [] && e[|e| - 1] == SLASH }

  /** What a path element may be: at most 15 characters, of which only the last may be a slash, and
      not a slash alone. */
  predicate ValidName(e: seq<byte>) {
    && 1 <= |e| < NAME_LIMIT
    && (forall i | 0 <= i < |e| - 1 :: ValidChar(e[i]))
    && (if e[|e| - 1] == SLASH then |e| >= 2 else ValidChar(e[|e| - 1]))
  }

  /** Length of the first element: up to and including the first slash. */
  function Cut(s: seq<byte>): (n: nat)
    ensures n <= |s| && (s != [] ==> n >= 1)
    ensures forall i | 0 <= i < n - 1 :: s[i] != SLASH
    ensures n < |s| ==> n >= 1 && s[n - 1] == SLASH
  {
    if s == [] then 0 else if s[0] == SLASH then 1 else 1 + Cut(s[1..])
  }

  /** The elements of what follows the leading slash. */
  function Elements(s: seq<byte>): (es: seq<seq<byte>>)
    ensures s != [] <==> es != []
  {
    if s == [] then [] else [s[..Cut(s)]] + Elements(s[Cut(s)..])
  }

  function Flatten(es: seq<seq<byte>>): seq<byte> {
    if es == [] then [] else es[0] + Flatten(es[1..])
  }

  /** Nothing is lost: the elements put together are the path again. */
  lemma {:induction false} ElementsFlatten(s: seq<byte>)
    ensures Flatten(Elements(s)) == s
    decreases |s|
  {
    if s != [] {
      ElementsFlatten(s[Cut(s)..]);
      assert Elements(s)[1..] == Elements(s[Cut(s)..]);
    }
  }

  /** Every element but the last is a folder name, and the last one is exactly when the path ends in
      a slash. */
  lemma {:induction false} OnlyLastIsFile(s: seq<byte>)
    ensures forall i | 0 <= i < |Elements(s)| - 1 :: FolderName(Elements(s)[i])
    ensures s != [] ==> (FolderName(Elements(s)[|Elements(s)| - 1]) <==> FolderName(s))
    decreases |s|
  {
    hide FolderName;
    if s != [] {
      var e, rest := s[..Cut(s)], s[Cut(s)..];
      OnlyLastIsFile(rest);
      FirstCut(s);
      assert Elements(s) == [e] + Elements(rest);
    }
  }

  lemma FirstCut(s: seq<byte>)
    requires s != []
    ensures s[Cut(s)..] == [] ==> s[..Cut(s)] == s
    ensures s[Cut(s)..] != [] ==> FolderName(s[..Cut(s)]) && (FolderName(s) <==> FolderName(s[Cut(s)..]))
  {
    assert s == s[..Cut(s)] + s[Cut(s)..];
  }

  predicate AllValid(es: seq<seq<byte>>) { forall i | 0 <= i < |es| :: ValidName(es[i]) }

  /** A valid path: a slash followed by valid elements. */
  predicate ValidPath(path: seq<byte>) {
    path != [] && path[0] == SLASH && AllValid(Elements(path[1..]))
  }

  // ----- the check, character by character -----

  /** The scan from inside an element of which `n` characters have been seen. */
  predicate Scans(s: seq<byte>, n: nat) {
    || s == []
    || (&& n + 1 < NAME_LIMIT
        && if s[0] == SLASH then n > 0 && Scans(s[1..], 0) else ValidChar(s[0]) && Scans(s[1..], n + 1))
  }

  /** The scan accepts the rest of the current element and whatever follows it. */
  lemma {:induction false} ScansElement(s: seq<byte>, n: nat)
    requires s != []
    ensures Scans(s, n) <==>
              && n + Cut(s) < NAME_LIMIT
              && (forall i | 0 <= i < Cut(s) - 1 :: ValidChar(s[i]))
              && (if s[Cut(s) - 1] == SLASH then n + Cut(s) >= 2 else ValidChar(s[Cut(s) - 1]))
              && Scans(s[Cut(s)..], 0)
  {
    if s[0] != SLASH && |s| > 1 {
      ScansElement(s[1..], n + 1);
      assert s[1..][Cut(s[1..])..] == s[Cut(s)..];
      assert s[1..][Cut(s[1..]) - 1] == s[Cut(s) - 1];
      assert (forall i | 0 <= i < Cut(s) - 1 :: ValidChar(s[i])) <==>
        ValidChar(s[0]) && (forall i | 0 <= i < Cut(s[1..]) - 1 :: ValidChar(s[1..][i])) by {
        if ValidChar(s[0]) && (forall i | 0 <= i < Cut(s[1..]) - 1 :: ValidChar(s[1..][i])) {
          forall i | 0 <= i < Cut(s) - 1 ensures ValidChar(s[i]) {
            if i > 0 { assert s[1..][i - 1] == s[i]; }
          }
        }
      }
    }
  }

  lemma AllValidCons(e: seq<byte>, es: seq<seq<byte>>)
    ensures AllValid([e] + es) <==> ValidName(e) && AllValid(es)
  {
    hide ValidName;
    var all := [e] + es;
    if AllValid(all) {
      assert ValidName(all[0]);
      forall i | 0 <= i < |es| ensures ValidName(es[i]) { assert es[i] == all[i + 1]; }
    }
  }

  lemma {:induction false} ScansIffValid(s: seq<byte>)
    ensures Scans(s, 0) <==> AllValid(Elements(s))
    decreases |s|
  {
    hide Scans, AllValid;
    if s == [] {
      NothingToScan();
    } else {
      ScansElement(s, 0);
      ScansIffValid(s[Cut(s)..]);
      AllValidCons(s[..Cut(s)], Elements(s[Cut(s)..]));
    }
  }

  lemma NothingToScan()
    ensures Scans([], 0) && AllValid([])
  {
  }

  /** `sfs_is_valid_path`. */
  method IsValidPath(path: seq<byte>) returns (ok: bool)
    ensures ok <==> ValidPath(path)
  {
    if |path| < 1 || path[0] != SLASH {
      return false;
    }
    ScansIffValid(path[1..]);
    var elemchars, i := 0, 1;
    while i < |path|
      invariant 1 <= i <= |path| && elemchars >= 0
      invariant elemchars == 0 <==> path[i - 1] == SLASH
      invariant Scans(path[i..], elemchars) <==> Scans(path[1..], 0)
    {
      assert path[i..][1..] == path[i + 1..];
      elemchars := elemchars + 1;
      if elemchars >= NAME_LIMIT {
        return false;
      }
      if path[i] == SLASH {
        if path[i - 1] == SLASH {
          return false;
        }
        elemchars := 0;
      } else if !ValidChar(path[i]) {
        return false;
      }
      i := i + 1;
    }
    return true;
  }

  /** `sfs_is_folder`. */
  method IsFolder(path: seq<byte>) returns (r: bool)
    ensures r <==> FolderName(path)
  {
    return |path| >= 1 && path[|path| - 1] == SLASH;
  }

  // ----- taking a path apart -----

  /** `sfs_next_path_elem`: copies the first element of a string into the buffer, with its NUL; the
      buffer is never overrun on what is left of a valid path. */
  method NextPathElem(consumed: seq<byte>, buffer: array<byte>) returns (found: bool, rest: seq<byte>)
    requires buffer.Length == NAME_LIMIT && 0 !in consumed && AllValid(Elements(consumed))
    modifies buffer
    ensures found <==> consumed != []
    ensures found ==> rest == consumed[Cut(consumed)..] && AllValid(Elements(rest)) && 0 !in rest
    ensures found ==> CString(buffer[..]) == Elements(consumed)[0] && 0 in buffer[..]
  {
    if consumed != [] { assert ValidName(Elements(consumed)[0]); }
    var i := 0;
    while true
      invariant 0 <= i <= Cut(consumed) && (i == Cut(consumed) ==> i == |consumed|) && i < NAME_LIMIT
      invariant forall k | 0 <= k < i :: buffer[k] == consumed[k]
      decreases |consumed| - i
    {
      buffer[i] := if i < |consumed| then consumed[i] else 0;
      if buffer[i] == 0 {
        if i == 0 {
          return false, [];
        }
        ElementCopied(consumed, i, buffer[..]);
        return true, consumed[i..];
      } else if buffer[i] == SLASH {
        buffer[i + 1] := 0;
        ElementCopied(consumed, i + 1, buffer[..]);
        return true, consumed[i + 1..];
      }
      i := i + 1;
    }
  }

  lemma ElementCopied(consumed: seq<byte>, n: nat, buffer: seq<byte>)
    requires 0 !in consumed && AllValid(Elements(consumed)) && n == Cut(consumed) && consumed != []
    requires n < |buffer| && (forall k | 0 <= k < n :: buffer[k] == consumed[k]) && buffer[n] == 0
    ensures CString(buffer) == Elements(consumed)[0]
    ensures AllValid(Elements(consumed[n..])) && 0 !in consumed[n..] && 0 in buffer
  {
    CStringIs(buffer, consumed[..n]);
    assert Elements(consumed[n..]) == Elements(consumed)[1..];
  }

  /** What follows the last slash before the end is the last element. */
  lemma {:induction false} LastElement(s: seq<byte>, k: nat)
    requires k < |s| && (k == 0 || s[k - 1] == SLASH) && forall j | k <= j < |s| - 1 :: s[j] != SLASH
    ensures Elements(s)[|Elements(s)| - 1] == s[k..]
    decreases |s|
  {
    var c := Cut(s);
    if k == 0 {
      assert s[..c] == s && s[c..] == [];
    } else {
      assert c <= k;
      var rest := s[c..];
      LastElement(rest, k - c);
      assert Elements(s)[|Elements(s)| - 1] == Elements(rest)[|Elements(rest)| - 1];
      assert rest[k - c..] == s[k..];
    }
  }

  /** `sfs_get_actual_filename`: on a path of two or more characters, its last element. */
  method ActualFilename(path: seq<byte>) returns (name: seq<byte>)
    requires path != [] && path[0] == SLASH
    ensures |path| >= 2 ==> name == Elements(path[1..])[|Elements(path[1..])| - 1]
    ensures |path| == 1 ==> name == path
  {
    var last, i := -1, 0;
    while i < |path|
      invariant 0 <= i <= |path| && (last == -1 || (0 <= last < i && last + 1 < |path| && path[last] == SLASH))
      invariant last == -1 ==> i == 0 || |path| == 1
      invariant forall k | last < k < i && k + 1 < |path| :: path[k] != SLASH
    {
      if path[i] == SLASH {
        if i + 1 < |path| {
          last := i;
        }
      }
      i := i + 1;
    }
    name := path[last + 1..];
    if |path| >= 2 {
      LastElement(path[1..], last);
      assert path[1..][last..] == path[last + 1..];
    }
  }
}
