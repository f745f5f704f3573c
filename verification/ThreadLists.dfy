/** Singly linked lists threaded through a table of links, as the thread table keeps them:
    `link[t]` is the successor of thread `t`, and -1 ends a list. */
module ThreadLists {
  import opened Sequences

  function First(xs: seq<int>): int { if xs == [] then -1 else xs[0] }

  function Last(xs: seq<int>): int { if xs == [] then -1 else xs[|xs| - 1] }

  /** The list that starts at `head` runs through exactly the threads `xs`, in that order, and
      ends: it has no cycle and no repetition. Thread 0 (idle) is on no list. */
  ghost predicate Linked(link: seq<int>, head: int, xs: seq<int>) {
    && (forall i | 0 <= i < |xs| :: 0 < xs[i] < |link|)
    && Distinct(xs)
    && head == First(xs)
    && (forall i, j | 0 <= i < |xs| && 0 <= j < |xs| && j == i + 1 :: link[xs[i]] == xs[j])
    && (xs != [] ==> link[Last(xs)] == -1)
  }

  function InsertAt(xs: seq<int>, k: nat, t: int): seq<int>
    requires k <= |xs|
  {
    xs[..k] + [t] + xs[k..]
  }

  function RemoveAt(xs: seq<int>, k: nat): seq<int>
    requires k < |xs|
  {
    xs[..k] + xs[k + 1..]
  }

  /** The link table after splicing `t` in front of position `k`. */
  function LinksAfterInsert(link: seq<int>, xs: seq<int>, k: nat, t: int): seq<int>
    requires k <= |xs| && 0 <= t < |link|
    requires forall i | 0 <= i < |xs| :: 0 <= xs[i] < |link|
  {
    var toRest := link[t := if k < |xs| then xs[k] else -1];
    if k == 0 then toRest else toRest[xs[k - 1] := t]
  }

  lemma InsertKeepsDistinct(xs: seq<int>, k: nat, t: int)
    requires Distinct(xs) && k <= |xs| && t !in xs
    ensures Distinct(InsertAt(xs, k, t))
  {
    var ys := InsertAt(xs, k, t);
    forall i, j | 0 <= i < j < |ys| ensures ys[i] != ys[j] {
      var p, q := if i <= k then i else i - 1, if j <= k then j else j - 1;
      assert i != k ==> ys[i] == xs[p];
      assert j != k ==> ys[j] == xs[q];
    }
  }

  lemma InsertedLink(link: seq<int>, xs: seq<int>, k: nat, t: int, i: nat)
    requires Linked(link, First(xs), xs) && k <= |xs| && i < |xs|
    requires 0 < t < |link| && t !in xs
    ensures LinksAfterInsert(link, xs, k, t)[InsertAt(xs, k, t)[i]] == InsertAt(xs, k, t)[i + 1]
  {
    if i + 1 < k {
      assert xs[i] != xs[k - 1] && link[xs[i]] == xs[i + 1];
    } else if i > k {
      assert link[xs[i - 1]] == xs[i];
    }
  }

  lemma InsertKeepsLinked(link: seq<int>, head: int, xs: seq<int>, k: nat, t: int)
    requires Linked(link, head, xs) && k <= |xs|
    requires 0 < t < |link| && t !in xs
    ensures Linked(LinksAfterInsert(link, xs, k, t), if k == 0 then t else head, InsertAt(xs, k, t))
  {
    var ys := InsertAt(xs, k, t);
    var after := LinksAfterInsert(link, xs, k, t);
    forall i | 0 <= i < |ys| ensures 0 < ys[i] < |after| {
      assert i != k ==> ys[i] == xs[if i < k then i else i - 1];
    }
    forall i, j | 0 <= i < j < |ys| && j == i + 1 ensures after[ys[i]] == ys[j] {
      InsertedLink(link, xs, k, t, i);
    }
    if k > 0 && k < |xs| { assert xs[|xs| - 1] != xs[k - 1]; }
    InsertKeepsDistinct(xs, k, t);
  }

  /** The link table after unhooking position `k`. */
  function LinksAfterRemove(link: seq<int>, xs: seq<int>, k: nat): seq<int>
    requires k < |xs|
    requires forall i | 0 <= i < |xs| :: 0 <= xs[i] < |link|
  {
    if k == 0 then link else link[xs[k - 1] := link[xs[k]]]
  }

  lemma RemoveKeepsDistinct(xs: seq<int>, k: nat)
    requires Distinct(xs) && k < |xs|
    ensures Distinct(RemoveAt(xs, k))
  {
    var ys := RemoveAt(xs, k);
    forall i, j | 0 <= i < j < |ys| ensures ys[i] != ys[j] {
      assert ys[i] == xs[if i < k then i else i + 1];
      assert ys[j] == xs[if j < k then j else j + 1];
    }
  }

  lemma RemovedLink(link: seq<int>, xs: seq<int>, k: nat, i: nat)
    requires Linked(link, First(xs), xs) && k < |xs| && i + 2 < |xs|
    ensures LinksAfterRemove(link, xs, k)[RemoveAt(xs, k)[i]] == RemoveAt(xs, k)[i + 1]
  {
    if i + 1 < k {
      assert xs[i] != xs[k - 1] && link[xs[i]] == xs[i + 1];
    } else if i + 1 == k {
      assert link[xs[k]] == xs[k + 1];
    } else {
      assert link[xs[i + 1]] == xs[i + 2];
    }
  }

  lemma RemoveKeepsLinked(link: seq<int>, head: int, xs: seq<int>, k: nat)
    requires Linked(link, head, xs) && k < |xs|
    ensures Linked(LinksAfterRemove(link, xs, k), if k == 0 then link[xs[0]] else head, RemoveAt(xs, k))
  {
    var ys := RemoveAt(xs, k);
    var after := LinksAfterRemove(link, xs, k);
    RemoveKeepsDistinct(xs, k);
    forall i | 0 <= i < |ys| ensures 0 < ys[i] < |after| {
      assert ys[i] == xs[if i < k then i else i + 1];
    }
    forall i, j | 0 <= i < j < |ys| && j == i + 1 ensures after[ys[i]] == ys[j] {
      RemovedLink(link, xs, k, i);
    }
    if k == |xs| - 1 && k > 0 {
      assert ys[|ys| - 1] == xs[k - 1];
    } else if ys != [] {
      assert ys[|ys| - 1] == xs[|xs| - 1];
      if k > 0 { assert xs[|xs| - 1] != xs[k - 1]; }
    }
    assert |xs| > 1 ==> link[xs[0]] == xs[1];
  }

  /** Dropping the first thread: its successor is the new head, and the tail moves only if nothing is left. */
  lemma RestLinked(link: seq<int>, head: int, xs: seq<int>)
    requires Linked(link, head, xs) && xs != []
    ensures Linked(link, link[xs[0]], xs[1..])
    ensures Last(xs[1..]) == if Last(xs) == xs[0] then -1 else Last(xs)
    ensures forall i | 0 <= i < |xs[1..]| :: xs[1..][i] != xs[0]
  {
    var rest := xs[1..];
    forall i | 0 <= i < |rest| ensures rest[i] == xs[i + 1] != xs[0] && 0 < rest[i] < |link| {}
    forall i, j | 0 <= i < |rest| && 0 <= j < |rest| && j == i + 1 ensures link[rest[i]] == rest[j] {
      assert rest[i] == xs[j] && rest[j] == xs[j + 1];
    }
  }

  /** A list only depends on the links of its own members. */
  lemma LinkedFrame(link: seq<int>, other: seq<int>, head: int, xs: seq<int>)
    requires Linked(link, head, xs) && |other| == |link|
    requires forall i | 0 <= i < |xs| :: other[xs[i]] == link[xs[i]]
    ensures Linked(other, head, xs)
  {
  }

  lemma InsertAtMembers(xs: seq<int>, k: nat, t: int)
    requires k <= |xs|
    ensures forall x :: x in InsertAt(xs, k, t) <==> x in xs || x == t
  {
    var ys := InsertAt(xs, k, t);
    forall x | x in xs ensures x in ys {
      var i :| 0 <= i < |xs| && xs[i] == x;
      assert ys[if i < k then i else i + 1] == x;
    }
    assert ys[k] == t;
  }

  /** `xs` with every occurrence of `x` taken out. */
  function Without(xs: seq<int>, x: int): seq<int> {
    if xs == [] then []
    else Without(xs[..|xs| - 1], x) + (if xs[|xs| - 1] == x then [] else [xs[|xs| - 1]])
  }

  lemma {:induction false} WithoutAbsent(xs: seq<int>, x: int)
    requires x !in xs
    ensures Without(xs, x) == xs
  {
    if xs != [] {
      WithoutAbsent(xs[..|xs| - 1], x);
    }
  }

  lemma {:induction false} WithoutConcat(xs: seq<int>, ys: seq<int>, x: int)
    ensures Without(xs + ys, x) == Without(xs, x) + Without(ys, x)
  {
    if ys == [] {
      assert xs + ys == xs;
    } else {
      WithoutConcat(xs, ys[..|ys| - 1], x);
      assert (xs + ys)[..|xs + ys| - 1] == xs + ys[..|ys| - 1];
    }
  }

  /** In a list of distinct threads, taking out the thread at `k` is unhooking position `k`. */
  lemma {:induction false} WithoutIsRemoveAt(xs: seq<int>, k: nat)
    requires Distinct(xs) && k < |xs|
    ensures Without(xs, xs[k]) == RemoveAt(xs, k)
  {
    var n := |xs| - 1;
    if k == n {
      WithoutAbsent(xs[..n], xs[k]);
    } else {
      WithoutIsRemoveAt(xs[..n], k);
      assert RemoveAt(xs, k) == RemoveAt(xs[..n], k) + [xs[n]];
    }
  }

  lemma {:induction false} WithoutMembers(xs: seq<int>, x: int)
    ensures forall y :: y in Without(xs, x) <==> y in xs && y != x
  {
    if xs != [] {
      WithoutMembers(xs[..|xs| - 1], x);
      assert xs == xs[..|xs| - 1] + [xs[|xs| - 1]];
    }
  }

  lemma WithoutDistinct(xs: seq<int>, x: int)
    requires Distinct(xs)
    ensures Distinct(Without(xs, x))
  {
    if x in xs {
      var k := IndexOf(xs, x);
      WithoutIsRemoveAt(xs, k);
      RemoveKeepsDistinct(xs, k);
    } else {
      WithoutAbsent(xs, x);
    }
  }

  /** The only place where `x` occurs in a list of distinct threads. */
  ghost function IndexOf(xs: seq<int>, x: int): (k: nat)
    requires x in xs
    ensures k < |xs| && xs[k] == x
  {
    var k :| 0 <= k < |xs| && xs[k] == x;
    k
  }
}
