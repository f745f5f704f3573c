/** Walking the directory tree: lookup by path elements, uniqueness of paths, and how paths resolve
    after a name has been added or taken out. */
module SfsTree {
  import opened Libc
  import opened SfsState

  type Path = seq<seq<byte>>
  type Folders = map<int, map<seq<byte>, int>>

  /** Where a path leads. */
  datatype Found = Nowhere | At(inode: int)

  function Lookup(tree: Folders, from: int, path: Path): Found
    decreases |path|
  {
    if path == [] then At(from)
    else if from in tree && path[0] in tree[from] then Lookup(tree, tree[from][path[0]], path[1..])
    else Nowhere
  }

  function Child(tree: Folders, folder: Found, name: seq<byte>): Found {
    if folder.At? && folder.inode in tree && name in tree[folder.inode] then At(tree[folder.inode][name]) else Nowhere
  }

  /** The last element is looked up in what the others lead to. */
  lemma {:induction false} LookupSnoc(tree: Folders, from: int, path: Path, name: seq<byte>)
    ensures Lookup(tree, from, path + [name]) == Child(tree, Lookup(tree, from, path), name)
    decreases |path|
  {
    if path == [] {
      assert ([] + [name])[1..] == [];
    } else {
      assert (path + [name])[1..] == path[1..] + [name];
      if from in tree && path[0] in tree[from] {
        LookupSnoc(tree, tree[from][path[0]], path[1..], name);
      }
    }
  }

  lemma LookupSplit(tree: Folders, from: int, path: Path)
    requires path != []
    ensures Lookup(tree, from, path)
            == Child(tree, Lookup(tree, from, path[..|path| - 1]), path[|path| - 1])
  {
    LookupSnoc(tree, from, path[..|path| - 1], path[|path| - 1]);
    assert path[..|path| - 1] + [path[|path| - 1]] == path;
  }

  /** Everything listed has one home and one name there, and nobody lists the root. */
  ghost predicate Forest(tree: Folders, home: map<int, int>) {
    && ROOT !in home
    && (forall f, n | f in tree && n in tree[f] :: tree[f][n] in home && home[tree[f][n]] == f)
    && (forall f, n, m | f in tree && n in tree[f] && m in tree[f] && tree[f][n] == tree[f][m] :: n == m)
  }

  lemma ChildHome(tree: Folders, home: map<int, int>, a: Found, n: seq<byte>, b: Found, m: seq<byte>)
    requires Forest(tree, home) && Child(tree, a, n).At?
    ensures a.At? && Child(tree, a, n).inode in home && home[Child(tree, a, n).inode] == a.inode
    ensures Child(tree, a, n) == Child(tree, b, m) ==> a == b && n == m
  {
  }

  lemma RootIsNobodysChild(tree: Folders, home: map<int, int>, p: Path)
    requires Forest(tree, home)
    ensures Lookup(tree, ROOT, p) == At(ROOT) <==> p == []
  {
    if p != [] && Lookup(tree, ROOT, p).At? {
      LookupSplit(tree, ROOT, p);
      ChildHome(tree, home, Lookup(tree, ROOT, p[..|p| - 1]), p[|p| - 1], Nowhere, []);
    }
  }

  /** Two paths that lead to the same place are the same path. */
  lemma {:induction false} UniquePath(tree: Folders, home: map<int, int>, p: Path, q: Path)
    requires Forest(tree, home)
    requires Lookup(tree, ROOT, p).At? && Lookup(tree, ROOT, p) == Lookup(tree, ROOT, q)
    ensures p == q
    decreases |p|
  {
    hide Forest, Child;
    RootIsNobodysChild(tree, home, p);
    RootIsNobodysChild(tree, home, q);
    if p != [] && q != [] {
      var p', q' := p[..|p| - 1], q[..|q| - 1];
      LookupSplit(tree, ROOT, p);
      LookupSplit(tree, ROOT, q);
      ChildHome(tree, home, Lookup(tree, ROOT, p'), p[|p| - 1], Lookup(tree, ROOT, q'), q[|q| - 1]);
      UniquePath(tree, home, p', q');
      assert p == p' + [p[|p| - 1]] && q == q' + [q[|q| - 1]];
    }
  }

  // ----- taking a name out -----

  /** Name `n` is gone from folder `p`; if it was a folder, it may be gone as well. */
  ghost predicate Removed(tree: Folders, after: Folders, p: int, n: seq<byte>) {
    && p in tree && n in tree[p] && p in after
    && (forall f | f in after :: f in tree && after[f] == if f == p then tree[f] - {n} else tree[f])
    && (forall f | f in tree && f != tree[p][n] :: f in after)
  }

  /** After a removal the path no longer resolves, nor does any path through it. */
  lemma {:induction false} RemovedPathIsGone(tree: Folders, home: map<int, int>, after: Folders, path: Path, n: seq<byte>, more: Path)
    requires Forest(tree, home) && Lookup(tree, ROOT, path).At?
    requires Removed(tree, after, Lookup(tree, ROOT, path).inode, n)
    ensures Lookup(after, ROOT, path + [n] + more) == Nowhere
    decreases |more|
  {
    var p := Lookup(tree, ROOT, path).inode;
    if more == [] {
      OthersStayAfterRemoval(tree, home, after, path, n, path);
      LookupSnoc(after, ROOT, path, n);
      assert path + [n] + more == path + [n];
    } else {
      var most := more[..|more| - 1];
      RemovedPathIsGone(tree, home, after, path, n, most);
      LookupSnoc(after, ROOT, path + [n] + most, more[|more| - 1]);
      assert path + [n] + more == path + [n] + most + [more[|more| - 1]];
    }
  }

  /** After a removal every other path resolves as before. */
  lemma {:induction false} OthersStayAfterRemoval(tree: Folders, home: map<int, int>, after: Folders, path: Path, n: seq<byte>, q: Path)
    requires Forest(tree, home) && Lookup(tree, ROOT, path).At?
    requires Removed(tree, after, Lookup(tree, ROOT, path).inode, n)
    requires !(path + [n] <= q)
    ensures Lookup(after, ROOT, q) == Lookup(tree, ROOT, q)
    decreases |q|
  {
    if q != [] {
      var most, x, p := q[..|q| - 1], q[|q| - 1], Lookup(tree, ROOT, path).inode;
      assert q == most + [x];
      OthersStayAfterRemoval(tree, home, after, path, n, most);
      LookupSplit(tree, ROOT, q);
      LookupSplit(after, ROOT, q);
      LookupSnoc(tree, ROOT, path, n);
      var at := Lookup(tree, ROOT, most);
      if at == At(p) {
        UniquePath(tree, home, most, path);
      } else if at == At(tree[p][n]) {
        UniquePath(tree, home, most, path + [n]);
      }
    }
  }

  // ----- adding a name -----

  /** Folder `p` has the new name `n` for `c`, which nobody listed; a new folder is empty. */
  ghost predicate Added(tree: Folders, after: Folders, p: int, n: seq<byte>, c: int) {
    && p in tree && n !in tree[p] && c !in tree && c != ROOT
    && p in after && after[p] == tree[p][n := c]
    && (forall f | f in tree && f != p :: f in after && after[f] == tree[f])
    && (forall f | f in after && f !in tree :: f == c && after[f] == map[])
  }

  /** After an addition every path that does not go through the new name resolves as before. */
  lemma {:induction false} OthersStayAfterAddition(tree: Folders, home: map<int, int>, after: Folders, path: Path, n: seq<byte>, c: int, q: Path)
    requires Forest(tree, home) && Lookup(tree, ROOT, path).At? && c !in home
    requires Added(tree, after, Lookup(tree, ROOT, path).inode, n, c)
    requires !(path + [n] <= q)
    ensures Lookup(after, ROOT, q) == Lookup(tree, ROOT, q) && Lookup(tree, ROOT, q) != At(c)
    decreases |q|
  {
    if q != [] {
      var most, x, p := q[..|q| - 1], q[|q| - 1], Lookup(tree, ROOT, path).inode;
      assert q == most + [x];
      OthersStayAfterAddition(tree, home, after, path, n, c, most);
      LookupSplit(tree, ROOT, q);
      LookupSplit(after, ROOT, q);
      if Lookup(tree, ROOT, most) == At(p) { UniquePath(tree, home, most, path); }
    }
  }

  /** The new path leads to the new inode, and there is nothing below it. */
  lemma AddedPathResolves(tree: Folders, home: map<int, int>, after: Folders, path: Path, n: seq<byte>, c: int, x: seq<byte>)
    requires Forest(tree, home) && Lookup(tree, ROOT, path).At? && c !in home
    requires Added(tree, after, Lookup(tree, ROOT, path).inode, n, c)
    ensures Lookup(tree, ROOT, path + [n]) == Nowhere
    ensures Lookup(after, ROOT, path + [n]) == At(c)
    ensures Lookup(after, ROOT, path + [n, x]) == Nowhere
  {
    OthersStayAfterAddition(tree, home, after, path, n, c, path);
    LookupSnoc(tree, ROOT, path, n);
    LookupSnoc(after, ROOT, path, n);
    LookupSnoc(after, ROOT, path + [n], x);
    assert path + [n] + [x] == path + [n, x];
  }
}
