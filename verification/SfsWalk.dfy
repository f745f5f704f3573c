/** Finding a name in a folder block, and following a path through the folders on disk. */
module SfsWalk {
  import opened Libc
  import opened BlockLayout
  import opened SfsPath
  import opened SfsState
  import opened SfsTree
  import opened SfsSteps

  const VFS_OK := 0
  const VFS_ERROR := -2
  const VFS_NOT_FOUND := -5

  /** The first entry that carries the name decides. */
  lemma {:induction false} FirstMatch(es: seq<Entry>, n: seq<byte>, i: nat)
    requires i < |es| && Used(es[i]) && CString(es[i].name) == n
    requires forall j | 0 <= j < i && Used(es[j]) :: CString(es[j].name) != n
    ensures n in Listing(es) && Listing(es)[n] == es[i].inode
  {
    hide CString;
    if i > 0 { FirstMatch(es[1..], n, i - 1); }
  }

  lemma NamesHaveEnds(e: Entry)
    requires ValidName(CString(e.name))
    ensures 0 in e.name
  {
    assert e.name[|CString(e.name)|] == 0;
  }

  /** The search loop of `sfs_resolve_file_ext` over one folder block. */
  method FindName(b: Block, filename: seq<byte>) returns (inode: int)
    requires 0 in filename
    requires forall i | 0 <= i < MAX_FILES && Used(Entries(b)[i]) :: 0 in Entries(b)[i].name
    ensures inode == -1 <==> CString(filename) !in Listing(Entries(b))
    ensures inode != -1 ==> Listing(Entries(b))[CString(filename)] == inode
  {
    hide CString, Listing, EntryAt, AgreeFor, CharValue, WordAt;
    ghost var es, n := Entries(b), CString(filename);
    var i := 0;
    while i < MAX_FILES
      invariant 0 <= i <= MAX_FILES
      invariant forall j | 0 <= j < i && Used(es[j]) :: CString(es[j].name) != n
    {
      var e := EntryAt(b, i);
      assert e == es[i];
      if e.inode > 0 {
        var r := StringCompare(e.name, filename, true);
        if r == 0 {
          FirstMatch(es, n, i);
          return e.inode;
        }
      }
      i := i + 1;
    }
    NotListed(es, n);
    return -1;
  }

  /** Where the walk stands: `done` elements have been followed to `block`, `consumed` is left. */
  ghost predicate WalkAt(fs: Fs, path: seq<byte>, done: Path, consumed: seq<byte>, block: int)
    requires NodesOk(fs)
  {
    && path != [] && Elements(path[1..]) == done + Elements(consumed)
    && AllValid(Elements(consumed)) && 0 !in consumed
    && Lookup(Tree(fs), ROOT, done) == At(block)
  }

  lemma WalkStarts(fs: Fs, path: seq<byte>)
    requires NodesOk(fs) && ValidPath(path) && 0 !in path
    ensures WalkAt(fs, path, [], path[1..], ROOT)
  {
  }

  /** As long as something is left, the walk stands in a folder. */
  lemma WalkInFolder(fs: Fs, path: seq<byte>, done: Path, consumed: seq<byte>, block: int)
    requires NodesOk(fs) && FoldersOk(fs) && WalkAt(fs, path, done, consumed, block) && consumed != []
    ensures block in Tree(fs) && 0 <= block < |fs.disk| && Tree(fs)[block] == Listing(Entries(fs.disk[block]))
    ensures forall i | 0 <= i < MAX_FILES && Used(Entries(fs.disk[block])[i]) :: 0 in Entries(fs.disk[block])[i].name
  {
    hide AllValid, Listing, ValidName, CString, Entries, Elements;
    ResolvedNode(fs, done);
    if done != [] {
      OnlyLastIsFile(path[1..]);
      assert Elements(path[1..])[|done| - 1] == done[|done| - 1];
    }
    EntriesAre(fs, block);
    forall i | 0 <= i < MAX_FILES && Used(Entries(fs.disk[block])[i]) ensures 0 in Entries(fs.disk[block])[i].name {
      NamesHaveEnds(Entries(fs.disk[block])[i]);
    }
  }

  lemma WalkStep(fs: Fs, path: seq<byte>, done: Path, consumed: seq<byte>, block: int, name: seq<byte>, next: int)
    requires NodesOk(fs) && WalkAt(fs, path, done, consumed, block) && consumed != [] && name == Elements(consumed)[0]
    requires block in Tree(fs) && name in Tree(fs)[block] && Tree(fs)[block][name] == next
    ensures WalkAt(fs, path, done + [name], consumed[Cut(consumed)..], next)
  {
    hide Tree, ValidName, NodesOk, Elements, AllValid, Lookup, Cut;
    var rest := consumed[Cut(consumed)..];
    LookupSnoc(Tree(fs), ROOT, done, name);
    ElementsUnfold(consumed);
    AllValidCons(name, Elements(rest));
    assert done + ([name] + Elements(rest)) == done + [name] + Elements(rest);
  }

  lemma ElementsUnfold(s: seq<byte>)
    requires s != []
    ensures Elements(s) == [s[..Cut(s)]] + Elements(s[Cut(s)..])
  {
  }

  /** A name that is missing ends the walk: nothing below it can be found, and only if it was the last
      element has its folder been found. */
  lemma {:induction false} WalkFails(tree: Folders, from: int, done: Path, rest: Path)
    requires rest != [] && Child(tree, Lookup(tree, from, done), rest[0]) == Nowhere
    ensures Lookup(tree, from, done + rest) == Nowhere
    ensures |rest| > 1 ==> Lookup(tree, from, (done + rest)[..|done + rest| - 1]) == Nowhere
    decreases |rest|
  {
    var all := done + rest;
    LookupSplit(tree, from, all);
    if |rest| > 1 {
      WalkFails(tree, from, done, rest[..|rest| - 1]);
      assert all[..|all| - 1] == done + rest[..|rest| - 1];
    } else {
      assert all[..|all| - 1] == done;
    }
  }

  /** The answer that `sfs_resolve_file_ext` owes its callers, in terms of the tree: the inode the path
      leads to, the folder that holds or would hold the last element, and whether that folder exists. */
  ghost predicate Resolves(tree: Folders, es: Path, r: int, parent: int, parentExists: bool) {
    && (r == VFS_ERROR <==> Lookup(tree, ROOT, es) == Nowhere)
    && (r != VFS_ERROR ==> Lookup(tree, ROOT, es) == At(r))
    && (es == [] ==> parent == -1)
    && (es != [] ==>
          var up := Lookup(tree, ROOT, es[..|es| - 1]);
          && (up.At? ==> parent == up.inode)
          && (r == VFS_ERROR ==> (parentExists <==> up.At?)))
  }
}
