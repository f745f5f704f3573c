/** The steps that SFS operations are made of, on values, and what they keep: opening and closing a row
    of the open-file table, taking a name out of its folder, and giving blocks back. */
module SfsSteps {
  import opened Sequences
  import opened Libc
  import opened BlockLayout
  import opened SfsPath
  import opened SfsState
  import opened SfsTree

  // ----- the tree of a consistent volume -----

  lemma EntriesAre(fs: Fs, f: int)
    requires NodesOk(fs) && FoldersOk(fs) && f in fs.nodes && fs.nodes[f].Folder?
    ensures NoRepeats(Entries(fs.disk[f]))
    ensures forall i | 0 <= i < MAX_FILES && Used(Entries(fs.disk[f])[i]) :: EntryOk(fs, f, Entries(fs.disk[f])[i])
  {
    assert FolderOk(fs, f);
  }

  /** Whatever a folder lists exists, has that folder as its home, and is a folder exactly when its
      name says so. */
  lemma ListedIsHome(fs: Fs, f: int, n: seq<byte>)
    requires NodesOk(fs) && FoldersOk(fs) && f in Tree(fs) && n in Tree(fs)[f]
    ensures var c := Tree(fs)[f][n];
            && c in fs.nodes && c in fs.home && fs.home[c] == f && c != ROOT
            && ValidName(n) && (FolderName(n) <==> fs.nodes[c].Folder?)
  {
    hide ValidName;
    var es := Entries(fs.disk[f]);
    EntriesAre(fs, f);
    var i := ListedAt(es, n);
    assert EntryOk(fs, f, es[i]);
  }

  lemma OneName(fs: Fs, f: int, n: seq<byte>, m: seq<byte>)
    requires NodesOk(fs) && FoldersOk(fs) && f in Tree(fs) && n in Tree(fs)[f] && m in Tree(fs)[f]
    requires Tree(fs)[f][n] == Tree(fs)[f][m]
    ensures n == m
  {
    hide ValidName, CString, Listing;
    var es := Entries(fs.disk[f]);
    EntriesAre(fs, f);
    var i := ListedAt(es, n);
    var j := ListedAt(es, m);
    assert i < j || j < i || i == j;
  }

  lemma TreeIsForest(fs: Fs)
    requires NodesOk(fs) && FoldersOk(fs)
    ensures Forest(Tree(fs), fs.home)
  {
    hide NodesOk, FoldersOk, ValidName, Listing;
    RootHasNoHome(fs);
    var tree := Tree(fs);
    forall f, n | f in tree && n in tree[f] ensures tree[f][n] in fs.home && fs.home[tree[f][n]] == f {
      ListedIsHome(fs, f, n);
    }
    forall f, n, m | f in tree && n in tree[f] && m in tree[f] && tree[f][n] == tree[f][m] ensures n == m {
      OneName(fs, f, n, m);
    }
  }

  lemma RootHasNoHome(fs: Fs)
    requires NodesOk(fs) && FoldersOk(fs)
    ensures ROOT !in fs.home && ROOT in Tree(fs)
  {
  }

  /** What a path leads to: an inode that exists, at home in the folder before it, of the kind its last
      element says. */
  lemma {:induction false} ResolvedNode(fs: Fs, path: Path)
    requires NodesOk(fs) && FoldersOk(fs) && Lookup(Tree(fs), ROOT, path).At?
    ensures var c := Lookup(Tree(fs), ROOT, path).inode;
            && c in fs.nodes && (c == ROOT <==> path == [])
            && (path != [] ==>
                  && c in fs.home && Lookup(Tree(fs), ROOT, path[..|path| - 1]) == At(fs.home[c])
                  && (FolderName(path[|path| - 1]) <==> fs.nodes[c].Folder?))
  {
    hide FoldersOk, ValidName, Listing;
    RootHasNoHome(fs);
    if path != [] {
      LookupSplit(Tree(fs), ROOT, path);
      ListedIsHome(fs, Lookup(Tree(fs), ROOT, path[..|path| - 1]).inode, path[|path| - 1]);
    }
  }

  // ----- rows of the open-file table -----

  lemma InvIsNodesOk(fs: Fs)
    requires Inv(fs)
    ensures NodesOk(fs) && FoldersOk(fs) && SlotsOk(fs) && |fs.disk| >= 3
  {
  }

  /** Which row `sfs_enter_ext` settles on: the row of the file, else a free one, else none (-1). */
  predicate IsRowFor(slots: seq<Slot>, fileid: int, i: int) {
    if i == -1 then forall j | 0 <= j < |slots| :: slots[j].fileid != fileid && slots[j].fileid != -1
    else
      && 0 <= i < |slots|
      && (slots[i].fileid == fileid || (slots[i].fileid == -1 && forall j | 0 <= j < |slots| :: slots[j].fileid != fileid))
  }

  function OpenedRow(s: Slot, fileid: int, parentid: int, isFolder: bool): Slot {
    if s.fileid == -1 then s.(fileid := fileid, parentid := parentid, isFolder := isFolder, timesOpened := s.timesOpened + 1)
    else s.(timesOpened := s.timesOpened + 1)
  }

  /** One more opening of inode `c` in row `i`. */
  function Opened(fs: Fs, i: int, c: int): Fs
    requires 0 <= i < |fs.slots| && c in fs.nodes
  {
    var parentid := if c in fs.home then fs.home[c] else -1;
    fs.(slots := fs.slots[i := OpenedRow(fs.slots[i], c, parentid, fs.nodes[c].Folder?)],
        handles := fs.handles + multiset{c})
  }

  lemma RowIsUnique(fs: Fs, i: int, c: int)
    requires SlotsOk(fs) && 0 <= i < |fs.slots| && c >= 0 && IsRowFor(fs.slots, c, i)
    ensures forall j | 0 <= j < |fs.slots| && j != i :: fs.slots[j].fileid != c
    ensures fs.slots[i].fileid == -1 ==> c !in fs.handles && fs.slots[i] == FREE_SLOT
    ensures fs.slots[i].fileid == c ==> SlotOk(fs, fs.slots[i])
  {
    assert SlotOk(fs, fs.slots[i]) || fs.slots[i] == FREE_SLOT;
  }

  lemma OpenedRowOk(fs: Fs, i: int, c: int)
    requires SlotsOk(fs) && 0 <= i < |fs.slots| && c in fs.nodes && c >= 0 && IsRowFor(fs.slots, c, i)
    requires c == ROOT || c in fs.home
    ensures SlotOk(Opened(fs, i, c), Opened(fs, i, c).slots[i])
    ensures !Opened(fs, i, c).slots[i].isDeleted
  {
    RowIsUnique(fs, i, c);
  }

  lemma OpenedKeeps(fs: Fs, i: int, c: int)
    requires Inv(fs) && 0 <= i < |fs.slots| && c in fs.nodes && IsRowFor(fs.slots, c, i) && (c == ROOT || c in fs.home)
    ensures Inv(Opened(fs, i, c)) && Opened(fs, i, c).slots[i].fileid == c && !Opened(fs, i, c).slots[i].isDeleted
  {
    hide NodesOk, OwnersOk, BitsOk, FoldersOk;
    NodeNumber(fs, c);
    var after := Opened(fs, i, c);
    OpenedRowOk(fs, i, c);
    OpenedSlots(fs, i, c);
    SameFolders(fs, after);
  }

  lemma OpenedOtherSlot(fs: Fs, i: int, c: int, j: int)
    requires SlotsOk(fs) && 0 <= i < |fs.slots| && c in fs.nodes && c >= 0 && IsRowFor(fs.slots, c, i)
    requires 0 <= j < |fs.slots| && j != i
    ensures Opened(fs, i, c).slots[j] == FREE_SLOT || SlotOk(Opened(fs, i, c), Opened(fs, i, c).slots[j])
  {
    RowIsUnique(fs, i, c);
    assert fs.slots[j] == FREE_SLOT || SlotOk(fs, fs.slots[j]);
  }

  lemma OpenedSlots(fs: Fs, i: int, c: int)
    requires SlotsOk(fs) && 0 <= i < |fs.slots| && c in fs.nodes && c >= 0 && IsRowFor(fs.slots, c, i)
    requires SlotOk(Opened(fs, i, c), Opened(fs, i, c).slots[i])
    ensures SlotsOk(Opened(fs, i, c)) && Opened(fs, i, c).slots[i].fileid == c
  {
    hide SlotOk;
    var after := Opened(fs, i, c);
    RowIsUnique(fs, i, c);
    forall j | 0 <= j < |after.slots| ensures after.slots[j] == FREE_SLOT || SlotOk(after, after.slots[j]) {
      if j != i { OpenedOtherSlot(fs, i, c, j); }
    }
    forall x | x in after.handles ensures x != -1 && exists j :: 0 <= j < |after.slots| && after.slots[j].fileid == x {
      if x == c {
        assert after.slots[i].fileid == c;
      } else {
        var j :| 0 <= j < |fs.slots| && fs.slots[j].fileid == x;
        assert after.slots[j].fileid == x;
      }
    }
  }

  lemma NodeNumber(fs: Fs, c: int)
    requires Inv(fs) && c in fs.nodes
    ensures 2 <= c < Total(fs.disk)
  {
  }

  /** Nothing about nodes and folders depends on the table of open files. */
  lemma SameFolders(fs: Fs, after: Fs)
    requires NodesOk(fs) && FoldersOk(fs)
    requires after.disk == fs.disk && after.nodes == fs.nodes && after.home == fs.home
    ensures NodesOk(after) && FoldersOk(after) && Tree(after) == Tree(fs) && Files(after) == Files(fs)
  {
    hide ValidName, FileOk, Listing;
    forall f | f in after.nodes && after.nodes[f].Folder? ensures FolderOk(after, f) {
      assert FolderOk(fs, f);
      var es := Entries(fs.disk[f]);
      forall i | 0 <= i < |es| && Used(es[i]) ensures EntryOk(after, f, es[i]) {
        assert EntryOk(fs, f, es[i]);
      }
    }
  }

  // ----- taking a name out of its folder -----

  function Cleared(e: Entry): Entry { Entry(0, e.name[0 := 0]) }

  /** A folder's block after the first `k` entries have been searched for inode `c`. */
  function ClearEntries(b: Block, c: int, k: nat): Block
    requires k <= MAX_FILES
  {
    if k == 0 then b
    else
      var done := ClearEntries(b, c, k - 1);
      if EntryAt(done, k - 1).inode == c then WithEntry(done, k - 1, Cleared(EntryAt(done, k - 1))) else done
  }

  lemma {:induction false} ClearEntriesAre(b: Block, c: int, k: nat)
    requires k <= MAX_FILES
    ensures forall j | 0 <= j < MAX_FILES ::
              Entries(ClearEntries(b, c, k))[j]
              == if j < k && Entries(b)[j].inode == c then Cleared(Entries(b)[j]) else Entries(b)[j]
  {
    hide EntryAt, WithEntry, Cleared;
    if k > 0 {
      ClearEntriesAre(b, c, k - 1);
      var done := ClearEntries(b, c, k - 1);
      EntriesOfWithEntry(done, k - 1, Cleared(EntryAt(done, k - 1)));
    }
  }

  /** With one entry at most for the inode, that entry is the one cleared. */
  lemma ClearedFolder(b: Block, c: int, i: nat)
    requires NoRepeats(Entries(b)) && i < MAX_FILES && Entries(b)[i].inode == c > 0
    ensures Entries(ClearEntries(b, c, MAX_FILES)) == Entries(b)[i := Cleared(Entries(b)[i])]
  {
    hide CString, Cleared, ClearEntries, Entries;
    ClearEntriesAre(b, c, MAX_FILES);
    assert |Entries(b)| == MAX_FILES == |Entries(ClearEntries(b, c, MAX_FILES))|;
    var es := Entries(b);
    assert forall j | 0 <= j < |es| && j != i :: es[j].inode != c by {
      assert Used(es[i]);
      forall j | 0 <= j < |es| && j != i ensures es[j].inode != c { assert j < i || i < j; }
    }
  }

  /** The inode of row `i` leaves its folder and the row is marked deleted. */
  function Unlisted(fs: Fs, i: int): Fs
    requires 0 <= i < |fs.slots| && fs.slots[i].fileid in fs.home && 0 <= fs.home[fs.slots[i].fileid] < |fs.disk|
  {
    var c := fs.slots[i].fileid;
    var p := fs.home[c];
    fs.(disk := fs.disk[p := ClearEntries(fs.disk[p], c, MAX_FILES)],
        home := fs.home - {c},
        slots := fs.slots[i := fs.slots[i].(isDeleted := true)])
  }

  /** Row `i` may be unlisted: it is open, not deleted yet, and some folder lists its inode. */
  ghost predicate Unlistable(fs: Fs, i: int) {
    Inv(fs) && 0 <= i < |fs.slots| && fs.slots[i].fileid in fs.home && !fs.slots[i].isDeleted
  }

  lemma HomeFacts(fs: Fs, c: int)
    requires NodesOk(fs) && FoldersOk(fs) && c in fs.home
    ensures c in fs.nodes && c != ROOT && fs.home[c] in fs.nodes && fs.nodes[fs.home[c]].Folder? && 2 <= fs.home[c] < Total(fs.disk)
  {
  }

  lemma UnlistedFolderEntries(fs: Fs, i: int)
    requires Unlistable(fs, i)
    ensures var c := fs.slots[i].fileid; c in fs.nodes && 2 <= fs.home[c] < Total(fs.disk) && FolderOk(Unlisted(fs, i), fs.home[c])
  {
    hide CString, ClearEntries, ValidName, SlotsOk, BitsOk, OwnersOk, Entries;
    var c := fs.slots[i].fileid;
    HomeFacts(fs, c);
    EntriesAre(fs, fs.home[c]);
    ClearEntriesAre(fs.disk[fs.home[c]], c, MAX_FILES);
  }

  lemma UnlistedFolders(fs: Fs, i: int)
    requires Unlistable(fs, i)
    ensures NodesOk(Unlisted(fs, i)) && FoldersOk(Unlisted(fs, i))
  {
    hide CString, ClearEntries, ValidName, SlotsOk, BitsOk, OwnersOk, Entries;
    var c := fs.slots[i].fileid;
    HomeFacts(fs, c);
    var p, after := fs.home[c], Unlisted(fs, i);
    forall f | f in after.nodes && after.nodes[f].File? ensures FileOk(after.disk, f, after.nodes[f]) {
      assert FileOk(fs.disk, f, fs.nodes[f]);
    }
    UnlistedFolderEntries(fs, i);
    forall f | f in after.nodes && after.nodes[f].Folder? ensures FolderOk(after, f) {
      if f != p { assert FolderOk(fs, f); }
    }
  }

  lemma UnlistedSlots(fs: Fs, i: int)
    requires Unlistable(fs, i) && 0 <= fs.home[fs.slots[i].fileid] < |fs.disk|
    ensures SlotsOk(Unlisted(fs, i))
  {
    hide NodesOk, OwnersOk, BitsOk, ClearEntries;
    var c, after := fs.slots[i].fileid, Unlisted(fs, i);
    HomeNumber(fs, c);
    assert SlotOk(fs, fs.slots[i]);
    forall j | 0 <= j < |after.slots| ensures after.slots[j] == FREE_SLOT || SlotOk(after, after.slots[j]) {
      assert fs.slots[j] == FREE_SLOT || SlotOk(fs, fs.slots[j]);
      assert j != i ==> fs.slots[j].fileid != c || fs.slots[j] == FREE_SLOT;
    }
    forall x | x in after.handles ensures x != -1 && exists j :: 0 <= j < |after.slots| && after.slots[j].fileid == x {
      var j :| 0 <= j < |fs.slots| && fs.slots[j].fileid == x;
      assert after.slots[j].fileid == x;
    }
  }

  lemma HomeNumber(fs: Fs, c: int)
    requires NodesOk(fs) && FoldersOk(fs) && c in fs.home
    ensures c >= 2 && c != ROOT
  {
  }

  lemma UnlistedKeeps(fs: Fs, i: int)
    requires Unlistable(fs, i)
    ensures 0 <= fs.home[fs.slots[i].fileid] < |fs.disk| && Inv(Unlisted(fs, i))
  {
    hide NodesOk, OwnersOk, BitsOk, FoldersOk, SlotsOk, ClearEntries;
    var c := fs.slots[i].fileid;
    HomeFacts(fs, c);
    UnlistedFolders(fs, i);
    UnlistedSlots(fs, i);
    assert OwnersOk(fs.nodes, fs.owner);
  }

  /** A block that is an inode is nobody's data. */
  lemma InodeIsNoData(fs: Fs, p: int, f: int)
    requires OwnersOk(fs.nodes, fs.owner) && p in fs.nodes && f in fs.nodes && fs.nodes[f].File?
    ensures p !in fs.nodes[f].blocks
  {
    var bs := Owned(f, fs.nodes[f]);
    assert Distinct(bs) && p in Owned(p, fs.nodes[p]);
    forall k | 0 <= k < |fs.nodes[f].blocks| ensures fs.nodes[f].blocks[k] != p {
      var b := fs.nodes[f].blocks[k];
      assert bs[k + 1] == b && bs[0] == f;
      assert b in bs && fs.owner[b] == f && b != f;
    }
  }

  lemma SameContent(disk: seq<Block>, other: seq<Block>, node: Node)
    requires node.File? && |node.blocks| == BlocksFor(node.size) && |disk| == |other|
    requires forall i | 0 <= i < |node.blocks| :: 0 <= node.blocks[i] < |disk| && disk[node.blocks[i]] == other[node.blocks[i]]
    ensures Content(disk, node) == Content(other, node)
  {
  }

  /** Unlisting takes one name out of the tree and touches no file. */
  lemma UnlistedView(fs: Fs, i: int, n: seq<byte>)
    requires Unlistable(fs, i)
    requires var c := fs.slots[i].fileid; fs.home[c] in Tree(fs) && n in Tree(fs)[fs.home[c]] && Tree(fs)[fs.home[c]][n] == c
    ensures 0 <= fs.home[fs.slots[i].fileid] < |fs.disk| && Inv(Unlisted(fs, i))
    ensures Tree(Unlisted(fs, i)) == var p := fs.home[fs.slots[i].fileid]; Tree(fs)[p := Tree(fs)[p] - {n}]
    ensures Files(Unlisted(fs, i)) == Files(fs)
  {
    UnlistedKeeps(fs, i);
    UnlistedTree(fs, i, n);
    UnlistedFiles(fs, i);
  }

  lemma UnlistedTree(fs: Fs, i: int, n: seq<byte>)
    requires Unlistable(fs, i)
    requires var c := fs.slots[i].fileid; fs.home[c] in Tree(fs) && n in Tree(fs)[fs.home[c]] && Tree(fs)[fs.home[c]][n] == c
    requires 0 <= fs.home[fs.slots[i].fileid] < |fs.disk| && NodesOk(Unlisted(fs, i))
    ensures Tree(Unlisted(fs, i)) == var p := fs.home[fs.slots[i].fileid]; Tree(fs)[p := Tree(fs)[p] - {n}]
  {
    hide CString, ClearEntries, Entries, Listing, SlotsOk, BitsOk, OwnersOk;
    var c, after := fs.slots[i].fileid, Unlisted(fs, i);
    var p := fs.home[c];
    var es := Entries(fs.disk[p]);
    EntriesAre(fs, p);
    var k := ListedAt(es, n);
    ClearedFolder(fs.disk[p], c, k);
    ListingCleared(es, k, Cleared(es[k]));
  }

  lemma UnlistedFiles(fs: Fs, i: int)
    requires Unlistable(fs, i)
    requires 0 <= fs.home[fs.slots[i].fileid] < |fs.disk| && NodesOk(Unlisted(fs, i))
    ensures Files(Unlisted(fs, i)) == Files(fs)
  {
    hide SlotsOk, BitsOk, OwnersOk, ClearEntries, Content;
    var after := Unlisted(fs, i);
    HomeFacts(fs, fs.slots[i].fileid);
    forall f | f in fs.nodes && fs.nodes[f].File? ensures Files(after)[f] == Files(fs)[f] {
      assert FileOk(fs.disk, f, fs.nodes[f]);
      InodeIsNoData(fs, fs.home[fs.slots[i].fileid], f);
      SameContent(fs.disk, after.disk, fs.nodes[f]);
    }
  }
}
