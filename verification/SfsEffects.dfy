/** What the operations on names amount to for a user: the tree, the files, the free space and the
    outstanding opens before and after. */
module SfsEffects {
  import opened Bitmap
  import opened Libc
  import opened BlockLayout
  import opened SfsPath
  import opened SfsState
  import opened SfsTree
  import opened SfsBlocks
  import opened SfsSteps
  import opened SfsRelease
  import opened SfsCreate
  import opened SfsWalk

  ghost function ParentOf(fs: Fs, c: int): int { if c in fs.home then fs.home[c] else -1 }

  /** An element list for what follows the leading slash. */
  function PathOf(path: seq<byte>): Path
    requires path != []
  {
    Elements(path[1..])
  }

  /** What a path leads to; a malformed path leads nowhere. */
  ghost function Target(fs: Fs, path: seq<byte>): Found
    requires NodesOk(fs)
  {
    if ValidPath(path) then Lookup(Tree(fs), ROOT, PathOf(path)) else Nowhere
  }

  /** The open-file table has a row for inode `c`, or room for one. */
  ghost predicate HasRow(fs: Fs, c: int) {
    exists i :: 0 <= i < |fs.slots| && (fs.slots[i].fileid == c || fs.slots[i].fileid == -1)
  }

  lemma RowExists(fs: Fs, c: int, row: int)
    requires IsRowFor(fs.slots, c, row)
    ensures row != -1 <==> HasRow(fs, c)
  {
  }

  /** The facts about a resolved path that `sfs_enter_ext` relies on. */
  lemma TargetFacts(fs: Fs, path: seq<byte>, r: int, parent: int)
    requires NodesOk(fs) && FoldersOk(fs) && ValidPath(path) && path != [] && r != VFS_ERROR
    requires exists parentExists :: Resolves(Tree(fs), PathOf(path), r, parent, parentExists)
    ensures Target(fs, path) == At(r) && r in fs.nodes && (r == ROOT || r in fs.home) && parent == ParentOf(fs, r)
    ensures FolderName(path) <==> fs.nodes[r].Folder?
    ensures r == ROOT <==> |path| == 1
  {
    hide Tree, Elements, AllValid, FoldersOk, NodesOk;
    var es := PathOf(path);
    ResolvedNode(fs, es);
    RootHasNoHome(fs);
    OnlyLastIsFile(path[1..]);
    RootIsFolder(fs);
    if es != [] { assert path[1..][|path| - 2] == path[|path| - 1]; }
  }

  lemma RootIsFolder(fs: Fs)
    requires NodesOk(fs)
    ensures ROOT in fs.nodes && fs.nodes[ROOT].Folder?
  {
  }

  /** Inode `c` is still open but has been removed. */
  ghost predicate Marked(fs: Fs, c: int) {
    exists i :: 0 <= i < |fs.slots| && fs.slots[i].fileid == c && fs.slots[i].isDeleted
  }

  /** A user sees no difference. */
  ghost predicate LooksSame(fs: Fs, after: Fs)
    requires NodesOk(fs) && NodesOk(after)
  {
    Tree(after) == Tree(fs) && Files(after) == Files(fs) && after.nodes == fs.nodes && FreeBytes(after.disk) == FreeBytes(fs.disk)
  }

  /** Inode `c` is gone, with its listing if it was a folder, and exactly its blocks have become free. */
  ghost predicate Vanished(fs: Fs, after: Fs, c: int)
    requires NodesOk(fs) && NodesOk(after)
  {
    && c in fs.nodes && after.nodes == fs.nodes - {c}
    && Tree(after) == Tree(fs) - {c} && Files(after) == Files(fs) - {c}
    && FreeBytes(after.disk) == FreeBytes(fs.disk) + 512 * |Owned(c, fs.nodes[c])|
  }

  lemma MarkedRow(fs: Fs, row: int)
    requires Inv(fs) && 0 <= row < |fs.slots| && fs.slots[row].fileid != -1
    ensures Marked(fs, fs.slots[row].fileid) <==> fs.slots[row].isDeleted
    ensures fs.slots[row].timesOpened == fs.handles[fs.slots[row].fileid]
  {
    hide NodesOk, OwnersOk, BitsOk, FoldersOk;
    assert SlotOk(fs, fs.slots[row]);
    if Marked(fs, fs.slots[row].fileid) {
      var i :| 0 <= i < |fs.slots| && fs.slots[i].fileid == fs.slots[row].fileid && fs.slots[i].isDeleted;
      assert i < row || row < i || i == row;
    }
  }

  /** Closing is invisible, except for the last close of a removed file. */
  lemma CloseEffect(fs: Fs, row: int)
    requires Inv(fs) && 0 <= row < |fs.slots| && fs.slots[row].fileid != -1
    ensures LastClose(fs, row) ==> Destroyable(Shut(fs, row), fs.slots[row].fileid)
    ensures var c, after := fs.slots[row].fileid, Closed(fs, row);
            && NodesOk(fs) && NodesOk(after) && after.handles == fs.handles - multiset{c}
            && if fs.handles[c] == 1 && Marked(fs, c) then Vanished(fs, after, c) else LooksSame(fs, after)
  {
    hide Inv, Tree, Files, FreeBytes, NodesOk, FoldersOk, SlotsOk, Closed, Owned, Marked;
    ClosedKeeps(fs, row);
    MarkedRow(fs, row);
    InvIsNodesOk(fs);
    InvIsNodesOk(Closed(fs, row));
  }

  // ----- removing -----

  /** The state that `sfs_remove` leaves: open the row once more, unlist, close. */
  function Unlinked(fs: Fs, row: int, c: int): Fs
    requires 0 <= row < |fs.slots| && c in fs.nodes && c in fs.home && 0 <= fs.home[c] < |fs.disk|
    requires Opened(fs, row, c).slots[row].fileid == c
  {
    Unlisted(Opened(fs, row, c), row)
  }

  /** The premises under which `sfs_remove` gets to its work on inode `c`. */
  ghost predicate Removable(fs: Fs, row: int, c: int) {
    && Inv(fs) && 0 <= row < |fs.slots| && IsRowFor(fs.slots, c, row)
    && c in fs.nodes && c in fs.home && 0 <= fs.home[c] < |fs.disk| && c != -1
  }

  lemma UnlinkedKeeps(fs: Fs, row: int, c: int)
    requires Removable(fs, row, c)
    ensures Opened(fs, row, c).slots[row].fileid == c
    ensures var after := Unlinked(fs, row, c);
            && Inv(after) && |after.slots| == |fs.slots| && after.slots[row].fileid == c && after.slots[row].isDeleted
            && after.slots[row].timesOpened == fs.handles[c] + 1 && after.handles == fs.handles + multiset{c} && after.nodes == fs.nodes
  {
    hide Inv, ClearEntries, IsRowFor;
    OpenedKeeps(fs, row, c);
    var entered := Opened(fs, row, c);
    UnlistedKeeps(entered, row);
    MarkedRow(Unlinked(fs, row, c), row);
  }

  /** Unlinking takes the name out of the tree and leaves files and free space alone. */
  lemma UnlinkedView(fs: Fs, row: int, c: int, n: seq<byte>)
    requires Removable(fs, row, c) && NodesOk(fs)
    requires fs.home[c] in Tree(fs) && n in Tree(fs)[fs.home[c]] && Tree(fs)[fs.home[c]][n] == c
    ensures Opened(fs, row, c).slots[row].fileid == c
    ensures var after, p := Unlinked(fs, row, c), fs.home[c];
            && NodesOk(after) && Tree(after) == Tree(fs)[p := Tree(fs)[p] - {n}] && Files(after) == Files(fs)
            && FreeBytes(after.disk) == FreeBytes(fs.disk)
  {
    hide Inv, ClearEntries, IsRowFor, Tree, Files, NodesOk, FoldersOk, SlotsOk, OpenedRow, Words, ClearBits;
    UnlinkedKeeps(fs, row, c);
    InvIsNodesOk(fs);
    OpenedKeeps(fs, row, c);
    var entered := Opened(fs, row, c);
    SameFolders(fs, entered);
    UnlistedView(entered, row, n);
    InvIsNodesOk(Unlinked(fs, row, c));
    HomeFacts(fs, c);
  }

  /** What `sfs_remove` of inode `c` does: if the file was open it stays with all its bytes, to go at
      its last close; otherwise it goes at once and its blocks are free. */
  ghost predicate RemovedFrom(fs: Fs, after: Fs, c: int, n: seq<byte>)
    requires NodesOk(fs) && NodesOk(after) && c in fs.nodes && c in fs.home
  {
    && Removed(Tree(fs), Tree(after), fs.home[c], n)
    && after.handles == fs.handles
    && if fs.handles[c] > 0 then
         Files(after) == Files(fs) && after.nodes == fs.nodes && FreeBytes(after.disk) == FreeBytes(fs.disk) && Marked(after, c)
       else
         && Files(after) == Files(fs) - {c} && after.nodes == fs.nodes - {c}
         && FreeBytes(after.disk) == FreeBytes(fs.disk) + 512 * |Owned(c, fs.nodes[c])|
  }

  lemma RemoveEffect(fs: Fs, row: int, c: int, n: seq<byte>)
    requires Removable(fs, row, c) && NodesOk(fs)
    requires fs.home[c] in Tree(fs) && n in Tree(fs)[fs.home[c]] && Tree(fs)[fs.home[c]][n] == c && fs.home[c] != c
    ensures Opened(fs, row, c).slots[row].fileid == c
    ensures var un := Unlinked(fs, row, c);
            && (LastClose(un, row) ==> Destroyable(Shut(un, row), c))
            && NodesOk(Closed(un, row)) && RemovedFrom(fs, Closed(un, row), c, n)
  {
    hide Inv, Tree, Files, FreeBytes, NodesOk, FoldersOk, SlotsOk, Opened, Unlinked, Destroyed, Owned, IsRowFor, Destroyable;
    UnlinkedKeeps(fs, row, c);
    UnlinkedView(fs, row, c, n);
    var un := Unlinked(fs, row, c);
    CloseEffect(un, row);
    var after := Closed(un, row);
    assert after.handles == fs.handles;
    if fs.handles[c] > 0 {
      assert after.slots[row].fileid == c && after.slots[row].isDeleted;
    } else {
      assert un.slots[row].isDeleted && Marked(un, c);
    }
  }

  /** After a removal the path leads nowhere, and every path that does not go through it leads where
      it led before. */
  lemma RemovedPaths(fs: Fs, after: Fs, path: seq<byte>, c: int, q: seq<byte>)
    requires Inv(fs) && NodesOk(fs) && NodesOk(after) && ValidPath(path) && |path| >= 2 && Target(fs, path) == At(c)
    requires c in fs.nodes && c in fs.home
    requires RemovedFrom(fs, after, c, PathOf(path)[|PathOf(path)| - 1])
    ensures Target(after, path) == Nowhere
    ensures ValidPath(q) && !(PathOf(path) <= PathOf(q)) ==> Target(after, q) == Target(fs, q)
  {
    hide Inv, Tree, NodesOk, Files, FreeBytes, FoldersOk, Marked, Removed, AllValid, Elements;
    InvIsNodesOk(fs);
    TreeIsForest(fs);
    var es := PathOf(path);
    ResolvedNode(fs, es);
    var folder, n := es[..|es| - 1], es[|es| - 1];
    assert folder + [n] == es && folder + [n] + [] == es;
    RemovedPathIsGone(Tree(fs), fs.home, Tree(after), folder, n, []);
    if ValidPath(q) && !(PathOf(path) <= PathOf(q)) {
      OthersStayAfterRemoval(Tree(fs), fs.home, Tree(after), folder, n, PathOf(q));
    }
  }

  /** The folder that a path's last element is in, and that no folder contains itself. */
  lemma TargetHome(fs: Fs, path: seq<byte>, c: int)
    requires Inv(fs) && NodesOk(fs) && ValidPath(path) && |path| >= 2 && Target(fs, path) == At(c)
    ensures var n := PathOf(path)[|PathOf(path)| - 1];
            && c in fs.nodes && c in fs.home && fs.home[c] != c && 2 <= fs.home[c] < |fs.disk|
            && fs.home[c] in Tree(fs) && n in Tree(fs)[fs.home[c]] && Tree(fs)[fs.home[c]][n] == c
  {
    hide Inv, Tree, NodesOk, FoldersOk, AllValid, Elements, Lookup;
    InvIsNodesOk(fs);
    TreeIsForest(fs);
    var es := PathOf(path);
    ResolvedNode(fs, es);
    LookupSplit(Tree(fs), ROOT, es);
    HomeFacts(fs, c);
    if fs.home[c] == c { UniquePath(Tree(fs), fs.home, es[..|es| - 1], es); }
  }

  // ----- creating -----

  function UsedEntries(es: seq<Entry>): (n: nat)
    ensures n <= |es|
  {
    if es == [] then 0 else UsedEntries(es[1..]) + if Used(es[0]) then 1 else 0
  }

  lemma {:induction false} RoomIffUnused(es: seq<Entry>)
    ensures UsedEntries(es) < |es| <==> exists k :: 0 <= k < |es| && !Used(es[k])
  {
    if es != [] {
      var rest := es[1..];
      RoomIffUnused(rest);
      if UsedEntries(rest) < |rest| {
        var k :| 0 <= k < |rest| && !Used(rest[k]);
        assert es[k + 1] == rest[k];
      } else if Used(es[0]) {
        forall k | 0 <= k < |es| ensures Used(es[k]) {
          if k > 0 { assert es[k] == rest[k - 1]; }
        }
      } else {
        assert !Used(es[0]);
      }
    }
  }

  lemma {:induction false} ListingSize(es: seq<Entry>)
    requires NoRepeats(es)
    ensures |Listing(es)| == UsedEntries(es)
  {
    hide CString, NoRepeats;
    if es != [] {
      RestNoRepeats(es);
      ListingSize(es[1..]);
    }
  }

  /** Blocks that a file or folder of this path and size needs. */
  function BlocksNeeded(path: seq<byte>, size: int): nat {
    if FolderName(path) || size < 0 then 1 else 1 + BlocksFor(size)
  }

  /** The folder that the last element of a path is looked up in. */
  ghost function FolderOf(fs: Fs, path: seq<byte>): Found
    requires NodesOk(fs) && ValidPath(path)
  {
    if |path| < 2 then Nowhere else Lookup(Tree(fs), ROOT, PathOf(path)[..|PathOf(path)| - 1])
  }

  /** Exactly when a file or folder can be created: a well-formed path and a size that fits an inode,
      an existing folder with a name to spare, no such name in it yet, and enough free blocks. */
  ghost predicate CanCreate(fs: Fs, path: seq<byte>, size: int)
    requires NodesOk(fs)
  {
    && ValidPath(path)
    && (FolderName(path) || (size >= 0 && BlocksFor(size) <= BLOCKS_MAX))
    && Target(fs, path) == Nowhere
    && FolderOf(fs, path).At? && FolderOf(fs, path).inode in Tree(fs)
    && |Tree(fs)[FolderOf(fs, path).inode]| < MAX_FILES
    && 512 * BlocksNeeded(path, size) <= FreeBytes(fs.disk)
  }

  /** What `sfs_create` leaves: one new name for a new inode `c`, zeros in a new file, everything else
      as it was, and exactly the blocks it needs taken. */
  ghost predicate CreatedIn(fs: Fs, after: Fs, path: seq<byte>, size: int, c: int)
    requires NodesOk(fs) && NodesOk(after) && ValidPath(path) && |path| >= 2 && FolderOf(fs, path).At?
  {
    && c !in fs.nodes && c in after.nodes && after.nodes - {c} == fs.nodes && (after.nodes[c].Folder? <==> FolderName(path))
    && Added(Tree(fs), Tree(after), FolderOf(fs, path).inode, PathOf(path)[|PathOf(path)| - 1], c)
    && Files(after) == (if FolderName(path) || size < 0 then Files(fs) else Files(fs)[c := Zeros(size)])
    && FreeBytes(after.disk) == FreeBytes(fs.disk) - 512 * BlocksNeeded(path, size)
    && after.handles == fs.handles && after.slots == fs.slots
  }

  /** The plan that the path and size ask for. */
  predicate PlanFor(path: seq<byte>, size: int, plan: Plan) {
    && path != [] && |PathOf(path)| > 0
    && CString(plan.field) == PathOf(path)[|PathOf(path)| - 1]
    && (plan.node.Folder? <==> FolderName(path))
    && (plan.node.File? ==> size >= 0 && plan.node.size == size && |plan.picks| == 1 + BlocksFor(size))
    && (plan.node.Folder? ==> |plan.picks| == 1)
  }

  lemma CreateEffect(fs: Fs, path: seq<byte>, size: int, plan: Plan)
    requires Sound(fs, plan) && Placeable(fs, plan) && NodesOk(fs) && PlanFor(path, size, plan)
    requires ValidPath(path) && |path| >= 2 && FolderOf(fs, path) == At(plan.p)
    ensures Inv(Created(fs, plan)) && NodesOk(Created(fs, plan))
    ensures CreatedIn(fs, Created(fs, plan), path, size, plan.picks[0])
  {
    hide Inv, Tree, Files, FreeBytes, NodesOk, FolderOf, CString, Sound, Created, AllValid, Elements, Added, Zeros, BlocksFor;
    CreatedKeeps(fs, plan);
    CreatedNodes(fs, plan);
    CreatedTree(fs, plan);
    CreatedFiles(fs, plan);
    CreatedTakes(fs, plan);
    CreatedRest(fs, plan);
  }

  lemma CreatedRest(fs: Fs, plan: Plan)
    requires Sound(fs, plan) && Placeable(fs, plan)
    ensures var c, after := plan.picks[0], Created(fs, plan);
            && c !in fs.nodes && c in after.nodes && after.nodes - {c} == fs.nodes && after.nodes[c] == plan.node
            && after.handles == fs.handles && after.slots == fs.slots
  {
    hide Inv, Sound, NewDisk;
    PicksAreNew(fs, plan);
    NotThereYet(fs, plan);
  }

  lemma NotThereYet(fs: Fs, plan: Plan)
    requires Sound(fs, plan)
    ensures plan.picks[0] !in fs.nodes
  {
    hide Inv, CString, Listing, Entries, ValidName;
    PicksAreNew(fs, plan);
  }

  /** After creating, the path leads to the new inode, and every path that does not go through the new
      name leads where it led before. */
  lemma CreatedPaths(fs: Fs, after: Fs, path: seq<byte>, size: int, c: int, q: seq<byte>)
    requires Inv(fs) && NodesOk(fs) && NodesOk(after) && ValidPath(path) && |path| >= 2 && FolderOf(fs, path).At?
    requires CreatedIn(fs, after, path, size, c)
    ensures Target(after, path) == At(c)
    ensures ValidPath(q) && !(PathOf(path) <= PathOf(q)) ==> Target(after, q) == Target(fs, q)
  {
    hide Inv, Tree, NodesOk, Files, FreeBytes, FoldersOk, AllValid, Elements, Added, Lookup;
    InvIsNodesOk(fs);
    TreeIsForest(fs);
    HomesExist(fs, c);
    var es := PathOf(path);
    var folder, n := es[..|es| - 1], es[|es| - 1];
    assert folder + [n] == es;
    AddedPathResolves(Tree(fs), fs.home, Tree(after), folder, n, c, []);
    if ValidPath(q) && !(PathOf(path) <= PathOf(q)) {
      OthersStayAfterAddition(Tree(fs), fs.home, Tree(after), folder, n, c, PathOf(q));
    }
  }

  lemma HomesExist(fs: Fs, c: int)
    requires NodesOk(fs) && FoldersOk(fs)
    ensures c in fs.home ==> c in fs.nodes
  {
  }

  /** The folder a path's last element belongs in is a folder. */
  lemma ParentIsFolder(fs: Fs, path: seq<byte>)
    requires Inv(fs) && NodesOk(fs) && ValidPath(path) && FolderOf(fs, path).At?
    ensures var p := FolderOf(fs, path).inode;
            && p in fs.nodes && fs.nodes[p].Folder? && 2 <= p < |fs.disk|
            && p in Tree(fs) && Tree(fs)[p] == Listing(Entries(fs.disk[p])) && NoRepeats(Entries(fs.disk[p]))
            && PathOf(path) != [] && Child(Tree(fs), At(p), PathOf(path)[|PathOf(path)| - 1]) == Target(fs, path)
  {
    hide Inv, Tree, FoldersOk, AllValid, Elements, Listing, Entries, NoRepeats, Lookup, Child;
    InvIsNodesOk(fs);
    var es := PathOf(path);
    var folder := es[..|es| - 1];
    ResolvedNode(fs, folder);
    OnlyLastIsFile(path[1..]);
    RootIsFolder(fs);
    var p := FolderOf(fs, path).inode;
    TreeKeys(fs);
    EntriesAre(fs, p);
    LookupSplit(Tree(fs), ROOT, es);
  }

  /** A folder has a free entry exactly when it lists fewer names than it can hold. */
  lemma RoomInFolder(es: seq<Entry>, k: int)
    requires NoRepeats(es)
    requires if k == -1 then forall i | 0 <= i < |es| :: Used(es[i]) else 0 <= k < |es| && !Used(es[k])
    ensures k == -1 <==> |Listing(es)| >= |es|
  {
    ListingSize(es);
    RoomIffUnused(es);
  }

  /** What the searches of `sfs_create` come up with is a sound plan. */
  lemma PlanIsSound(fs: Fs, path: seq<byte>, size: int, plan: Plan)
    requires Inv(fs) && NodesOk(fs) && ValidPath(path) && |path| >= 2 && FolderOf(fs, path) == At(plan.p) && Target(fs, path) == Nowhere
    requires plan.k < MAX_FILES && 2 <= plan.p < |fs.disk| && !Used(Entries(fs.disk[plan.p])[plan.k])
    requires PlanFor(path, size, plan)
    requires plan.node.File? ==> plan.node.blocks == plan.picks[1..] && BlocksFor(size) <= BLOCKS_MAX
    requires Within(plan.picks, Words(fs.disk[ALLOCATION_BLOCK]))
    requires FirstFit(Words(fs.disk[ALLOCATION_BLOCK]), Total(fs.disk), plan.picks)
    ensures Placeable(fs, plan) && Sound(fs, plan)
  {
    hide NodesOk, OwnersOk, FoldersOk, SlotsOk, Tree, AllValid, Elements, Listing, Entries, NoRepeats, Words, CString, ValidName, FirstFit, FolderOf;
    var words := Words(fs.disk[ALLOCATION_BLOCK]);
    FirstFitIsFresh(words, Total(fs.disk), plan.picks);
    PicksAreHigh(fs, plan.picks);
    ParentIsFolder(fs, path);
    LastIsValid(path);
    OnlyLastIsFile(path[1..]);
  }

  lemma PicksAreHigh(fs: Fs, picks: seq<int>)
    requires Inv(fs) && Within(picks, Words(fs.disk[ALLOCATION_BLOCK]))
    requires forall i | 0 <= i < |picks| :: picks[i] < Total(fs.disk) && !Bit(Words(fs.disk[ALLOCATION_BLOCK]), picks[i])
    ensures forall i | 0 <= i < |picks| :: 3 <= picks[i] < Total(fs.disk) && picks[i] !in fs.owner
  {
    hide FoldersOk, SlotsOk, Words, Bit;
    assert ROOT in Owned(ROOT, fs.nodes[ROOT]);
  }

  lemma LastIsValid(path: seq<byte>)
    requires ValidPath(path) && |path| >= 2
    ensures ValidName(PathOf(path)[|PathOf(path)| - 1])
    ensures path[1..] != [] && (FolderName(path) <==> FolderName(path[1..]))
  {
  }

  // ----- the name after a removal -----

  lemma FolderKept(fs: Fs, after: Fs, path: seq<byte>, c: int)
    requires Inv(fs) && NodesOk(fs) && NodesOk(after) && ValidPath(path) && |path| >= 2 && Target(fs, path) == At(c)
    requires c in fs.nodes && c in fs.home && RemovedFrom(fs, after, c, PathOf(path)[|PathOf(path)| - 1])
    ensures FolderOf(after, path) == At(fs.home[c])
  {
    hide Inv, Tree, NodesOk, Files, FreeBytes, FoldersOk, Marked, Removed, AllValid, Elements;
    InvIsNodesOk(fs);
    TreeIsForest(fs);
    var es := PathOf(path);
    ResolvedNode(fs, es);
    var folder, n := es[..|es| - 1], es[|es| - 1];
    assert |folder + [n]| > |folder|;
    OthersStayAfterRemoval(Tree(fs), fs.home, Tree(after), folder, n, folder);
  }

  /** A listing never has more names than the folder has entries; with one taken out there is room. */
  lemma RoomAfterRemoval(es: seq<Entry>, n: seq<byte>)
    requires NoRepeats(es) && n in Listing(es)
    ensures |Listing(es) - {n}| < |es|
  {
    hide NoRepeats;
    ListingSize(es);
    var all := Listing(es);
    assert all.Keys == (all - {n}).Keys + {n};
    assert |all| == |all.Keys| && |all - {n}| == |(all - {n}).Keys|;
  }

  /** The name of a removed file or folder is free at once, also while old handles stay open: whatever fits an inode can
      be created under it, if and only if there is space. */
  lemma NameIsReusable(fs: Fs, after: Fs, path: seq<byte>, c: int, size: int)
    requires Inv(fs) && NodesOk(fs) && NodesOk(after) && ValidPath(path) && |path| >= 2 && Target(fs, path) == At(c)
    requires c in fs.nodes && c in fs.home && RemovedFrom(fs, after, c, PathOf(path)[|PathOf(path)| - 1])
    requires FolderName(path) || (size >= 0 && BlocksFor(size) <= BLOCKS_MAX)
    ensures CanCreate(after, path, size) <==> 512 * BlocksNeeded(path, size) <= FreeBytes(after.disk)
  {
    hide Inv, Tree, NodesOk, Files, FreeBytes, FoldersOk, Marked, AllValid, Elements, Listing, Entries, NoRepeats, FolderOf, Target;
    var p, n := fs.home[c], PathOf(path)[|PathOf(path)| - 1];
    RemovedPaths(fs, after, path, c, path);
    FolderKept(fs, after, path, c);
    TargetHome(fs, path, c);
    InvIsNodesOk(fs);
    FolderListing(fs, p);
    RoomAfterRemoval(Entries(fs.disk[p]), n);
  }

  lemma FolderListing(fs: Fs, p: int)
    requires NodesOk(fs) && FoldersOk(fs) && p in Tree(fs)
    ensures 0 <= p < |fs.disk| && Tree(fs)[p] == Listing(Entries(fs.disk[p])) && NoRepeats(Entries(fs.disk[p]))
  {
    hide Listing, Entries, NoRepeats;
    EntriesAre(fs, p);
  }
}
