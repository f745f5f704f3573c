/** The Student Filesystem as the kernel runs it (`fs/sfs.c`): blocks and open-file rows updated in
    place. Every public operation is one atomic step. */
module SfsVolume {
  import opened Sequences
  import opened Bitmap
  import opened Libc
  import opened BlockLayout
  import opened SfsPath
  import opened SfsState
  import opened SfsTree
  import opened SfsBlocks
  import opened SfsSteps
  import opened SfsRelease
  import opened SfsCreate
  import opened SfsWalk
  import opened SfsEffects
  import opened SfsData

  class Volume {
    const disk: array<Block>
    const openFiles: array<Slot>
    ghost var nodes: map<int, Node>
    ghost var owner: map<int, int>
    ghost var home: map<int, int>
    /** Outstanding opens: one occurrence of an inode for each. */
    ghost var handles: multiset<int>

    ghost function Snap(): Fs
      reads this, disk, openFiles
    {
      Fs(disk[..], openFiles[..], nodes, owner, home, handles)
    }

    ghost predicate Valid()
      reads this, disk, openFiles
    {
      Inv(Snap())
    }

    /** A freshly formatted volume of `size` blocks (`tfstool_createvol`), mounted with no file open. */
    constructor (size: nat, header: Block)
      requires size >= 3
      ensures Valid() && Snap() == Formatted(size, header)
      ensures fresh(disk) && fresh(openFiles)
    {
      hide Inv, BlockOfWords, WithBit;
      var bat := new word[BLOCK_WORDS](_ => 0);
      assert bat[..] == seq(BLOCK_WORDS, _ => 0);
      Set(bat, 0, true);
      Set(bat, ALLOCATION_BLOCK, true);
      Set(bat, ROOT, true);
      var image := BlockOfWords(bat[..]);
      disk := new Block[size](i => FreshBlock(i, header, image));
      openFiles := new Slot[MAX_OPEN](_ => FREE_SLOT);
      nodes, owner, home, handles := map[ROOT := Folder], map[ROOT := ROOT], map[], multiset{};
      new;
      assert Snap() == Formatted(size, header);
      FormattedInv(size, header);
    }

    // ----- rows of the open-file table -----

    /** The search of `sfs_enter_ext`. */
    method FindRow(fileid: int) returns (row: int)
      requires fileid >= 0
      ensures IsRowFor(openFiles[..], fileid, row)
    {
      row := -1;
      var i := 0;
      while i < openFiles.Length
        invariant 0 <= i <= openFiles.Length
        invariant forall j | 0 <= j < i :: openFiles[j].fileid != fileid
        invariant row == -1 ==> forall j | 0 <= j < i :: openFiles[j].fileid != -1
        invariant row != -1 ==> 0 <= row < i && openFiles[row].fileid == -1
      {
        if openFiles[i].fileid == fileid {
          return i;
        } else if openFiles[i].fileid == -1 && row == -1 {
          row := i;
        }
        i := i + 1;
      }
    }

    /** `_delete_from_dirtree`: changes nothing but the parent's block. */
    method DeleteFromDirtree(fileid: int, parentid: int)
      requires parentid < disk.Length
      modifies disk
      ensures disk[..] == if parentid > 0 then old(disk[..])[parentid := ClearEntries(old(disk[..])[parentid], fileid, MAX_FILES)]
                          else old(disk[..])
    {
      hide EntryAt, WithEntry;
      if parentid > 0 {
        var md := disk[parentid];
        var i := 0;
        while i < MAX_FILES
          invariant 0 <= i <= MAX_FILES && md == ClearEntries(disk[parentid], fileid, i)
        {
          var e := EntryAt(md, i);
          if e.inode == fileid {
            md := WithEntry(md, i, Entry(0, e.name[0 := 0]));
          }
          i := i + 1;
        }
        disk[parentid] := md;
      }
    }

    /** A block read as words into a buffer. */
    method LoadWords(b: int) returns (buffer: array<word>)
      requires 0 <= b < disk.Length
      ensures fresh(buffer) && buffer[..] == Words(disk[b])
    {
      hide WordAt;
      var words := Words(disk[b]);
      buffer := new word[BLOCK_WORDS](i requires 0 <= i < BLOCK_WORDS => words[i]);
    }

    /** The part of `_delete` that clears the bits of a file's data blocks. */
    method ClearData(bat: array<word>, fileid: int, ghost node: Node)
      requires 0 <= fileid < disk.Length && node.File? && FileOk(disk[..], fileid, node)
      requires bat.Length == BLOCK_WORDS
      modifies bat
      ensures Within(node.blocks, old(bat[..])) && bat[..] == Written(old(bat[..]), node.blocks, false)
    {
      hide Words, WithBit, Written, FileOk;
      ghost var was, blocks := bat[..], node.blocks;
      FilePointers(disk[..], fileid, node);
      NothingWritten(was);
      assert blocks[..0] == [];
      var inode := Words(disk[fileid]);
      var i := 0;
      while i < BLOCKS_MAX && inode[1 + i] != 0
        invariant 0 <= i <= |blocks| && bat.Length == BLOCK_WORDS
        invariant Within(blocks[..i], was) && bat[..] == Written(was, blocks[..i], false)
      {
        ghost var b := blocks[i];
        Set(bat, inode[1 + i], false);
        WrittenSnoc(was, blocks[..i], blocks[i], false);
        assert blocks[..i + 1] == blocks[..i] + [blocks[i]];
        i := i + 1;
      }
      assert blocks[..i] == blocks;
    }

    /** Rows that had the destroyed folder as parent forget it. */
    method ForgetParent(fileid: int)
      modifies openFiles
      ensures openFiles[..] == Orphaned(old(openFiles[..]), fileid)
    {
      var i := 0;
      while i < openFiles.Length
        invariant 0 <= i <= openFiles.Length
        invariant forall j | 0 <= j < openFiles.Length ::
                    openFiles[j] == if j < i then Orphaned(old(openFiles[..]), fileid)[j] else old(openFiles[j])
      {
        if openFiles[i].parentid == fileid {
          openFiles[i] := openFiles[i].(parentid := -1);
        }
        i := i + 1;
      }
    }

    /** `_delete`. */
    method Delete(fileid: int, isFolder: bool)
      requires Destroyable(Snap(), fileid) && 2 <= fileid < disk.Length
      requires isFolder <==> nodes[fileid].Folder?
      requires nodes[fileid].File? ==> FileOk(disk[..], fileid, nodes[fileid])
      modifies disk, openFiles, this`nodes, this`owner, this`home
      ensures Snap() == Destroyed(old(Snap()), fileid)
    {
      hide Words, BlockOfWords, FileOk, Orphaned;
      ghost var fs, node := Snap(), nodes[fileid];
      ghost var words := Words(disk[ALLOCATION_BLOCK]);
      var bat := LoadWords(ALLOCATION_BLOCK);
      assert Owned(fileid, node)[0] == fileid;
      Set(bat, fileid, false);
      WrittenCons(words, fileid, if node.File? then node.blocks else []);
      if !isFolder {
        ClearData(bat, fileid, node);
      } else {
        ForgetParent(fileid);
      }
      disk[ALLOCATION_BLOCK] := BlockOfWords(bat[..]);
      owner := Without(owner, Owned(fileid, node));
      home := if node.Folder? then HomesOutside(home, fileid) else home;
      nodes := nodes - {fileid};
    }

    // ----- entering and leaving -----

    /** `sfs_enter_ext` for `open` and `remove`. */
    method EnterOpen(fileid: int, parentid: int, isFolder: bool, markDeleted: bool) returns (row: int)
      requires Valid() && fileid in nodes && parentid == ParentOf(Snap(), fileid) && (isFolder <==> nodes[fileid].Folder?)
      requires if markDeleted then fileid in home else fileid == ROOT || fileid in home
      modifies disk, openFiles, this`home, this`handles
      ensures Valid() && IsRowFor(old(openFiles[..]), fileid, row)
      ensures row == -1 ==> Snap() == old(Snap())
      ensures row != -1 ==> var entered := Opened(old(Snap()), row, fileid);
                            && Inv(entered) && entered.slots[row].fileid == fileid && !entered.slots[row].isDeleted
                            && (if markDeleted then Unlistable(entered, row) && 0 <= entered.home[fileid] < |entered.disk| && Snap() == Unlisted(entered, row)
                                else Snap() == entered)
    {
      hide Inv, IsRowFor, ClearEntries;
      ghost var fs := Snap();
      NodeNumber(fs, fileid);
      row := FindRow(fileid);
      if row == -1 {
        return;
      }
      RowRange(fs, fileid, row);
      OpenedKeeps(fs, row, fileid);
      if openFiles[row].fileid == -1 {
        openFiles[row] := openFiles[row].(fileid := fileid, parentid := parentid, isFolder := isFolder);
      }
      openFiles[row] := openFiles[row].(timesOpened := openFiles[row].timesOpened + 1);
      handles := handles + multiset{fileid};
      assert Snap() == Opened(fs, row, fileid);
      if markDeleted {
        ghost var entered := Snap();
        UnlistedKeeps(entered, row);
        OpenParent(entered, row);
        if !openFiles[row].isDeleted {
          DeleteFromDirtree(openFiles[row].fileid, openFiles[row].parentid);
        }
        openFiles[row] := openFiles[row].(isDeleted := true);
        home := home - {fileid};
        assert Snap() == Unlisted(entered, row);
      }
    }

    /** `sfs_enter`: the row of an open file, or -1. */
    method Enter(fileid: int) returns (row: int)
      requires Valid()
      ensures row == -1 <==> handles[fileid] == 0
      ensures row != -1 ==> 0 <= row < openFiles.Length && openFiles[row].fileid == fileid != -1
    {
      hide Inv, IsRowFor;
      RowsAndHandles(Snap(), fileid);
      if fileid < 0 {
        return -1;
      }
      row := FindRow(fileid);
      RowOfHandle(Snap(), fileid, row);
      if row != -1 && openFiles[row].fileid == -1 {
        return -1;
      }
    }

    /** `sfs_exit`; `isCloseOp` says that an opening ends. */
    method Exit(row: int, isCloseOp: bool)
      requires Valid() && 0 <= row < openFiles.Length && openFiles[row].fileid != -1
      modifies disk, openFiles, this`nodes, this`owner, this`home, this`handles
      ensures LastClose(old(Snap()), row) ==> Destroyable(Shut(old(Snap()), row), old(openFiles[row]).fileid)
      ensures Valid() && Snap() == if isCloseOp then Closed(old(Snap()), row) else old(Snap())
    {
      hide Inv, Destroyed, Destroyable;
      ghost var fs := Snap();
      ClosedIsValid(fs, row);
      var entry := openFiles[row];
      if isCloseOp {
        openFiles[row] := entry.(timesOpened := entry.timesOpened - 1);
        handles := handles - multiset{entry.fileid};
      }
      if openFiles[row].timesOpened == 0 {
        openFiles[row] := FREE_SLOT;
        assert Snap() == Shut(fs, row);
        if entry.isDeleted {
          DeleteReady(fs, row);
          Delete(entry.fileid, entry.isFolder);
        }
      }
    }

    // ----- paths -----

    /** `sfs_resolve_file_ext`. */
    method Resolve(path: seq<byte>) returns (r: int, parentInode: int, parentExists: bool)
      requires Valid() && 0 !in path
      ensures !ValidPath(path) ==> r == VFS_ERROR
      ensures ValidPath(path) ==> NodesOk(Snap()) && Resolves(Tree(Snap()), PathOf(path), r, parentInode, parentExists)
    {
      hide Inv, NodesOk, FoldersOk, Tree, ValidPath, WalkAt, Elements, Lookup, Listing, Entries, Child, Resolves, AllValid;
      parentInode, parentExists := -1, false;
      var ok := IsValidPath(path);
      if !ok {
        return VFS_ERROR, -1, false;
      }
      ghost var fs := Snap();
      InvIsNodesOk(fs);
      ValidPathParts(path);
      var consumed, block := path[1..], ROOT;
      var filename := new byte[NAME_LIMIT];
      ghost var done: Path := [];
      WalkStarts(fs, path);
      while true
        invariant fresh(filename) && filename.Length == NAME_LIMIT && Snap() == fs
        invariant WalkAt(fs, path, done, consumed, block)
        invariant done == [] ==> parentInode == -1
        invariant done != [] ==> Lookup(Tree(fs), ROOT, done[..|done| - 1]) == At(parentInode)
        decreases |consumed|
      {
        WalkParts(fs, path, done, consumed, block);
        var found, rest := NextPathElem(consumed, filename);
        if !found {
          WalkEnds(fs, path, done, block, parentInode, parentExists);
          return block, parentInode, parentExists;
        }
        WalkInFolder(fs, path, done, consumed, block);
        parentInode := block;
        var inode := FindName(disk[block], filename[..]);
        ghost var name := Elements(consumed)[0];
        if inode == -1 {
          var more, _ := NextPathElem(rest, filename);
          parentExists := !more;
          WalkBreaks(fs, path, done, consumed, block, parentExists);
          return VFS_ERROR, parentInode, parentExists;
        }
        WalkStep(fs, path, done, consumed, block, name, inode);
        assert (done + [name])[..|done|] == done;
        consumed, block, done := rest, inode, done + [name];
      }
    }

    // ----- the public operations on names -----

    /** `sfs_open`. */
    method Open(path: seq<byte>) returns (r: int)
      requires Valid() && 0 !in path
      modifies disk, openFiles, this`nodes, this`owner, this`home, this`handles
      ensures Valid()
      ensures var fs, at := old(Snap()), Target(old(Snap()), path);
              if at == Nowhere then r == VFS_NOT_FOUND && Snap() == fs
              else if !HasRow(fs, at.inode) then r == VFS_ERROR && Snap() == fs
              else
                && r == at.inode && handles == fs.handles + multiset{r}
                && disk[..] == fs.disk && nodes == fs.nodes && home == fs.home && owner == fs.owner
    {
      hide Inv, IsRowFor, Tree, NodesOk, FoldersOk, ValidPath, Lookup, Elements;
      ghost var fs := Snap();
      InvIsNodesOk(fs);
      var inode, parentInode, _ := Resolve(path);
      if inode == VFS_ERROR {
        return VFS_NOT_FOUND;
      }
      ValidPathParts(path);
      TargetFacts(fs, path, inode, parentInode);
      var isFolder := IsFolder(path);
      var row := EnterOpen(inode, parentInode, isFolder, false);
      RowExists(fs, inode, row);
      if row == -1 {
        return VFS_ERROR;
      }
      RowRange(fs, inode, row);
      var isDeleted := openFiles[row].isDeleted;
      Exit(row, isDeleted);
      return if isDeleted then VFS_NOT_FOUND else inode;
    }

    /** `sfs_close`. */
    method Close(fileid: int) returns (r: int)
      requires Valid()
      modifies disk, openFiles, this`nodes, this`owner, this`home, this`handles
      ensures Valid() && NodesOk(old(Snap())) && NodesOk(Snap())
      ensures var fs := old(Snap());
              if fs.handles[fileid] == 0 then r == VFS_ERROR && Snap() == fs
              else
                && r == VFS_OK && handles == fs.handles - multiset{fileid}
                && if fs.handles[fileid] == 1 && Marked(fs, fileid) then Vanished(fs, Snap(), fileid) else LooksSame(fs, Snap())
    {
      hide Inv, Closed, NodesOk, FoldersOk, SlotsOk, Vanished, LooksSame, Marked;
      InvIsNodesOk(Snap());
      var row := Enter(fileid);
      if row == -1 {
        return VFS_ERROR;
      }
      CloseEffect(Snap(), row);
      Exit(row, true);
      return VFS_OK;
    }

    /** `sfs_remove`. */
    method Remove(path: seq<byte>) returns (r: int)
      requires Valid() && 0 !in path
      modifies disk, openFiles, this`nodes, this`owner, this`home, this`handles
      ensures Valid() && NodesOk(old(Snap())) && NodesOk(Snap())
      ensures var fs, at := old(Snap()), Target(old(Snap()), path);
              if at == Nowhere || path == [SLASH] then r == VFS_NOT_FOUND && Snap() == fs
              else if !HasRow(fs, at.inode) then r == VFS_ERROR && Snap() == fs
              else
                && r == VFS_OK && path != [] && at.inode in fs.nodes && at.inode in fs.home && PathOf(path) != []
                && RemovedFrom(fs, Snap(), at.inode, PathOf(path)[|PathOf(path)| - 1])
                && Target(Snap(), path) == Nowhere
    {
      hide Inv, IsRowFor, Tree, NodesOk, FoldersOk, SlotsOk, ValidPath, Lookup, Elements, Closed, RemovedFrom, CString, Unlisted, Opened, Files, FreeBytes;
      ghost var fs := Snap();
      InvIsNodesOk(fs);
      var inode, parentInode, _ := Resolve(path);
      var isRoot := StringCompare(path + [0], [SLASH, 0], true);
      StringsAre(path);
      if inode == VFS_ERROR || isRoot == 0 {
        return VFS_NOT_FOUND;
      }
      ValidPathParts(path);
      TargetFacts(fs, path, inode, parentInode);
      TargetHome(fs, path, inode);
      var isFolder := IsFolder(path);
      var row := EnterOpen(inode, parentInode, isFolder, true);
      RowExists(fs, inode, row);
      if row == -1 {
        return VFS_ERROR;
      }
      RowRange(fs, inode, row);
      UnlinkedKeeps(fs, row, inode);
      RemoveEffect(fs, row, inode, PathOf(path)[|PathOf(path)| - 1]);
      Exit(row, true);
      RemovedPaths(fs, Snap(), path, inode, path);
      return VFS_OK;
    }

    // ----- creating -----

    /** The search of `sfs_create` for a free entry; the last one wins. */
    method FindFreeEntry(md: Block) returns (index: int)
      ensures if index == -1 then forall i | 0 <= i < MAX_FILES :: Used(Entries(md)[i])
              else 0 <= index < MAX_FILES && !Used(Entries(md)[index]) && forall i | index < i < MAX_FILES :: Used(Entries(md)[i])
    {
      hide EntryAt;
      index := -1;
      var i := 0;
      while i < MAX_FILES
        invariant 0 <= i <= MAX_FILES && -1 <= index < i
        invariant index != -1 ==> !Used(Entries(md)[index])
        invariant forall k | index < k < i :: Used(Entries(md)[k])
      {
        assert EntryAt(md, i) == Entries(md)[i];
        if EntryAt(md, i).inode == 0 {
          index := i;
        }
        i := i + 1;
      }
    }

    /** The name field of an entry after the last element of the path has been copied over it. */
    method NameField(was: Name, path: seq<byte>) returns (field: Name)
      requires ValidPath(path) && |path| >= 2 && 0 !in path
      ensures CString(field) == PathOf(path)[|PathOf(path)| - 1]
    {
      hide CString, Elements, AllValid, Copied;
      var buffer := new byte[FILENAME_MAX](i requires 0 <= i < 16 => was[i]);
      assert buffer[..] == was;
      var name := ActualFilename(path);
      NameFits(path);
      StringsAre(name);
      StringCopy(buffer, 0, name + [0], FILENAME_MAX);
      CopiedReadsBack(was, 0, name, FILENAME_MAX);
      assert Copied(was, 0, name, FILENAME_MAX)[0..] == Copied(was, 0, name, FILENAME_MAX);
      field := buffer[..];
    }

    /** Marks the block pointers from `from` on as unused. */
    method ClearPointers(inode: array<word>, from: nat)
      requires from <= inode.Length
      modifies inode
      ensures forall k | 0 <= k < inode.Length :: inode[k] == if k < from then old(inode[k]) else 0
    {
      var i := from;
      while i < inode.Length
        invariant from <= i <= inode.Length
        invariant forall k | 0 <= k < inode.Length :: inode[k] == if from <= k < i then 0 else old(inode[k])
      {
        inode[i] := 0;
        i := i + 1;
      }
    }

    /** Zeroes the data blocks of a new file. */
    method ZeroData(inode: array<word>, n: nat, ghost blocks: seq<int>)
      requires |blocks| == n < inode.Length && forall i | 0 <= i < n :: inode[1 + i] == blocks[i] < disk.Length
      modifies disk
      ensures forall i | 0 <= i < n :: 0 <= blocks[i] < disk.Length
      ensures disk[..] == Zeroed(old(disk[..]), blocks)
    {
      hide ZeroBlock;
      ghost var was := disk[..];
      assert blocks[..0] == [];
      var i := 0;
      while i < n
        invariant 0 <= i <= n && disk[..] == Zeroed(was, blocks[..i])
      {
        assert inode[1 + i] == blocks[i];
        disk[inode[1 + i]] := ZeroBlock();
        assert blocks[..i + 1][..i] == blocks[..i];
        i := i + 1;
      }
      assert blocks[..n] == blocks;
    }

    /** The writing half of `sfs_create`. */
    method Commit(plan: Plan, bat: array<word>, inode: array<word>)
      requires Placeable(Snap(), plan)
      requires bat[..] == Written(Words(disk[ALLOCATION_BLOCK]), plan.picks, true)
      requires plan.node.File? ==> inode[..] == NewInode(plan.node)
      modifies disk, this`nodes, this`owner, this`home
      ensures Snap() == Created(old(Snap()), plan)
    {
      hide Words, BlockOfWords, Written, WithEntry, EmptyDirectory, Zeroed, InodeWords;
      var c := plan.picks[0];
      var md := WithEntry(disk[plan.p], plan.k, Entry(c, plan.field));
      disk[ALLOCATION_BLOCK] := BlockOfWords(bat[..]);
      disk[plan.p] := md;
      if plan.node.File? {
        disk[c] := BlockOfWords(inode[..]);
        InodePointers(plan.node);
        ZeroData(inode, |plan.node.blocks|, plan.node.blocks);
      } else {
        disk[c] := EmptyDirectory(md);
      }
      nodes, owner, home := nodes[c := plan.node], owner + OwnedBy(plan.picks, c), home[c := plan.p];
    }

    /** The blocks that `sfs_create` takes, in the allocation buffer and the inode buffer; nothing is
        written yet. */
    method TakeBlocks(isFolder: bool, size: nat) returns (ok: bool, bat: array<word>, inode: array<word>, picks: seq<int>)
      requires disk.Length >= 3 && BlocksFor(size) <= BLOCKS_MAX
      ensures fresh(bat) && fresh(inode)
      ensures ok <==> (if isFolder then 1 else 1 + BlocksFor(size)) <= ClearBits(Words(disk[ALLOCATION_BLOCK]), Total(disk[..]))
      ensures ok ==>
                && |picks| == (if isFolder then 1 else 1 + BlocksFor(size))
                && Within(picks, Words(disk[ALLOCATION_BLOCK]))
                && FirstFit(Words(disk[ALLOCATION_BLOCK]), Total(disk[..]), picks)
                && bat[..] == Written(Words(disk[ALLOCATION_BLOCK]), picks, true)
                && (!isFolder ==> inode[..] == InodeWords(size, picks[1..]))
    {
      hide Words, Written, FirstFit, ClearBits;
      ghost var words := Words(disk[ALLOCATION_BLOCK]);
      bat := LoadWords(ALLOCATION_BLOCK);
      inode := new word[BLOCK_WORDS];
      picks := [];
      var total := if disk.Length < MAX_BLOCKS then disk.Length else MAX_BLOCKS;
      NothingTaken(words, total);
      var c := Allocate(bat, total, words, []);
      if c == -1 {
        return false, bat, inode, [];
      }
      assert [] + [c] == [c];
      picks := [c];
      AllocatedFits(words, total, picks);
      if !isFolder {
        inode[0] := size;
        var n := BlocksFor(size);
        var enough;
        ghost var taken;
        enough, taken := AllocateMany(bat, total, inode, n, words, c);
        if !enough {
          return false, bat, inode, [];
        }
        ClearPointers(inode, 1 + n);
        picks := [c] + inode[1..1 + n];
        assert picks == taken;
        assert inode[..] == InodeWords(size, picks[1..]);
      }
      return true, bat, inode, picks;
    }

    /** `sfs_create` from the point where the parent folder is known. */
    method CreateIn(path: seq<byte>, parent: int, isFolder: bool, size: nat) returns (r: int)
      requires Valid() && NodesOk(Snap()) && ValidPath(path) && |path| >= 2 && 0 !in path
      requires FolderOf(Snap(), path) == At(parent) && Target(Snap(), path) == Nowhere
      requires (isFolder <==> FolderName(path)) && BlocksFor(size) <= BLOCKS_MAX
      modifies disk, this`nodes, this`owner, this`home
      ensures Valid() && NodesOk(Snap())
      ensures r == (if CanCreate(old(Snap()), path, size) then VFS_OK else VFS_ERROR)
      ensures r != VFS_OK ==> Snap() == old(Snap())
      ensures r == VFS_OK ==> Target(Snap(), path).At? && CreatedIn(old(Snap()), Snap(), path, size, Target(Snap(), path).inode)
    {
      hide Inv, NodesOk, Tree, Words, Written, FirstFit, Elements, AllValid, Entries, CString, CreatedIn, Target, FolderOf, Listing, ClearBits, NoRepeats, InodeWords, Sound, Created, Files, FreeBytes;
      ghost var fs := Snap();
      ParentIsFolder(fs, path);
      var md := disk[parent];
      var index := FindFreeEntry(md);
      RoomInFolder(Entries(md), index);
      if index == -1 {
        return VFS_ERROR;
      }
      var field := NameField(EntryAt(md, index).name, path);
      var ok, bat, inode, picks := TakeBlocks(isFolder, size);
      FreeIs(disk[..]);
      if !ok {
        return VFS_ERROR;
      }
      var plan := Plan(parent, index, field, picks, if isFolder then Folder else File(size, picks[1..]));
      PlanIsSound(fs, path, size, plan);
      CreateEffect(fs, path, size, plan);
      Commit(plan, bat, inode);
      CreatedPaths(fs, Snap(), path, size, picks[0], path);
      return VFS_OK;
    }

    /** `sfs_create`: all or nothing. */
    method Create(path: seq<byte>, size: int) returns (r: int)
      requires Valid() && 0 !in path
      modifies disk, this`nodes, this`owner, this`home
      ensures Valid() && NodesOk(old(Snap())) && NodesOk(Snap())
      ensures r == (if CanCreate(old(Snap()), path, size) then VFS_OK else VFS_ERROR)
      ensures r != VFS_OK ==> Snap() == old(Snap())
      ensures r == VFS_OK ==> Target(Snap(), path).At? && CreatedIn(old(Snap()), Snap(), path, size, Target(Snap(), path).inode)
    {
      hide Inv, NodesOk, Tree, Elements, AllValid, CreatedIn, Listing, FreeBytes, Lookup, Resolves, Target, FolderOf;
      ghost var fs := Snap();
      InvIsNodesOk(fs);
      var ok := IsValidPath(path);
      if !ok {
        return VFS_ERROR;
      }
      var isFolder := IsFolder(path);
      var bytes := size;
      if isFolder {
        bytes := 0;
      } else if size < 0 {
        return VFS_ERROR;
      }
      var numblocks := (bytes + 511) / 512;
      if numblocks > BLOCKS_MAX {
        return VFS_ERROR;
      }
      var fileInode, parentInode, parentExists := Resolve(path);
      ResolveMeans(fs, path, fileInode, parentInode, parentExists);
      if fileInode != VFS_ERROR || parentInode < 0 || !parentExists {
        return VFS_ERROR;
      }
      r := CreateIn(path, parentInode, isFolder, bytes);
      if isFolder { FolderSize(fs, Snap(), path, size); }
    }

    // ----- reading and writing -----

    /** One block's share of a read. */
    method ReadChunk(pointer: int, buffer: array<byte>, read: nat, from: nat, len: nat, aligned: bool,
                     ghost node: Node, ghost b: nat, ghost was: seq<byte>, ghost offset: nat)
      requires LaidOut(disk[..], node) && b < |node.blocks| && pointer == node.blocks[b] && |was| == buffer.Length
      requires from + len <= 512 && offset + read == 512 * b + from && offset + read + len <= node.size && read + len <= buffer.Length
      requires Filled(buffer[..], Content(disk[..], node), was, offset, read)
      modifies buffer
      ensures Filled(buffer[..], Content(disk[..], node), was, offset, read + len)
    {
      hide Content, Overwritten;
      RunInBlock(disk[..], node, b, from, len);
      BufferGrows(Content(disk[..], node), was, offset, read, len);
      MemCopy(len, buffer, read, disk[pointer], from, aligned);
    }

    /** The block loop of `sfs_read`: bytes `offset` to `offset + n` of the file go to the buffer. `address`
        is where the buffer lies; it decides whether a copy goes by words. */
    method ReadBlocks(fileid: int, buffer: array<byte>, n: nat, offset: nat, address: nat, ghost node: Node)
      requires 0 <= fileid < disk.Length && LaidOut(disk[..], node) && FileOk(disk[..], fileid, node)
      requires 0 < n <= buffer.Length && offset + n <= node.size
      modifies buffer
      ensures Filled(buffer[..], Content(disk[..], node), old(buffer[..]), offset, n)
    {
      hide FileOk, Words, Content, Filled, Distinct;
      ghost var was := buffer[..];
      FilePointers(disk[..], fileid, node);
      BlockRange(node.size, offset, n);
      NothingFilled(Content(disk[..], node), was, offset);
      var inode := Words(disk[fileid]);
      var b1, b2, from := offset / 512, (offset + n - 1) / 512, offset % 512;
      ghost var pointer := node.blocks[b1];
      var read := if 512 - from < n then 512 - from else n;
      ReadChunk(inode[1 + b1], buffer, 0, from, read, address % 4 == 0 && from % 4 == 0, node, b1, was, offset);
      b1 := b1 + 1;
      while b1 <= b2
        invariant 0 < b1 <= b2 + 1 && 0 < read <= n
        invariant if b1 <= b2 then offset + read == 512 * b1 else read == n
        invariant Filled(buffer[..], Content(disk[..], node), was, offset, read)
      {
        pointer := node.blocks[b1];
        var len := if b1 == b2 then n - read else 512;
        ReadChunk(inode[1 + b1], buffer, read, 0, len, (address + read) % 4 == 0, node, b1, was, offset);
        read := read + len;
        b1 := b1 + 1;
      }
    }

    /** The directory branch of `sfs_read`. */
    method ReadFolder(fileid: int, buffer: array<byte>) returns (read: int)
      requires 0 <= fileid < disk.Length && buffer.Length >= 512
      requires forall i | 0 <= i < MAX_FILES && Used(Entries(disk[fileid])[i]) :: ValidName(CString(Entries(disk[fileid])[i].name))
      modifies buffer
      ensures read == |ListingBytes(Entries(disk[fileid]))| <= 512
      ensures buffer[..] == ListingBytes(Entries(disk[fileid])) + old(buffer[..])[read..]
    {
      hide CString, Copied, Named, NameBytes, EntryAt, CountBytes, ListingBytes, ByteOf, ValidName;
      ghost var es, was := Entries(disk[fileid]), buffer[..];
      var md := disk[fileid];
      read := 0;
      var files, i := 0, 0;
      NothingNamed(was);
      assert es[..0] == [];
      while i < MAX_FILES
        invariant 0 <= i <= MAX_FILES && read >= 0 && Named(buffer[..], was, es[..i], read) && files == UsedEntries(es[..i])
      {
        var e := EntryAt(md, i);
        assert e == es[i] && es[..i + 1] == es[..i] + [e];
        EntryText(e);
        NamedGrows(buffer[..], was, es[..i], read, e);
        NameBytesSnoc(es[..i], e);
        if e.inode > 0 {
          StringCopy(buffer, 4 + read, e.name, FILENAME_MAX);
          files := files + 1;
          read := read + |CString(e.name)| + 1;
        }
        i := i + 1;
      }
      assert es[..MAX_FILES] == es;
      CountGoesFirst(buffer[..], was, es, read);
      ghost var named := buffer[..];
      StoreCount(buffer, files);
      read := read + 4;
    }

    /** Stores a word at the start of the buffer. */
    method StoreCount(buffer: array<byte>, n: word)
      requires buffer.Length >= 4
      modifies buffer
      ensures buffer[..] == CountBytes(n) + old(buffer[..])[4..]
    {
      var bytes := CountBytes(n);
      buffer[0], buffer[1], buffer[2], buffer[3] := bytes[0], bytes[1], bytes[2], bytes[3];
    }

    /** The part of `sfs_read` between entering and leaving. */
    method ReadEntered(row: int, fileid: int, buffer: array<byte>, bufsize: nat, offset: int, address: nat) returns (r: int)
      requires Valid() && NodesOk(Snap()) && bufsize <= buffer.Length && handles[fileid] > 0
      requires 0 <= row < openFiles.Length && openFiles[row].fileid == fileid != -1
      modifies buffer
      ensures r == ReadLength(Snap(), fileid, bufsize, offset)
      ensures ReadGives(Snap(), fileid, offset, r, old(buffer[..]), buffer[..])
    {
      hide Inv, NodesOk, FoldersOk, SlotsOk, Filled, LaidOut, FileOk, Words, Content, Entries, ListingBytes, ValidName;
      ghost var fs := Snap();
      HandleFacts(fs, fileid);
      RowKind(fs, row);
      if openFiles[row].isFolder {
        if offset != 0 || bufsize < 512 {
          return VFS_ERROR;
        }
        FolderNames(fs, fileid);
        r := ReadFolder(fileid, buffer);
      } else {
        FileLaidOut(fs, fileid);
        FilePointers(fs.disk, fileid, nodes[fileid]);
        FileBytes(fs, fileid);
        var filesize := Words(disk[fileid])[0];
        if offset < 0 || offset > filesize {
          return VFS_ERROR;
        }
        var n := if bufsize < filesize - offset then bufsize else filesize - offset;
        NothingFilled(Files(fs)[fileid], buffer[..], offset);
        if n == 0 {
          return 0;
        }
        ReadBlocks(fileid, buffer, n, offset, address, nodes[fileid]);
        r := n;
      }
    }

    /** `sfs_read`: exactly the bytes asked for that the file has; for a folder, its listing. Nothing on the volume
        changes: the handle stays open meanwhile, so leaving finds the row still in use. */
    method Read(fileid: int, buffer: array<byte>, bufsize: nat, offset: int, address: nat) returns (r: int)
      requires Valid() && bufsize <= buffer.Length
      modifies buffer, disk, openFiles, this`nodes, this`owner, this`home, this`handles
      ensures Valid() && Snap() == old(Snap()) && NodesOk(Snap())
      ensures r == ReadLength(Snap(), fileid, bufsize, offset)
      ensures ReadGives(Snap(), fileid, offset, r, old(buffer[..]), buffer[..])
    {
      hide Inv, NodesOk, FoldersOk, SlotsOk, ReadGives, Closed, Destroyable;
      InvIsNodesOk(Snap());
      NothingRead(Snap(), fileid, offset, buffer[..]);
      var total := if disk.Length < MAX_BLOCKS then disk.Length else MAX_BLOCKS;
      HandleFacts(Snap(), fileid);
      if fileid < ROOT || fileid > total {
        return VFS_ERROR;
      }
      var row := Enter(fileid);
      if row == -1 {
        return VFS_ERROR;
      }
      r := ReadEntered(row, fileid, buffer, bufsize, offset, address);
      ghost var now := buffer[..];
      Exit(row, false);
    }

    /** One block's share of a write: a block that is not written as a whole is read first. */
    method WriteChunk(pointer: int, bat: array<byte>, data: seq<byte>, written: nat, from: nat, len: nat, aligned: bool)
      requires 0 <= pointer < disk.Length && bat.Length == 512 && from + len <= 512 && written + len <= |data|
      modifies disk, bat
      ensures disk[..] == old(disk[..])[pointer := Overwritten(old(disk[..])[pointer], from, data[written..written + len])]
    {
      hide Overwritten;
      ghost var block := disk[pointer];
      if len < 512 {
        CopyBytes(512, bat, 0, disk[pointer], 0);
        assert bat[..] == block;
      } else {
        WholeBlock(bat[..], block, data[written..written + len]);
      }
      MemCopy(len, bat, from, data, written, aligned);
      disk[pointer] := bat[..];
    }

    /** The block loop of `sfs_write`. */
    method WriteBlocks(fileid: int, data: seq<byte>, n: nat, offset: nat, address: nat)
      requires Valid() && fileid in nodes && nodes[fileid].File? && 0 < n <= |data| && offset + n <= nodes[fileid].size
      modifies disk
      ensures disk.Length == |old(disk[..])| && Stored(old(Snap()), fileid, disk[..], data, offset, n)
    {
      hide Inv, FileOk, Words, Stored, Overwritten;
      ghost var fs, node := Snap(), nodes[fileid];
      FileLaidOut(fs, fileid);
      FilePointers(fs.disk, fileid, node);
      BlockRange(node.size, offset, n);
      NothingStored(fs, fileid, data, offset);
      var inode := Words(disk[fileid]);
      var bat := new byte[512];
      var b1, b2, from := offset / 512, (offset + n - 1) / 512, offset % 512;
      ghost var pointer := node.blocks[b1];
      var written := if 512 - from < n then 512 - from else n;
      StoredGrows(fs, fileid, disk[..], data, offset, 0, b1, from, written);
      WriteChunk(inode[1 + b1], bat, data, 0, from, written, address % 4 == 0 && from % 4 == 0);
      b1 := b1 + 1;
      while b1 <= b2
        invariant 0 < b1 <= b2 + 1 && 0 < written <= n
        invariant if b1 <= b2 then offset + written == 512 * b1 else written == n
        invariant Stored(fs, fileid, disk[..], data, offset, written)
      {
        pointer := node.blocks[b1];
        var len := if b1 == b2 then n - written else 512;
        StoredGrows(fs, fileid, disk[..], data, offset, written, b1, 0, len);
        WriteChunk(inode[1 + b1], bat, data, written, 0, len, (address + written) % 4 == 0);
        written := written + len;
        b1 := b1 + 1;
      }
    }

    /** The part of `sfs_write` between entering and leaving. */
    method WriteEntered(fileid: int, data: seq<byte>, datasize: nat, offset: int, address: nat) returns (r: int)
      requires Valid() && NodesOk(Snap()) && datasize <= |data| && handles[fileid] > 0 && fileid in nodes && nodes[fileid].File?
      modifies disk
      ensures Valid() && NodesOk(old(Snap())) && NodesOk(Snap())
      ensures r == WriteLength(old(Snap()), fileid, datasize, offset)
      ensures r <= 0 ==> Snap() == old(Snap())
      ensures r > 0 ==> WriteGives(old(Snap()), Snap(), fileid, data, offset, r)
    {
      hide Inv, NodesOk, FoldersOk, SlotsOk, FileOk, Words, Stored, Overwritten, Files, Tree, FreeBytes, WriteGives;
      ghost var fs := Snap();
      FileLaidOut(fs, fileid);
      FilePointers(fs.disk, fileid, nodes[fileid]);
      var filesize := Words(disk[fileid])[0];
      if offset < 0 || offset > filesize {
        return VFS_ERROR;
      }
      var n := if datasize < filesize - offset then datasize else filesize - offset;
      if n == 0 {
        return 0;
      }
      WriteBlocks(fileid, data, n, offset, address);
      WrittenView(fs, fileid, disk[..], data, offset, n);
      r := n;
    }

    /** `sfs_write` of `datasize` bytes from the buffer `data`: stores as many as the file has room for and
        changes nothing else. The handle stays open meanwhile. */
    method Write(fileid: int, data: seq<byte>, datasize: nat, offset: int, address: nat) returns (r: int)
      requires Valid() && datasize <= |data|
      modifies disk, openFiles, this`nodes, this`owner, this`home, this`handles
      ensures Valid() && NodesOk(old(Snap())) && NodesOk(Snap())
      ensures r == WriteLength(old(Snap()), fileid, datasize, offset)
      ensures r <= 0 ==> Snap() == old(Snap())
      ensures r > 0 ==> WriteGives(old(Snap()), Snap(), fileid, data, offset, r)
    {
      hide Inv, NodesOk, FoldersOk, SlotsOk, WriteGives, Closed, Destroyable;
      ghost var fs := Snap();
      InvIsNodesOk(fs);
      var total := if disk.Length < MAX_BLOCKS then disk.Length else MAX_BLOCKS;
      HandleFacts(fs, fileid);
      if fileid < ROOT || fileid > total {
        return VFS_ERROR;
      }
      var row := Enter(fileid);
      if row == -1 {
        return VFS_ERROR;
      }
      RowKind(fs, row);
      if openFiles[row].isFolder {
        return VFS_ERROR;
      }
      r := WriteEntered(fileid, data, datasize, offset, address);
      if r > 0 { OnlyDiskWritten(fs, Snap(), fileid, data, offset, r); }
      Exit(row, false);
    }

    /** `sfs_getfree`. */
    method GetFree() returns (r: int)
      requires Valid()
      ensures disk.Length >= 3 && r == FreeBytes(disk[..])
    {
      hide Inv, Words, Bit, ClearBits;
      InvIsNodesOk(Snap());
      var total := if disk.Length < MAX_BLOCKS then disk.Length else MAX_BLOCKS;
      var bat := LoadWords(ALLOCATION_BLOCK);
      ghost var words := Words(disk[ALLOCATION_BLOCK]);
      var marked, i := 0, 0;
      NoBitsNone(words);
      while i < total
        invariant 0 <= i <= total && bat[..] == words && i - marked == ClearBits(words, i)
      {
        var bit := Get(bat, i);
        OneMoreBit(words, i);
        marked := marked + bit;
        i := i + 1;
      }
      r := (total - marked) * 512 + total % total * 512;
    }
  }

  lemma ValidPathParts(path: seq<byte>)
    requires ValidPath(path)
    ensures path != []
  {
  }

  lemma WalkParts(fs: Fs, path: seq<byte>, done: Path, consumed: seq<byte>, block: int)
    requires NodesOk(fs) && FoldersOk(fs) && WalkAt(fs, path, done, consumed, block)
    ensures 0 !in consumed && AllValid(Elements(consumed)) && (consumed != [] ==> Elements(consumed) != [])
    ensures Lookup(Tree(fs), ROOT, done) == At(block)
  {
  }

  lemma WalkEnds(fs: Fs, path: seq<byte>, done: Path, block: int, parent: int, parentExists: bool)
    requires NodesOk(fs) && FoldersOk(fs) && WalkAt(fs, path, done, [], block)
    requires done == [] ==> parent == -1
    requires done != [] ==> Lookup(Tree(fs), ROOT, done[..|done| - 1]) == At(parent)
    ensures Resolves(Tree(fs), PathOf(path), block, parent, parentExists)
  {
    hide Tree, FoldersOk;
    assert PathOf(path) == done;
    BlockIsNoError(fs, done);
  }

  lemma BlockIsNoError(fs: Fs, done: Path)
    requires NodesOk(fs) && FoldersOk(fs) && Lookup(Tree(fs), ROOT, done).At?
    ensures Lookup(Tree(fs), ROOT, done).inode >= 2
  {
    hide Tree, FoldersOk;
    ResolvedNode(fs, done);
  }

  lemma WalkBreaks(fs: Fs, path: seq<byte>, done: Path, consumed: seq<byte>, block: int, parentExists: bool)
    requires NodesOk(fs) && FoldersOk(fs) && WalkAt(fs, path, done, consumed, block) && consumed != []
    requires block in Tree(fs) && Elements(consumed)[0] !in Tree(fs)[block]
    requires parentExists <==> consumed[Cut(consumed)..] == []
    ensures Resolves(Tree(fs), PathOf(path), VFS_ERROR, block, parentExists)
  {
    hide Tree, FoldersOk, NodesOk, AllValid, Lookup, Elements, Cut;
    var rest := Elements(consumed);
    ElementsUnfold(consumed);
    WalkFails(Tree(fs), ROOT, done, rest);
    assert |rest| == 1 ==> (done + rest)[..|done + rest| - 1] == done;
  }

  lemma {:induction false} WrittenCons(words: seq<word>, b: int, bs: seq<int>)
    requires Within([b] + bs, words)
    ensures 0 <= b < 32 * |words| && Within(bs, words)
    ensures Written(words, [b] + bs, false) == Written(WithBit(words, b, false), bs, false)
  {
    hide WithBit;
    assert ([b] + bs)[0] == b && forall i | 0 <= i < |bs| :: ([b] + bs)[i + 1] == bs[i];
    if bs == [] {
      assert [b] + bs == [b] && [b][..0] == [];
    } else {
      var most := bs[..|bs| - 1];
      assert ([b] + bs)[..|bs|] == [b] + most;
      WrittenCons(words, b, most);
    }
  }

  lemma RowRange(fs: Fs, c: int, row: int)
    requires IsRowFor(fs.slots, c, row) && row != -1
    ensures 0 <= row < |fs.slots| && (fs.slots[row].fileid == c || fs.slots[row].fileid == -1)
  {
  }

  lemma OpenParent(fs: Fs, row: int)
    requires Unlistable(fs, row)
    ensures fs.slots[row].parentid == fs.home[fs.slots[row].fileid] >= 2
  {
    assert SlotOk(fs, fs.slots[row]);
    HomeFacts(fs, fs.slots[row].fileid);
  }

  lemma RowsAndHandles(fs: Fs, c: int)
    requires Inv(fs)
    ensures c < 0 ==> fs.handles[c] == 0
  {
    if c in fs.handles {
      var i :| 0 <= i < |fs.slots| && fs.slots[i].fileid == c;
      assert SlotOk(fs, fs.slots[i]);
    }
  }

  lemma RowOfHandle(fs: Fs, c: int, row: int)
    requires Inv(fs) && c >= 0 && IsRowFor(fs.slots, c, row)
    ensures row != -1 ==> 0 <= row < |fs.slots|
    ensures fs.handles[c] > 0 <==> row != -1 && fs.slots[row].fileid == c
    ensures row != -1 ==> fs.slots[row].fileid == c || fs.slots[row].fileid == -1
  {
    if row != -1 {
      RowIsUnique(fs, row, c);
    }
  }

  lemma ClosedIsValid(fs: Fs, row: int)
    requires Inv(fs) && 0 <= row < |fs.slots| && fs.slots[row].fileid != -1
    ensures fs.slots[row].timesOpened >= 1
    ensures LastClose(fs, row) ==> Destroyable(Shut(fs, row), fs.slots[row].fileid)
    ensures Inv(Closed(fs, row))
  {
    hide Inv, Destroyed;
    ShutKeeps(fs, row);
    ClosedKeeps(fs, row);
  }

  lemma DeleteReady(fs: Fs, row: int)
    requires Inv(fs) && 0 <= row < |fs.slots| && fs.slots[row].fileid != -1
    ensures var c := fs.slots[row].fileid;
            && c in fs.nodes && 2 <= c < Total(fs.disk) && (fs.slots[row].isFolder <==> fs.nodes[c].Folder?)
            && (fs.nodes[c].File? ==> FileOk(fs.disk, c, fs.nodes[c]))
  {
    assert SlotOk(fs, fs.slots[row]);
  }

  lemma StringsAre(path: seq<byte>)
    requires 0 !in path
    ensures 0 in path + [0] && CString(path + [0]) == path && CString([SLASH, 0]) == [SLASH]
  {
    CStringIs(path + [0], path);
    CStringIs([SLASH, 0], [SLASH]);
    assert (path + [0])[|path|] == 0;
  }

  lemma NameFits(path: seq<byte>)
    requires ValidPath(path) && |path| >= 2 && 0 !in path
    ensures var n := PathOf(path)[|PathOf(path)| - 1]; |n| < FILENAME_MAX && 0 !in n
  {
    LastIsValid(path);
  }

  lemma InodePointers(node: Node)
    requires node.File? && |node.blocks| == BlocksFor(node.size) <= BLOCKS_MAX
    requires forall i | 0 <= i < |node.blocks| :: 0 <= node.blocks[i] < MAX_BLOCKS
    ensures forall i | 0 <= i < |node.blocks| :: NewInode(node)[1 + i] == node.blocks[i]
  {
  }

  lemma NothingTaken(words: seq<word>, total: nat)
    requires Fits(words, total)
    ensures FirstFit(words, total, []) && Written(words, [], true) == words
  {
  }

  lemma FreeIs(disk: seq<Block>)
    requires |disk| >= 3
    ensures FreeBytes(disk) == 512 * ClearBits(Words(disk[ALLOCATION_BLOCK]), Total(disk))
  {
  }

  /** When the answer of the walk lets `sfs_create` go on. */
  lemma ResolveMeans(fs: Fs, path: seq<byte>, r: int, parent: int, parentExists: bool)
    requires Inv(fs) && NodesOk(fs) && ValidPath(path) && Resolves(Tree(fs), PathOf(path), r, parent, parentExists)
    ensures (r == VFS_ERROR && parent >= 0 && parentExists) <==> (Target(fs, path) == Nowhere && FolderOf(fs, path).At?)
    ensures FolderOf(fs, path).At? ==> FolderOf(fs, path).inode == parent && |path| >= 2
  {
    hide Inv, Tree, FoldersOk, AllValid, Elements;
    InvIsNodesOk(fs);
    if FolderOf(fs, path).At? { ParentIsFolder(fs, path); }
  }

  /** The size asked for does not matter for a folder. */
  lemma FolderSize(fs: Fs, after: Fs, path: seq<byte>, size: int)
    requires NodesOk(fs) && NodesOk(after) && FolderName(path)
    ensures CanCreate(fs, path, 0) <==> CanCreate(fs, path, size)
    ensures ValidPath(path) && |path| >= 2 && FolderOf(fs, path).At? ==>
              forall c :: CreatedIn(fs, after, path, 0, c) <==> CreatedIn(fs, after, path, size, c)
  {
    hide Tree, Files, NodesOk, Elements, AllValid, Lookup, FreeBytes, Added;
  }

  lemma NothingWritten(words: seq<word>)
    ensures Written(words, [], false) == words
  {
  }

  /** How a file's inode block is read: the size, the data blocks, then zeros. */
  lemma FilePointers(disk: seq<Block>, f: int, node: Node)
    requires 0 <= f < |disk| && node.File? && FileOk(disk, f, node)
    ensures |node.blocks| == BlocksFor(node.size) <= BLOCKS_MAX && Words(disk[f])[0] == node.size
    ensures forall k, j | 0 <= k < |node.blocks| && j == k + 1 :: Words(disk[f])[j] == node.blocks[k] && 3 <= node.blocks[k] < Total(disk)
    ensures forall j | 1 <= j < BLOCK_WORDS :: Words(disk[f])[j] != 0 <==> j <= |node.blocks|
  {
    hide Words;
  }

  lemma EntryText(e: Entry)
    ensures ValidName(CString(e.name)) ==> 0 in e.name && |CString(e.name)| < FILENAME_MAX
  {
    if ValidName(CString(e.name)) { NamesHaveEnds(e); }
  }

  /** The number of bytes that a read comes back with: an error for a file that is not open, an offset
      outside the file, or a folder not read as a whole. */
  ghost function ReadLength(fs: Fs, f: int, bufsize: nat, offset: int): int
    requires NodesOk(fs)
  {
    if fs.handles[f] == 0 || f !in fs.nodes then VFS_ERROR
    else if fs.nodes[f].Folder? then
      if offset != 0 || bufsize < 512 then VFS_ERROR else |ListingBytes(Entries(fs.disk[f]))|
    else
      var size := fs.nodes[f].size;
      if offset < 0 || offset > size then VFS_ERROR else if bufsize < size - offset then bufsize else size - offset
  }

  /** What a read that came back with `n` leaves in the buffer. */
  ghost predicate ReadGives(fs: Fs, f: int, offset: int, n: int, was: seq<byte>, now: seq<byte>)
    requires NodesOk(fs)
  {
    if n < 0 then now == was
    else
      && f in fs.nodes && offset >= 0
      && if fs.nodes[f].File? then f in Files(fs) && Filled(now, Files(fs)[f], was, offset, n)
         else n <= |was| && now == ListingBytes(Entries(fs.disk[f])) + was[n..]
  }

  lemma NothingRead(fs: Fs, f: int, offset: int, buffer: seq<byte>)
    requires NodesOk(fs)
    ensures ReadGives(fs, f, offset, VFS_ERROR, buffer, buffer)
  {
  }

  lemma OnlyDiskWritten(fs: Fs, after: Fs, f: int, data: seq<byte>, offset: int, n: nat)
    requires NodesOk(fs) && NodesOk(after) && WriteGives(fs, after, f, data, offset, n)
    ensures after.slots == fs.slots
  {
  }

  lemma HandleFacts(fs: Fs, f: int)
    requires Inv(fs)
    ensures fs.handles[f] > 0 ==> f in fs.nodes && 2 <= f < Total(fs.disk)
  {
    if f in fs.handles {
      var i :| 0 <= i < |fs.slots| && fs.slots[i].fileid == f;
      assert SlotOk(fs, fs.slots[i]);
    }
  }

  lemma RowKind(fs: Fs, row: int)
    requires Inv(fs) && 0 <= row < |fs.slots| && fs.slots[row].fileid != -1
    ensures fs.slots[row].fileid in fs.nodes && (fs.slots[row].isFolder <==> fs.nodes[fs.slots[row].fileid].Folder?)
  {
    assert SlotOk(fs, fs.slots[row]);
  }

  lemma FolderNames(fs: Fs, f: int)
    requires Inv(fs) && f in fs.nodes && fs.nodes[f].Folder? && 0 <= f < |fs.disk|
    ensures forall i | 0 <= i < MAX_FILES && Used(Entries(fs.disk[f])[i]) :: ValidName(CString(Entries(fs.disk[f])[i].name))
  {
    hide CString, Entries, ValidName;
    EntriesAre(fs, f);
  }

  lemma FileBytes(fs: Fs, f: int)
    requires Inv(fs) && NodesOk(fs) && f in fs.nodes && fs.nodes[f].File? && LaidOut(fs.disk, fs.nodes[f])
    ensures f in Files(fs) && Files(fs)[f] == Content(fs.disk, fs.nodes[f])
  {
    hide Content, FileOk;
  }

  /** The number of bytes that a write stores, or an error. */
  ghost function WriteLength(fs: Fs, f: int, datasize: nat, offset: int): int
    requires NodesOk(fs)
  {
    if fs.handles[f] == 0 || f !in fs.nodes || fs.nodes[f].Folder? then VFS_ERROR
    else
      var size := fs.nodes[f].size;
      if offset < 0 || offset > size then VFS_ERROR else if datasize < size - offset then datasize else size - offset
  }

  /** The file has taken `n` bytes of the data at `offset`; no other byte of any file, no name, no handle
      and no free block differs. */
  ghost predicate WriteGives(fs: Fs, after: Fs, f: int, data: seq<byte>, offset: int, n: nat)
    requires NodesOk(fs) && NodesOk(after)
  {
    && f in Files(fs) && 0 <= offset && offset + n <= |Files(fs)[f]| && n <= |data|
    && Files(after) == Files(fs)[f := Overwritten(Files(fs)[f], offset, data[..n])]
    && Tree(after) == Tree(fs) && FreeBytes(after.disk) == FreeBytes(fs.disk)
    && after == fs.(disk := after.disk)
  }

  lemma WrittenView(fs: Fs, f: int, disk: seq<Block>, data: seq<byte>, offset: nat, n: nat)
    requires Inv(fs) && NodesOk(fs) && Stored(fs, f, disk, data, offset, n)
    ensures Inv(fs.(disk := disk)) && NodesOk(fs.(disk := disk)) && WriteGives(fs, fs.(disk := disk), f, data, offset, n)
  {
    hide Inv, Tree, Files, FreeBytes, Overwritten, Content, NodesOk;
    OnlyDataView(fs, disk, f);
    FileBytes(fs, f);
  }

  lemma NoBitsNone(words: seq<word>)
    ensures ClearBits(words, 0) == 0
  {
  }

  lemma OneMoreBit(words: seq<word>, i: nat)
    requires Fits(words, i + 1)
    ensures ClearBits(words, i + 1) == ClearBits(words, i) + if Bit(words, i) then 0 else 1
  {
  }

  // ----- a fresh volume -----

  function SystemBits(): seq<word> {
    WithBit(WithBit(WithBit(seq(BLOCK_WORDS, _ => 0), 0, true), ALLOCATION_BLOCK, true), ROOT, true)
  }

  function FreshBlock(i: int, header: Block, bat: Block): Block {
    if i == 0 then header else if i == ALLOCATION_BLOCK then bat else ZeroBlock()
  }

  ghost function Formatted(size: nat, header: Block): Fs
    requires size >= 3
  {
    Fs(seq(size, i => FreshBlock(i, header, BlockOfWords(SystemBits()))),
       seq(MAX_OPEN, _ => FREE_SLOT), map[ROOT := Folder], map[ROOT := ROOT], map[], multiset{})
  }

  lemma SystemBitsAre(b: nat)
    requires b < 32 * BLOCK_WORDS
    ensures Bit(SystemBits(), b) <==> b < 3
  {
    hide WithBit;
    var none: seq<word> := seq(BLOCK_WORDS, _ => 0);
    var one := WithBit(none, 0, true);
    var two := WithBit(one, ALLOCATION_BLOCK, true);
    BitOfWithBit(none, 0, true, b);
    BitOfWithBit(one, ALLOCATION_BLOCK, true, b);
    BitOfWithBit(two, ROOT, true, b);
    ZeroHasNoBits(b % 32);
  }

  lemma FormattedInv(size: nat, header: Block)
    requires size >= 3
    ensures Inv(Formatted(size, header))
  {
    hide BlockOfWords, Words, WithBit, SystemBits, Bit;
    var fs := Formatted(size, header);
    WordsRoundTrip(SystemBits());
    forall b: nat | b < Total(fs.disk) ensures Bit(SystemBits(), b) <==> b < 2 || b in fs.owner { SystemBitsAre(b); }
    ZeroFolder();
  }

  lemma ZeroFolder()
    ensures forall i | 0 <= i < MAX_FILES :: !Used(Entries(ZeroBlock())[i])
  {
  }

  // ----- reading what was written -----

  /** A read of the range just written comes back with exactly the bytes written. */
  lemma ReadAfterWrite(fs: Fs, after: Fs, f: int, data: seq<byte>, offset: nat, n: nat, was: seq<byte>, now: seq<byte>)
    requires NodesOk(fs) && NodesOk(after) && WriteGives(fs, after, f, data, offset, n)
    requires ReadLength(after, f, n, offset) >= 0 && ReadGives(after, f, offset, ReadLength(after, f, n, offset), was, now)
    ensures ReadLength(after, f, n, offset) == n <= |now| && now[..n] == data[..n]
  {
    hide Tree, FreeBytes, Content, Entries;
    assert f in Files(after);
    assert |Files(after)[f]| == after.nodes[f].size;
  }
}
