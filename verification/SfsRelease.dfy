/** Closing a row of the open-file table, and giving back the blocks of an inode that nobody lists and
    nobody has open any more. */
module SfsRelease {
  import opened Sequences
  import opened Bitmap
  import opened Libc
  import opened BlockLayout
  import opened SfsPath
  import opened SfsState
  import opened SfsBlocks
  import opened SfsSteps

  /** Rows whose file lived in folder `c` forget their parent. */
  function Orphaned(slots: seq<Slot>, c: int): seq<Slot> {
    seq(|slots|, i requires 0 <= i < |slots| => if slots[i].parentid == c then slots[i].(parentid := -1) else slots[i])
  }

  function Without(owner: map<int, int>, bs: seq<int>): map<int, int> {
    map b | b in owner && b !in bs :: owner[b]
  }

  function HomesOutside(home: map<int, int>, c: int): map<int, int> {
    map x | x in home && home[x] != c :: home[x]
  }

  predicate Destroyable(fs: Fs, c: int) {
    |fs.disk| >= 3 && c in fs.nodes && Within(Owned(c, fs.nodes[c]), Words(fs.disk[ALLOCATION_BLOCK]))
  }

  /** `_delete`: the blocks of inode `c` become free and the inode ceases to exist. */
  function Destroyed(fs: Fs, c: int): Fs
    requires Destroyable(fs, c)
  {
    var node := fs.nodes[c];
    var bs := Owned(c, node);
    fs.(disk := fs.disk[ALLOCATION_BLOCK := BlockOfWords(Written(Words(fs.disk[ALLOCATION_BLOCK]), bs, false))],
        nodes := fs.nodes - {c},
        owner := Without(fs.owner, bs),
        home := if node.Folder? then HomesOutside(fs.home, c) else fs.home,
        slots := if node.Folder? then Orphaned(fs.slots, c) else fs.slots)
  }

  /** Nobody can reach the inode: no folder lists it and no row has it open. */
  ghost predicate Doomed(fs: Fs, c: int) {
    && Inv(fs) && c in fs.nodes && c != ROOT && c !in fs.home
    && forall i | 0 <= i < |fs.slots| :: fs.slots[i].fileid != c
  }

  lemma OwnedWithin(fs: Fs, c: int)
    requires Inv(fs) && c in fs.nodes
    ensures Destroyable(fs, c) && forall i | 0 <= i < |Owned(c, fs.nodes[c])| :: 2 <= Owned(c, fs.nodes[c])[i] < Total(fs.disk)
    ensures Distinct(Owned(c, fs.nodes[c]))
  {
    var bs := Owned(c, fs.nodes[c]);
    forall i | 0 <= i < |bs| ensures 2 <= bs[i] < Total(fs.disk) {
      assert bs[i] in bs;
    }
  }

  lemma DestroyedBits(fs: Fs, c: int)
    requires Inv(fs) && c in fs.nodes && Destroyable(fs, c)
    ensures BitsOk(Words(Destroyed(fs, c).disk[ALLOCATION_BLOCK]), Total(fs.disk), Destroyed(fs, c).owner)
  {
    hide Words, BlockOfWords, Written, NodesOk, FoldersOk, SlotsOk, OwnersOk, Owned, Bit;
    var words, bs := Words(fs.disk[ALLOCATION_BLOCK]), Owned(c, fs.nodes[c]);
    WordsRoundTrip(Written(words, bs, false));
    forall b: nat | b < Total(fs.disk)
      ensures Bit(Written(words, bs, false), b) <==> b < 2 || b in Destroyed(fs, c).owner
    {
      WrittenBit(words, bs, false, b);
      OwnedWithin(fs, c);
      assert b < 2 ==> b !in bs;
    }
  }

  lemma DestroyedOwners(nodes: map<int, Node>, owner: map<int, int>, c: int)
    requires OwnersOk(nodes, owner) && c in nodes
    ensures OwnersOk(nodes - {c}, Without(owner, Owned(c, nodes[c])))
  {
    hide Owned;
    var nodes', owner' := nodes - {c}, Without(owner, Owned(c, nodes[c]));
    forall f, b | f in nodes' && b in Owned(f, nodes'[f]) ensures b in owner' && owner'[b] == f {
      assert b in Owned(f, nodes[f]) && owner[b] == f;
    }
    forall b | b in owner' ensures owner'[b] in nodes' && b in Owned(owner'[b], nodes'[owner'[b]]) {
      assert owner[b] in nodes && b in Owned(owner[b], nodes[owner[b]]);
    }
  }

  lemma DestroyedFolders(fs: Fs, c: int)
    requires Doomed(fs, c) && Destroyable(fs, c)
    ensures NodesOk(Destroyed(fs, c)) && FoldersOk(Destroyed(fs, c))
  {
    hide BlockOfWords, Written, SlotsOk, OwnersOk, BitsOk, Entries, ValidName, NoRepeats, CString, Owned, Without;
    var after := Destroyed(fs, c);
    forall f | f in after.nodes && after.nodes[f].File? ensures FileOk(after.disk, f, after.nodes[f]) {
      assert FileOk(fs.disk, f, fs.nodes[f]);
    }
    forall f | f in after.nodes && after.nodes[f].Folder? ensures FolderOk(after, f) {
      assert FolderOk(fs, f);
    }
  }

  lemma DestroyedSlots(fs: Fs, c: int)
    requires Doomed(fs, c) && Destroyable(fs, c)
    ensures SlotsOk(Destroyed(fs, c))
  {
    hide BlockOfWords, Written, OwnersOk, BitsOk, Owned, Without, NodesOk;
    var after := Destroyed(fs, c);
    NodeNumber(fs, c);
    forall i | 0 <= i < |after.slots| ensures after.slots[i] == FREE_SLOT || SlotOk(after, after.slots[i]) {
      DestroyedSlot(fs, c, i);
    }
    forall x | x in after.handles ensures x != -1 && exists i :: 0 <= i < |after.slots| && after.slots[i].fileid == x {
      var i :| 0 <= i < |fs.slots| && fs.slots[i].fileid == x;
      assert after.slots[i].fileid == x;
    }
  }

  lemma DestroyedSlot(fs: Fs, c: int, i: int)
    requires Doomed(fs, c) && Destroyable(fs, c) && c >= 0 && 0 <= i < |fs.slots|
    ensures var after := Destroyed(fs, c); after.slots[i] == FREE_SLOT || SlotOk(after, after.slots[i])
  {
    hide BlockOfWords, Written, OwnersOk, BitsOk, Owned, Without, NodesOk;
    assert fs.slots[i] == FREE_SLOT || SlotOk(fs, fs.slots[i]);
    var s := fs.slots[i];
    HomeIsFolder(fs, s.fileid);
  }

  lemma HomeIsFolder(fs: Fs, x: int)
    requires NodesOk(fs) && FoldersOk(fs)
    ensures x in fs.home ==> fs.home[x] in fs.nodes && fs.nodes[fs.home[x]].Folder?
  {
  }

  /** Giving an unreachable inode back keeps the volume consistent. */
  lemma DestroyedKeeps(fs: Fs, c: int)
    requires Doomed(fs, c)
    ensures Destroyable(fs, c) && Inv(Destroyed(fs, c))
  {
    hide NodesOk, OwnersOk, BitsOk, FoldersOk, SlotsOk, Destroyed;
    OwnedWithin(fs, c);
    DestroyedParts(fs, c);
    DestroyedBits(fs, c);
    DestroyedFolders(fs, c);
    DestroyedSlots(fs, c);
    DestroyedOwners(fs.nodes, fs.owner, c);
  }

  lemma DestroyedParts(fs: Fs, c: int)
    requires Destroyable(fs, c)
    ensures var after := Destroyed(fs, c);
            && |after.disk| == |fs.disk| && Total(after.disk) == Total(fs.disk) && after.handles == fs.handles
            && after.nodes == fs.nodes - {c} && after.owner == Without(fs.owner, Owned(c, fs.nodes[c]))
  {
  }

  /** Exactly the blocks of the inode become free, exactly once. */
  lemma DestroyedFrees(fs: Fs, c: int)
    requires Doomed(fs, c) && Destroyable(fs, c)
    ensures FreeBytes(Destroyed(fs, c).disk) == FreeBytes(fs.disk) + 512 * |Owned(c, fs.nodes[c])|
  {
    hide Words, BlockOfWords, Written, NodesOk, FoldersOk, SlotsOk, Owned, Bit, ClearBits;
    var words, bs := Words(fs.disk[ALLOCATION_BLOCK]), Owned(c, fs.nodes[c]);
    WordsRoundTrip(Written(words, bs, false));
    OwnedWithin(fs, c);
    forall i | 0 <= i < |bs| ensures Bit(words, bs[i]) { assert bs[i] in bs; }
    WrittenCount(words, bs, false, Total(fs.disk));
  }

  lemma DestroyedView(fs: Fs, c: int)
    requires Doomed(fs, c) && Destroyable(fs, c) && NodesOk(Destroyed(fs, c))
    ensures Tree(Destroyed(fs, c)) == Tree(fs) - {c}
    ensures Files(Destroyed(fs, c)) == Files(fs) - {c}
  {
    hide Words, BlockOfWords, Written, FoldersOk, SlotsOk, OwnersOk, BitsOk, Entries, Content, Listing, Without;
    var after := Destroyed(fs, c);
    forall f | f in after.nodes && after.nodes[f].File? ensures Files(after)[f] == Files(fs)[f] {
      assert FileOk(fs.disk, f, fs.nodes[f]);
      SameContent(fs.disk, after.disk, fs.nodes[f]);
    }
  }

  // ----- closing -----

  /** Row `i` gives up one opening; when it was the last one, the row is reset. */
  function Shut(fs: Fs, i: int): Fs
    requires 0 <= i < |fs.slots|
  {
    var s := fs.slots[i];
    fs.(slots := fs.slots[i := if s.timesOpened == 1 then FREE_SLOT else s.(timesOpened := s.timesOpened - 1)],
        handles := fs.handles - multiset{s.fileid})
  }

  lemma ShutSlot(fs: Fs, i: int, j: int)
    requires SlotsOk(fs) && 0 <= i < |fs.slots| && fs.slots[i].fileid != -1 && 0 <= j < |fs.slots|
    ensures Shut(fs, i).slots[j] == FREE_SLOT || SlotOk(Shut(fs, i), Shut(fs, i).slots[j])
  {
    assert SlotOk(fs, fs.slots[i]);
    assert fs.slots[j] == FREE_SLOT || SlotOk(fs, fs.slots[j]);
    assert j < i || j > i || j == i;
  }

  lemma ShutSlots(fs: Fs, i: int)
    requires SlotsOk(fs) && 0 <= i < |fs.slots| && fs.slots[i].fileid != -1
    ensures SlotsOk(Shut(fs, i))
  {
    hide SlotOk;
    var after := Shut(fs, i);
    forall j | 0 <= j < |after.slots| ensures after.slots[j] == FREE_SLOT || SlotOk(after, after.slots[j]) {
      ShutSlot(fs, i, j);
    }
    LastRow(fs, i);
    forall x | x in after.handles ensures x != -1 && exists j :: 0 <= j < |after.slots| && after.slots[j].fileid == x {
      var j :| 0 <= j < |fs.slots| && fs.slots[j].fileid == x;
      assert after.slots[j].fileid == x;
    }
  }

  lemma LastRow(fs: Fs, i: int)
    requires SlotsOk(fs) && 0 <= i < |fs.slots| && fs.slots[i].fileid != -1
    ensures fs.handles[fs.slots[i].fileid] == fs.slots[i].timesOpened
  {
    assert SlotOk(fs, fs.slots[i]);
  }

  lemma ShutKeeps(fs: Fs, i: int)
    requires Inv(fs) && 0 <= i < |fs.slots| && fs.slots[i].fileid != -1
    ensures Inv(Shut(fs, i)) && fs.slots[i].fileid in fs.nodes && fs.slots[i].timesOpened >= 1
    ensures fs.slots[i].timesOpened == 1 && fs.slots[i].isDeleted ==> Doomed(Shut(fs, i), fs.slots[i].fileid)
    ensures Tree(Shut(fs, i)) == Tree(fs) && Files(Shut(fs, i)) == Files(fs)
  {
    hide NodesOk, OwnersOk, BitsOk, FoldersOk;
    ShutSlots(fs, i);
    SameFolders(fs, Shut(fs, i));
    assert SlotOk(fs, fs.slots[i]);
    var c, after := fs.slots[i].fileid, Shut(fs, i);
    forall j | 0 <= j < |after.slots| && fs.slots[i].timesOpened == 1 ensures after.slots[j].fileid != c {
      assert j < i || j > i || j == i;
    }
  }

  /** `sfs_exit` on closing: the last close of a deleted file destroys it. */
  function Closed(fs: Fs, i: int): Fs
    requires 0 <= i < |fs.slots|
    requires fs.slots[i].timesOpened == 1 && fs.slots[i].isDeleted ==> Destroyable(Shut(fs, i), fs.slots[i].fileid)
  {
    if fs.slots[i].timesOpened == 1 && fs.slots[i].isDeleted then Destroyed(Shut(fs, i), fs.slots[i].fileid)
    else Shut(fs, i)
  }

  predicate LastClose(fs: Fs, i: int)
    requires 0 <= i < |fs.slots|
  {
    fs.slots[i].timesOpened == 1 && fs.slots[i].isDeleted
  }

  /** Closing keeps the volume consistent; nothing a user sees changes unless this was the last close
      of a deleted file, and then exactly that file goes and exactly its blocks become free. */
  lemma ClosedKeeps(fs: Fs, i: int)
    requires Inv(fs) && 0 <= i < |fs.slots| && fs.slots[i].fileid != -1
    ensures LastClose(fs, i) ==> Destroyable(Shut(fs, i), fs.slots[i].fileid)
    ensures var c, after := fs.slots[i].fileid, Closed(fs, i);
            && Inv(after) && after.handles == fs.handles - multiset{c} && c in fs.nodes
            && Tree(after) == (if LastClose(fs, i) then Tree(fs) - {c} else Tree(fs))
            && Files(after) == (if LastClose(fs, i) then Files(fs) - {c} else Files(fs))
            && after.nodes == (if LastClose(fs, i) then fs.nodes - {c} else fs.nodes)
            && FreeBytes(after.disk) == FreeBytes(fs.disk) + if LastClose(fs, i) then 512 * |Owned(c, fs.nodes[c])| else 0
  {
    hide Inv, NodesOk, OwnersOk, BitsOk, FoldersOk, Tree, Files, FreeBytes, Destroyed, Owned;
    InvIsNodesOk(fs);
    ShutKeeps(fs, i);
    var c, shut := fs.slots[i].fileid, Shut(fs, i);
    if LastClose(fs, i) {
      DestroyedKeeps(shut, c);
      InvIsNodesOk(Destroyed(shut, c));
      DestroyedParts(shut, c);
      DestroyedView(shut, c);
      DestroyedFrees(shut, c);
    }
  }
}
