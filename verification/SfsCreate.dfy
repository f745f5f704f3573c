/** Creating a file or a folder: the new state of the volume, and what it keeps. */
module SfsCreate {
  import opened Sequences
  import opened Bitmap
  import opened Libc
  import opened BlockLayout
  import opened SfsPath
  import opened SfsState
  import opened SfsTree
  import opened SfsBlocks
  import opened SfsSteps

  /** The disk after blocks `bs` have been zeroed in turn. */
  function Zeroed(disk: seq<Block>, bs: seq<int>): (r: seq<Block>)
    requires forall i | 0 <= i < |bs| :: 0 <= bs[i] < |disk|
    ensures |r| == |disk|
  {
    if bs == [] then disk else Zeroed(disk, bs[..|bs| - 1])[bs[|bs| - 1] := ZeroBlock()]
  }

  lemma {:induction false} ZeroedAt(disk: seq<Block>, bs: seq<int>, b: int)
    requires (forall i | 0 <= i < |bs| :: 0 <= bs[i] < |disk|) && 0 <= b < |disk|
    ensures Zeroed(disk, bs)[b] == if b in bs then ZeroBlock() else disk[b]
  {
    if bs != [] {
      var most, last := bs[..|bs| - 1], bs[|bs| - 1];
      assert bs == most + [last];
      ZeroedAt(disk, most, b);
    }
  }

  /** What is created where: entry `k` of folder `p` gets the name field `field`; `picks` are the inode
      block and, for a file, the data blocks behind it. */
  datatype Plan = Plan(p: int, k: nat, field: Name, picks: seq<int>, node: Node)

  /** The plan fits the disk. */
  predicate Placeable(fs: Fs, plan: Plan) {
    && |fs.disk| >= 3 && 2 <= plan.p < |fs.disk| && plan.k < MAX_FILES && plan.picks != []
    && (forall i | 0 <= i < |plan.picks| :: 3 <= plan.picks[i] < Total(fs.disk))
    && (if plan.node.File? then plan.node.blocks == plan.picks[1..] && |plan.node.blocks| == BlocksFor(plan.node.size) <= BLOCKS_MAX
        else |plan.picks| == 1)
  }

  /** The inode block of the new file as words. */
  function NewInode(node: Node): (ws: seq<word>)
    requires node.File? && |node.blocks| == BlocksFor(node.size) <= BLOCKS_MAX
    requires forall i | 0 <= i < |node.blocks| :: 0 <= node.blocks[i] < MAX_BLOCKS
    ensures ws == InodeWords(node.size, node.blocks)
  {
    InodeWords(node.size, node.blocks)
  }

  function NewFolderBlock(fs: Fs, plan: Plan): Block
    requires Placeable(fs, plan)
  {
    WithEntry(fs.disk[plan.p], plan.k, Entry(plan.picks[0], plan.field))
  }

  /** The disk with allocation block and parent folder written. */
  function ListedDisk(fs: Fs, plan: Plan): (d: seq<Block>)
    requires Placeable(fs, plan)
    ensures |d| == |fs.disk|
  {
    fs.disk[ALLOCATION_BLOCK := BlockOfWords(Written(Words(fs.disk[ALLOCATION_BLOCK]), plan.picks, true))]
      [plan.p := NewFolderBlock(fs, plan)]
  }

  function NewDisk(fs: Fs, plan: Plan): (d: seq<Block>)
    requires Placeable(fs, plan)
    ensures |d| == |fs.disk|
  {
    var listed := ListedDisk(fs, plan);
    if plan.node.File? then Zeroed(listed[plan.picks[0] := BlockOfWords(NewInode(plan.node))], plan.node.blocks)
    else listed[plan.picks[0] := EmptyDirectory(NewFolderBlock(fs, plan))]
  }

  function OwnedBy(bs: seq<int>, c: int): map<int, int> { map b | b in bs :: c }

  function Created(fs: Fs, plan: Plan): Fs
    requires Placeable(fs, plan)
  {
    var c := plan.picks[0];
    fs.(disk := NewDisk(fs, plan),
        nodes := fs.nodes[c := plan.node],
        owner := fs.owner + OwnedBy(plan.picks, c),
        home := fs.home[c := plan.p])
  }

  /** The plan is one that `sfs_create` can come to: a free entry, a new valid name, free blocks. */
  ghost predicate Sound(fs: Fs, plan: Plan) {
    && Inv(fs) && Placeable(fs, plan)
    && plan.p in fs.nodes && fs.nodes[plan.p].Folder?
    && !Used(Entries(fs.disk[plan.p])[plan.k])
    && ValidName(CString(plan.field)) && CString(plan.field) !in Listing(Entries(fs.disk[plan.p]))
    && (FolderName(CString(plan.field)) <==> plan.node.Folder?)
    && Distinct(plan.picks)
    && (forall i | 0 <= i < |plan.picks| :: plan.picks[i] !in fs.owner)
  }

  lemma PicksAreNew(fs: Fs, plan: Plan)
    requires Sound(fs, plan)
    ensures forall b | b in plan.picks :: b !in fs.owner && b !in fs.nodes && b != plan.p
    ensures plan.picks[0] in plan.picks && plan.picks[0] !in fs.home
    ensures Owned(plan.picks[0], plan.node) == plan.picks
  {
    hide Inv, Listing, Entries, ValidName, CString;
    NodesAreOwned(fs);
  }

  lemma NodesAreOwned(fs: Fs)
    requires Inv(fs)
    ensures forall x | x in fs.home :: x in fs.nodes
    ensures forall x | x in fs.nodes :: x in fs.owner
  {
    hide NodesOk, BitsOk, SlotsOk;
    forall f | f in fs.nodes ensures f in fs.owner { assert f in Owned(f, fs.nodes[f]); }
  }

  lemma PicksAreSplit(fs: Fs, plan: Plan)
    requires Sound(fs, plan) && Placeable(fs, plan)
    ensures plan.p !in plan.picks && ALLOCATION_BLOCK !in plan.picks
    ensures plan.node.File? ==> plan.picks[0] !in plan.node.blocks && plan.picks == [plan.picks[0]] + plan.node.blocks
  {
    hide Inv, Listing, Entries, ValidName, NoRepeats, Words, CString;
    PicksAreNew(fs, plan);
    if plan.node.File? { assert plan.picks == [plan.picks[0]] + plan.node.blocks; }
  }

  lemma NewDiskBlock(fs: Fs, plan: Plan, b: int)
    requires Sound(fs, plan) && Placeable(fs, plan) && 0 <= b < |fs.disk|
    ensures NewDisk(fs, plan)[b]
            == if b == plan.picks[0] then
                 (if plan.node.File? then BlockOfWords(NewInode(plan.node)) else EmptyDirectory(NewFolderBlock(fs, plan)))
               else if plan.node.File? && b in plan.node.blocks then ZeroBlock()
               else ListedDisk(fs, plan)[b]
  {
    hide Sound, Words, BlockOfWords, Written, NewInode, EmptyDirectory, NewFolderBlock, Zeroed, ZeroBlock;
    PicksAreSplit(fs, plan);
    if plan.node.File? {
      ZeroedAt(ListedDisk(fs, plan)[plan.picks[0] := BlockOfWords(NewInode(plan.node))], plan.node.blocks, b);
    }
  }

  /** Where the new disk differs from the old one. */
  lemma NewDiskAt(fs: Fs, plan: Plan, b: int)
    requires Sound(fs, plan) && Placeable(fs, plan) && 0 <= b < |fs.disk|
    ensures b != ALLOCATION_BLOCK && b != plan.p && b !in plan.picks ==> NewDisk(fs, plan)[b] == fs.disk[b]
    ensures b == ALLOCATION_BLOCK ==>
              Words(NewDisk(fs, plan)[b]) == Written(Words(fs.disk[ALLOCATION_BLOCK]), plan.picks, true)
    ensures b == plan.p ==> NewDisk(fs, plan)[b] == NewFolderBlock(fs, plan)
    ensures b == plan.picks[0] && plan.node.Folder? ==> NewDisk(fs, plan)[b] == EmptyDirectory(NewFolderBlock(fs, plan))
    ensures b == plan.picks[0] && plan.node.File? ==> Words(NewDisk(fs, plan)[b]) == InodeWords(plan.node.size, plan.node.blocks)
    ensures plan.node.File? && b in plan.node.blocks ==> NewDisk(fs, plan)[b] == ZeroBlock()
  {
    hide Sound, NewDisk, Words, BlockOfWords, Written, EmptyDirectory, NewFolderBlock, InodeWords, ZeroBlock;
    PicksAreSplit(fs, plan);
    NewDiskBlock(fs, plan, b);
    WordsRoundTrip(Written(Words(fs.disk[ALLOCATION_BLOCK]), plan.picks, true));
    if plan.node.File? { WordsRoundTrip(NewInode(plan.node)); }
  }

  lemma CreatedFile(fs: Fs, plan: Plan, f: int)
    requires Sound(fs, plan) && f in Created(fs, plan).nodes && Created(fs, plan).nodes[f].File?
    ensures 2 <= f < Total(fs.disk) && FileOk(NewDisk(fs, plan), f, Created(fs, plan).nodes[f])
  {
    hide OwnersOk, BitsOk, FoldersOk, SlotsOk, Listing, Entries, ValidName, CString, NewDisk, Words, InodeWords, Owned;
    PicksAreNew(fs, plan);
    if f == plan.picks[0] {
      NewDiskAt(fs, plan, f);
    } else {
      assert FileOk(fs.disk, f, fs.nodes[f]);
      NewDiskAt(fs, plan, f);
    }
  }

  lemma NodesRange(fs: Fs)
    requires Inv(fs)
    ensures ROOT in fs.nodes && fs.nodes[ROOT].Folder? && forall f | f in fs.nodes :: 2 <= f < Total(fs.disk)
  {
  }

  lemma CreatedShape(fs: Fs, plan: Plan)
    requires Sound(fs, plan)
    ensures var c, after := plan.picks[0], Created(fs, plan);
            Inv(fs) && 3 <= c < Total(fs.disk) && |after.disk| == |fs.disk| >= 3 && after.nodes == fs.nodes[c := plan.node]
  {
  }

  lemma CreatedNodes(fs: Fs, plan: Plan)
    requires Sound(fs, plan) && Placeable(fs, plan)
    ensures NodesOk(Created(fs, plan))
  {
    hide Inv, Sound, Created, FileOk;
    var after := Created(fs, plan);
    CreatedShape(fs, plan);
    NodesRange(fs);
    forall f | f in after.nodes && after.nodes[f].File? ensures 0 <= f < |after.disk| && FileOk(after.disk, f, after.nodes[f]) {
      CreatedFile(fs, plan, f);
      CreatedDisk(fs, plan);
    }
  }

  lemma CreatedDisk(fs: Fs, plan: Plan)
    requires Placeable(fs, plan)
    ensures Created(fs, plan).disk == NewDisk(fs, plan)
  {
  }

  lemma CreatedOwners(fs: Fs, plan: Plan)
    requires Sound(fs, plan)
    ensures OwnersOk(Created(fs, plan).nodes, Created(fs, plan).owner)
  {
    hide Inv, Listing, Entries, ValidName, CString, NewDisk, Owned, Placeable;
    PicksAreNew(fs, plan);
    OwnersGrow(fs.nodes, fs.owner, plan.picks[0], plan.node, plan.picks) by { OwnersAre(fs); }
  }

  lemma OwnersAre(fs: Fs)
    requires Inv(fs)
    ensures OwnersOk(fs.nodes, fs.owner)
  {
  }

  lemma OwnersGrow(nodes: map<int, Node>, owner: map<int, int>, c: int, node: Node, picks: seq<int>)
    requires OwnersOk(nodes, owner) && Owned(c, node) == picks && Distinct(picks) && c !in nodes
    requires forall b | b in picks :: b !in owner
    ensures OwnersOk(nodes[c := node], owner + OwnedBy(picks, c))
  {
    hide Owned;
    var nodes', owner' := nodes[c := node], owner + OwnedBy(picks, c);
    forall b | b in owner' ensures owner'[b] in nodes' && b in Owned(owner'[b], nodes'[owner'[b]]) {
      if b !in picks { assert owner[b] in nodes; }
    }
  }

  lemma CreatedBits(fs: Fs, plan: Plan)
    requires Sound(fs, plan)
    ensures BitsOk(Words(Created(fs, plan).disk[ALLOCATION_BLOCK]), Total(fs.disk), Created(fs, plan).owner)
  {
    hide Listing, Entries, ValidName, CString, NewDisk, Owned, NodesOk, FoldersOk, SlotsOk, OwnersOk, Written, Bit, Words;
    NewDiskAt(fs, plan, ALLOCATION_BLOCK);
    var words := Words(fs.disk[ALLOCATION_BLOCK]);
    forall b: nat | b < Total(fs.disk)
      ensures Bit(Written(words, plan.picks, true), b) <==> b < 2 || b in Created(fs, plan).owner
    {
      WrittenBit(words, plan.picks, true, b);
    }
  }

  lemma CreatedSlots(fs: Fs, plan: Plan)
    requires Sound(fs, plan)
    ensures SlotsOk(Created(fs, plan))
  {
    hide Listing, Entries, ValidName, CString, NewDisk, NodesOk, FoldersOk, OwnersOk, BitsOk, Owned, Placeable;
    PicksAreNew(fs, plan);
    var after := Created(fs, plan);
    forall i | 0 <= i < |after.slots| ensures after.slots[i] == FREE_SLOT || SlotOk(after, after.slots[i]) {
      assert fs.slots[i] == FREE_SLOT || SlotOk(fs, fs.slots[i]);
    }
    forall x | x in after.handles ensures x != -1 && exists i :: 0 <= i < |after.slots| && after.slots[i].fileid == x {
      var i :| 0 <= i < |fs.slots| && fs.slots[i].fileid == x;
      assert after.slots[i].fileid == x;
    }
  }

  lemma CreatedParent(fs: Fs, plan: Plan)
    requires Sound(fs, plan)
    ensures Entries(NewDisk(fs, plan)[plan.p]) == Entries(fs.disk[plan.p])[plan.k := Entry(plan.picks[0], plan.field)]
  {
    hide Inv, Listing, ValidName, CString, NewDisk, Entries, WithEntry;
    NewDiskAt(fs, plan, plan.p);
    EntriesOfWithEntry(fs.disk[plan.p], plan.k, Entry(plan.picks[0], plan.field));
  }

  lemma FilledNoRepeats(es: seq<Entry>, k: nat, e: Entry)
    requires NoRepeats(es) && k < |es| && CString(e.name) !in Listing(es)
    requires forall i | 0 <= i < |es| && Used(es[i]) :: es[i].inode != e.inode
    ensures NoRepeats(es[k := e])
  {
    hide CString, Listing;
    forall i | 0 <= i < |es| && Used(es[i]) ensures CString(es[i].name) != CString(e.name) {
      ListedUnder(es, i);
    }
  }

  lemma CreatedParentOk(fs: Fs, plan: Plan)
    requires Sound(fs, plan)
    ensures FolderOk(Created(fs, plan), plan.p)
  {
    hide NodesOk, OwnersOk, BitsOk, SlotsOk, Listing, ValidName, CString, NewDisk, Entries, Owned, NoRepeats;
    var es, e := Entries(fs.disk[plan.p]), Entry(plan.picks[0], plan.field);
    CreatedParent(fs, plan);
    PicksAreNew(fs, plan);
    EntriesAre(fs, plan.p);
    FilledNoRepeats(es, plan.k, e);
  }

  lemma CreatedFolderOk(fs: Fs, plan: Plan, f: int)
    requires Sound(fs, plan) && f in Created(fs, plan).nodes && Created(fs, plan).nodes[f].Folder?
    ensures 0 <= f < |fs.disk| && FolderOk(Created(fs, plan), f)
  {
    hide OwnersOk, BitsOk, SlotsOk, Listing, ValidName, CString, NewDisk, Entries, Owned, NoRepeats;
    var after := Created(fs, plan);
    PicksAreNew(fs, plan);
    if f == plan.p {
      CreatedParentOk(fs, plan);
    } else {
      NewDiskAt(fs, plan, f);
      if f == plan.picks[0] {
        EmptyIsOk(after, f, NewFolderBlock(fs, plan));
      } else {
        assert FolderOk(fs, f);
      }
    }
  }

  lemma EmptyIsOk(fs: Fs, f: int, b: Block)
    requires 0 <= f < |fs.disk| && fs.disk[f] == EmptyDirectory(b)
    ensures FolderOk(fs, f)
  {
    EmptyDirectoryEntries(b);
  }

  /** Creating keeps the volume consistent. */
  lemma CreatedKeeps(fs: Fs, plan: Plan)
    requires Sound(fs, plan)
    ensures Inv(Created(fs, plan))
  {
    hide NodesOk, OwnersOk, BitsOk, SlotsOk, FolderOk, Listing, ValidName, CString, NewDisk, Entries;
    var after := Created(fs, plan);
    CreatedNodes(fs, plan);
    CreatedOwners(fs, plan);
    CreatedBits(fs, plan);
    CreatedSlots(fs, plan);
    NodesAreOwned(fs);
    forall f | f in after.nodes && after.nodes[f].Folder? ensures 0 <= f < |after.disk| && FolderOk(after, f) {
      CreatedFolderOk(fs, plan, f);
    }
  }

  // ----- what a user sees of it -----

  function Zeros(n: nat): seq<byte> { seq(n, _ => 0) }

  lemma NewFileIsZero(fs: Fs, plan: Plan)
    requires Sound(fs, plan) && plan.node.File? && NodesOk(Created(fs, plan))
    ensures Files(Created(fs, plan))[plan.picks[0]] == Zeros(plan.node.size)
  {
    hide Inv, Listing, Entries, ValidName, CString, NewDisk, Words, InodeWords;
    var node, disk := plan.node, NewDisk(fs, plan);
    CreatedFile(fs, plan, plan.picks[0]);
    forall i | 0 <= i < |node.blocks| ensures disk[node.blocks[i]] == ZeroBlock() {
      NewDiskAt(fs, plan, node.blocks[i]);
    }
  }

  lemma OldFilesStay(fs: Fs, plan: Plan, f: int)
    requires Sound(fs, plan) && NodesOk(Created(fs, plan)) && f in Files(fs)
    ensures f in Files(Created(fs, plan)) && Files(Created(fs, plan))[f] == Files(fs)[f]
  {
    hide OwnersOk, BitsOk, FoldersOk, SlotsOk, Listing, Entries, ValidName, CString, NewDisk, Words, InodeWords, Content, Owned;
    var node, disk := fs.nodes[f], NewDisk(fs, plan);
    PicksAreNew(fs, plan);
    assert FileOk(fs.disk, f, node);
    InodeIsNoData(fs, plan.p, f);
    forall i | 0 <= i < |node.blocks| ensures disk[node.blocks[i]] == fs.disk[node.blocks[i]] {
      DataIsOwned(fs, f, i);
      NewDiskAt(fs, plan, node.blocks[i]);
    }
    SameContent(fs.disk, disk, node);
  }

  lemma DataIsOwned(fs: Fs, f: int, i: nat)
    requires OwnersOk(fs.nodes, fs.owner) && f in fs.nodes && fs.nodes[f].File? && i < |fs.nodes[f].blocks|
    ensures fs.nodes[f].blocks[i] in fs.owner && fs.owner[fs.nodes[f].blocks[i]] == f
  {
    assert Owned(f, fs.nodes[f])[i + 1] == fs.nodes[f].blocks[i];
    assert fs.nodes[f].blocks[i] in Owned(f, fs.nodes[f]);
  }

  lemma CreatedFiles(fs: Fs, plan: Plan)
    requires Sound(fs, plan) && NodesOk(Created(fs, plan))
    ensures Files(Created(fs, plan)) == if plan.node.File? then Files(fs)[plan.picks[0] := Zeros(plan.node.size)] else Files(fs)
  {
    hide Inv, Listing, Entries, ValidName, CString, NewDisk, Content, FileOk, Placeable;
    InvIsNodesOk(fs);
    if plan.node.File? { NewFileIsZero(fs, plan); }
    PicksAreNew(fs, plan);
    forall f | f in Files(fs) ensures f in Files(Created(fs, plan)) && Files(Created(fs, plan))[f] == Files(fs)[f] {
      OldFilesStay(fs, plan, f);
    }
  }

  /** Empty directories list nothing. */
  lemma {:induction false} NothingListed(es: seq<Entry>)
    requires forall i | 0 <= i < |es| :: !Used(es[i])
    ensures Listing(es) == map[]
  {
    if es != [] { NothingListed(es[1..]); }
  }

  lemma CreatedListing(fs: Fs, plan: Plan, f: int)
    requires Sound(fs, plan) && NodesOk(Created(fs, plan)) && f in Tree(Created(fs, plan))
    ensures Tree(Created(fs, plan))[f]
            == if f == plan.p then Listing(Entries(fs.disk[plan.p]))[CString(plan.field) := plan.picks[0]]
               else if f == plan.picks[0] then map[]
               else if f in Tree(fs) then Tree(fs)[f] else map[]
  {
    hide OwnersOk, BitsOk, FoldersOk, SlotsOk, Listing, Entries, ValidName, CString, NewDisk, Owned, FileOk;
    PicksAreNew(fs, plan);
    NewDiskAt(fs, plan, f);
    if f == plan.p {
      CreatedParent(fs, plan);
      ListingFilled(Entries(fs.disk[f]), plan.k, Entry(plan.picks[0], plan.field));
    } else if f == plan.picks[0] {
      EmptyDirectoryEntries(NewFolderBlock(fs, plan));
      NothingListed(Entries(EmptyDirectory(NewFolderBlock(fs, plan))));
    }
  }

  lemma CreatedKeys(fs: Fs, plan: Plan)
    requires Sound(fs, plan) && Placeable(fs, plan) && NodesOk(Created(fs, plan))
    ensures NodesOk(fs) && plan.p in Tree(fs) && plan.picks[0] !in Tree(fs) && plan.picks[0] !in fs.home
    ensures plan.picks[0] != ROOT && plan.picks[0] != plan.p
    ensures Tree(fs)[plan.p] == Listing(Entries(fs.disk[plan.p])) && CString(plan.field) !in Tree(fs)[plan.p]
    ensures forall f :: f in Tree(Created(fs, plan)) <==> f in Tree(fs) || (plan.node.Folder? && f == plan.picks[0])
  {
    hide Tree, Inv, Listing, Entries, ValidName, CString, Created, NodesOk, Placeable;
    InvIsNodesOk(fs);
    CreatedShape(fs, plan);
    PicksAreNew(fs, plan);
    TreeKeys(fs);
    TreeKeys(Created(fs, plan));
  }

  lemma TreeKeys(fs: Fs)
    requires NodesOk(fs)
    ensures forall f :: f in Tree(fs) <==> f in fs.nodes && fs.nodes[f].Folder?
    ensures forall f | f in Tree(fs) :: Tree(fs)[f] == Listing(Entries(fs.disk[f]))
  {
  }

  /** The tree gains exactly one name; a new folder is empty. */
  lemma CreatedTree(fs: Fs, plan: Plan)
    requires Sound(fs, plan) && Placeable(fs, plan) && NodesOk(Created(fs, plan))
    ensures NodesOk(fs) && plan.p in Tree(fs) && plan.picks[0] !in fs.home
    ensures Added(Tree(fs), Tree(Created(fs, plan)), plan.p, CString(plan.field), plan.picks[0])
  {
    hide Tree, Created, NodesOk, CString, Listing, Inv, Entries, ValidName;
    CreatedKeys(fs, plan);
    var tree, after := Tree(fs), Tree(Created(fs, plan));
    forall f | f in after
      ensures after[f] == if f == plan.p then tree[plan.p][CString(plan.field) := plan.picks[0]]
                          else if f == plan.picks[0] then map[] else if f in tree then tree[f] else map[]
    {
      CreatedListing(fs, plan, f);
    }
  }

  /** Exactly the blocks of the plan are taken. */
  lemma CreatedTakes(fs: Fs, plan: Plan)
    requires Sound(fs, plan)
    ensures FreeBytes(Created(fs, plan).disk) == FreeBytes(fs.disk) - 512 * |plan.picks|
  {
    hide Listing, Entries, ValidName, CString, NewDisk, NodesOk, FoldersOk, SlotsOk, OwnersOk, Written, Words, Bit, ClearBits;
    NewDiskAt(fs, plan, ALLOCATION_BLOCK);
    WrittenCount(Words(fs.disk[ALLOCATION_BLOCK]), plan.picks, true, Total(fs.disk));
  }
}
