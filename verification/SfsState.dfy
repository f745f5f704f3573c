/** The state of a mounted Student Filesystem volume: the disk, the table of open files, and, as ghost
    bookkeeping, which inodes exist, who owns each block and which folder lists each inode. */
module SfsState {
  import opened Sequences
  import opened Bitmap
  import opened Libc
  import opened BlockLayout
  import opened SfsPath

  const ALLOCATION_BLOCK := 1
  const ROOT := 2
  const MAX_BLOCKS := 4096
  const BLOCKS_MAX := 127
  const MAX_OPEN := 32

  /** An inode that exists: a file with its data blocks, or a folder. */
  datatype Node = File(size: nat, blocks: seq<int>) | Folder

  /** One row of the open-file table. */
  datatype Slot = Slot(fileid: int, parentid: int, timesOpened: int, isFolder: bool, isDeleted: bool)

  const FREE_SLOT := Slot(-1, -1, 0, false, false)

  datatype Fs = Fs(
    disk: seq<Block>,
    slots: seq<Slot>,
    nodes: map<int, Node>,
    owner: map<int, int>,
    home: map<int, int>,
    handles: multiset<int>)

  function Total(disk: seq<Block>): nat { if |disk| < MAX_BLOCKS then |disk| else MAX_BLOCKS }

  // ----- inodes -----

  function BlocksFor(size: nat): nat { (size + 511) / 512 }

  /** The words of a file's inode block. */
  function InodeWords(size: nat, blocks: seq<int>): (ws: seq<int>)
    requires |blocks| <= BLOCKS_MAX
    ensures |ws| == BLOCK_WORDS
  {
    [size] + blocks + seq(BLOCKS_MAX - |blocks|, _ => 0)
  }

  ghost predicate FileOk(disk: seq<Block>, f: int, node: Node)
    requires node.File? && 0 <= f < |disk|
  {
    && |node.blocks| == BlocksFor(node.size) <= BLOCKS_MAX
    && Words(disk[f]) == InodeWords(node.size, node.blocks)
    && (forall i | 0 <= i < |node.blocks| :: 3 <= node.blocks[i] < Total(disk))
  }

  ghost predicate NodesOk(fs: Fs) {
    && |fs.disk| >= 3
    && ROOT in fs.nodes && fs.nodes[ROOT].Folder?
    && (forall f | f in fs.nodes :: 2 <= f < Total(fs.disk))
    && (forall f | f in fs.nodes && fs.nodes[f].File? :: FileOk(fs.disk, f, fs.nodes[f]))
  }

  // ----- ownership -----

  /** The blocks that belong to an inode: its own and, for a file, its data. */
  function Owned(f: int, node: Node): seq<int> { [f] + if node.File? then node.blocks else [] }

  /** `owner` says of every block that belongs to some inode to which one: so no block has two. */
  ghost predicate OwnersOk(nodes: map<int, Node>, owner: map<int, int>) {
    && (forall f, b | f in nodes && b in Owned(f, nodes[f]) :: b in owner && owner[b] == f)
    && (forall b | b in owner :: owner[b] in nodes && b in Owned(owner[b], nodes[owner[b]]))
    && (forall f | f in nodes :: Distinct(Owned(f, nodes[f])))
  }

  /** The allocation bitmap marks the system blocks and the owned blocks, and nothing else. */
  ghost predicate BitsOk(words: seq<word>, total: nat, owner: map<int, int>)
    requires Fits(words, total)
  {
    && (forall b: nat | b < total :: Bit(words, b) <==> b < 2 || b in owner)
    && (forall b | b in owner :: 2 <= b < total)
  }

  // ----- folders -----

  predicate Used(e: Entry) { e.inode > 0 }

  /** The contents of a folder: names to inodes, the first entry of a name deciding. */
  function Listing(es: seq<Entry>): map<seq<byte>, int> {
    if es == [] then map[]
    else if Used(es[0]) then Listing(es[1..])[CString(es[0].name) := es[0].inode]
    else Listing(es[1..])
  }

  ghost predicate EntryOk(fs: Fs, f: int, e: Entry) {
    && ValidName(CString(e.name))
    && e.inode in fs.nodes && e.inode in fs.home && fs.home[e.inode] == f
    && (FolderName(CString(e.name)) <==> fs.nodes[e.inode].Folder?)
  }

  /** No name and no inode occurs twice. */
  predicate NoRepeats(es: seq<Entry>) {
    forall i, j | 0 <= i < j < |es| && Used(es[i]) && Used(es[j]) ::
      es[i].inode != es[j].inode && CString(es[i].name) != CString(es[j].name)
  }

  ghost predicate FolderOk(fs: Fs, f: int)
    requires 0 <= f < |fs.disk|
  {
    var es := Entries(fs.disk[f]);
    NoRepeats(es) && forall i | 0 <= i < |es| && Used(es[i]) :: EntryOk(fs, f, es[i])
  }

  /** `home` gives for every listed inode the one folder that lists it. */
  ghost predicate FoldersOk(fs: Fs)
    requires NodesOk(fs)
  {
    && (forall f | f in fs.nodes && fs.nodes[f].Folder? :: FolderOk(fs, f))
    && (forall c | c in fs.home :: c in fs.nodes && c != ROOT && fs.home[c] in fs.nodes && fs.nodes[fs.home[c]].Folder?)
  }

  // ----- open files -----

  ghost predicate SlotOk(fs: Fs, s: Slot) {
    && s.fileid in fs.nodes && (s.isFolder <==> fs.nodes[s.fileid].Folder?)
    && s.timesOpened == fs.handles[s.fileid] >= 1
    && (if s.isDeleted then s.fileid !in fs.home && s.fileid != ROOT
        else s.parentid == if s.fileid in fs.home then fs.home[s.fileid] else -1)
  }

  /** One row per open inode, with its outstanding opens counted; rows marked deleted belong to inodes
      that no folder lists any more. */
  ghost predicate SlotsOk(fs: Fs) {
    && |fs.slots| == MAX_OPEN
    && (forall i | 0 <= i < |fs.slots| :: fs.slots[i] == FREE_SLOT || SlotOk(fs, fs.slots[i]))
    && (forall i, j | 0 <= i < j < |fs.slots| && fs.slots[i].fileid != -1 :: fs.slots[i].fileid != fs.slots[j].fileid)
    && (forall c | c in fs.handles :: c != -1 && exists i :: 0 <= i < |fs.slots| && fs.slots[i].fileid == c)
  }

  ghost predicate Inv(fs: Fs) {
    && NodesOk(fs)
    && OwnersOk(fs.nodes, fs.owner)
    && BitsOk(Words(fs.disk[ALLOCATION_BLOCK]), Total(fs.disk), fs.owner)
    && FoldersOk(fs)
    && SlotsOk(fs)
  }

  // ----- what a user sees -----

  /** The bytes of a file. */
  function Content(disk: seq<Block>, node: Node): (s: seq<byte>)
    requires node.File? && |node.blocks| == BlocksFor(node.size)
    requires forall i | 0 <= i < |node.blocks| :: 0 <= node.blocks[i] < |disk|
    ensures |s| == node.size
  {
    seq(node.size, k requires 0 <= k < node.size => disk[node.blocks[k / 512]][k % 512])
  }

  /** The directory tree: every folder with its listing. */
  ghost function Tree(fs: Fs): map<int, map<seq<byte>, int>>
    requires NodesOk(fs)
  {
    map f | f in fs.nodes && fs.nodes[f].Folder? :: Listing(Entries(fs.disk[f]))
  }

  /** Every file with its bytes. */
  ghost function Files(fs: Fs): map<int, seq<byte>>
    requires NodesOk(fs)
  {
    map f | f in fs.nodes && fs.nodes[f].File? ::
      assert FileOk(fs.disk, f, fs.nodes[f]); Content(fs.disk, fs.nodes[f])
  }

  /** `sfs_getfree`. */
  function FreeBytes(disk: seq<Block>): nat
    requires |disk| >= 3
  {
    512 * ClearBits(Words(disk[ALLOCATION_BLOCK]), Total(disk))
  }

  // ----- listings -----

  /** Where a name is listed. */
  lemma {:induction false} ListedAt(es: seq<Entry>, n: seq<byte>) returns (i: nat)
    requires n in Listing(es)
    ensures i < |es| && Used(es[i]) && CString(es[i].name) == n && es[i].inode == Listing(es)[n]
  {
    hide CString;
    if Used(es[0]) && CString(es[0].name) == n {
      i := 0;
    } else {
      i := ListedAt(es[1..], n);
      i := i + 1;
    }
  }

  lemma {:induction false} NotListed(es: seq<Entry>, n: seq<byte>)
    requires forall i | 0 <= i < |es| && Used(es[i]) :: CString(es[i].name) != n
    ensures n !in Listing(es)
  {
    hide CString;
    if es != [] { NotListed(es[1..], n); }
  }

  lemma {:induction false} ListedUnder(es: seq<Entry>, i: nat)
    requires NoRepeats(es) && i < |es| && Used(es[i])
    ensures CString(es[i].name) in Listing(es) && Listing(es)[CString(es[i].name)] == es[i].inode
  {
    if i > 0 { ListedUnder(es[1..], i - 1); }
  }

  lemma RestNoRepeats(es: seq<Entry>)
    requires NoRepeats(es) && es != []
    ensures NoRepeats(es[1..])
    ensures Used(es[0]) ==> CString(es[0].name) !in Listing(es[1..])
  {
    hide CString;
    if Used(es[0]) { NotListed(es[1..], CString(es[0].name)); }
  }

  /** Clearing an entry takes its name out of the listing. */
  lemma {:induction false} ListingCleared(es: seq<Entry>, i: nat, e: Entry)
    requires NoRepeats(es) && i < |es| && Used(es[i]) && !Used(e)
    ensures Listing(es[i := e]) == Listing(es) - {CString(es[i].name)}
  {
    hide CString, NoRepeats;
    RestNoRepeats(es);
    if i > 0 {
      ListingCleared(es[1..], i - 1, e);
      assert es[i := e][1..] == es[1..][i - 1 := e];
      if Used(es[0]) { NamesDiffer(es, 0, i); }
    } else {
      assert es[i := e][1..] == es[1..];
    }
  }

  lemma NamesDiffer(es: seq<Entry>, i: nat, j: nat)
    requires NoRepeats(es) && i < j < |es| && Used(es[i]) && Used(es[j])
    ensures CString(es[i].name) != CString(es[j].name)
  {
  }

  /** Filling a free entry puts its name into the listing. */
  lemma {:induction false} ListingFilled(es: seq<Entry>, i: nat, e: Entry)
    requires i < |es| && !Used(es[i]) && Used(e) && CString(e.name) !in Listing(es)
    ensures Listing(es[i := e]) == Listing(es)[CString(e.name) := e.inode]
  {
    hide CString;
    if i > 0 {
      ListingFilled(es[1..], i - 1, e);
      assert es[i := e][1..] == es[1..][i - 1 := e];
    } else {
      assert es[i := e][1..] == es[1..];
    }
  }
}
