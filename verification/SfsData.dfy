/** The bytes of a file against its blocks: where a byte lies, what storing one block changes, and that
    writing data disturbs nothing else on the volume. */
module SfsData {
  import opened Sequences
  import opened Bitmap
  import opened Libc
  import opened BlockLayout
  import opened SfsPath
  import opened SfsState
  import opened SfsSteps
  import opened SfsCreate
  import opened SfsEffects

  /** Block-wise layout of a file: its data blocks are different and on the disk. */
  predicate LaidOut(disk: seq<Block>, node: Node) {
    && node.File? && |node.blocks| == BlocksFor(node.size) && Distinct(node.blocks)
    && forall i | 0 <= i < |node.blocks| :: 0 <= node.blocks[i] < |disk|
  }

  /** The byte at position `k`. */
  lemma ByteAt(disk: seq<Block>, node: Node, k: int)
    requires LaidOut(disk, node) && 0 <= k < node.size
    ensures 0 <= k / 512 < |node.blocks| && Content(disk, node)[k] == disk[node.blocks[k / 512]][k % 512]
  {
  }

  /** A run of bytes inside one block is the same run of the file. */
  lemma RunInBlock(disk: seq<Block>, node: Node, b: nat, from: nat, n: nat)
    requires LaidOut(disk, node) && b < |node.blocks| && from + n <= 512 && 512 * b + from + n <= node.size
    ensures disk[node.blocks[b]][from..from + n] == Content(disk, node)[512 * b + from..512 * b + from + n]
  {
    var here := disk[node.blocks[b]][from..from + n];
    var there := Content(disk, node)[512 * b + from..512 * b + from + n];
    forall j | 0 <= j < n ensures here[j] == there[j] {
      DivMod(b, from + j);
      ByteAt(disk, node, 512 * b + from + j);
    }
  }

  lemma DivMod(b: nat, r: nat)
    requires r < 512
    ensures (512 * b + r) / 512 == b && (512 * b + r) % 512 == r
  {
  }

  /** Storing a run over one block stores the same run over the file. */
  lemma StoreInBlock(disk: seq<Block>, node: Node, b: nat, from: nat, data: seq<byte>)
    requires LaidOut(disk, node) && b < |node.blocks| && from + |data| <= 512 && 512 * b + from + |data| <= node.size
    ensures LaidOut(disk[node.blocks[b] := Overwritten(disk[node.blocks[b]], from, data)], node)
    ensures Content(disk[node.blocks[b] := Overwritten(disk[node.blocks[b]], from, data)], node)
            == Overwritten(Content(disk, node), 512 * b + from, data)
  {
    hide Content;
    var block := Overwritten(disk[node.blocks[b]], from, data);
    var after := disk[node.blocks[b] := block];
    assert LaidOut(after, node);
    forall k | 0 <= k < node.size
      ensures Content(after, node)[k] == Overwritten(Content(disk, node), 512 * b + from, data)[k]
    {
      StoredByte(disk, node, b, from, data, k);
    }
  }

  lemma StoredByte(disk: seq<Block>, node: Node, b: nat, from: nat, data: seq<byte>, k: nat)
    requires LaidOut(disk, node) && b < |node.blocks| && from + |data| <= 512 && 512 * b + from + |data| <= node.size && k < node.size
    requires LaidOut(disk[node.blocks[b] := Overwritten(disk[node.blocks[b]], from, data)], node)
    ensures Content(disk[node.blocks[b] := Overwritten(disk[node.blocks[b]], from, data)], node)[k]
            == Overwritten(Content(disk, node), 512 * b + from, data)[k]
  {
    hide Content;
    var after := disk[node.blocks[b] := Overwritten(disk[node.blocks[b]], from, data)];
    ByteAt(disk, node, k);
    ByteAt(after, node, k);
    var i := k / 512;
    assert i < b || i > b || i == b;
  }

  // ----- writing data keeps the volume -----

  /** The disks differ at most in data blocks of file `f`. */
  ghost predicate OnlyData(fs: Fs, disk: seq<Block>, f: int) {
    && f in fs.nodes && fs.nodes[f].File? && |disk| == |fs.disk|
    && forall b | 0 <= b < |disk| && b !in fs.nodes[f].blocks :: disk[b] == fs.disk[b]
  }

  lemma FileLaidOut(fs: Fs, f: int)
    requires Inv(fs) && f in fs.nodes && fs.nodes[f].File?
    ensures 2 <= f < Total(fs.disk) && FileOk(fs.disk, f, fs.nodes[f]) && LaidOut(fs.disk, fs.nodes[f])
    ensures forall i | 0 <= i < |fs.nodes[f].blocks| :: fs.nodes[f].blocks[i] !in fs.nodes && 3 <= fs.nodes[f].blocks[i]
  {
    hide BitsOk, FoldersOk, SlotsOk, Words, InodeWords;
    var bs := Owned(f, fs.nodes[f]);
    assert Distinct(bs);
    forall i, j | 0 <= i < j < |fs.nodes[f].blocks| ensures fs.nodes[f].blocks[i] != fs.nodes[f].blocks[j] {
      assert bs[i + 1] == fs.nodes[f].blocks[i] && bs[j + 1] == fs.nodes[f].blocks[j];
    }
    forall i | 0 <= i < |fs.nodes[f].blocks| ensures fs.nodes[f].blocks[i] !in fs.nodes {
      var b := fs.nodes[f].blocks[i];
      if b in fs.nodes { InodeIsNoData(fs, b, f); }
    }
  }

  /** So inodes and the allocation block are untouched. */
  lemma OnlyDataSpares(fs: Fs, disk: seq<Block>, f: int, b: int)
    requires Inv(fs) && OnlyData(fs, disk, f) && (b == ALLOCATION_BLOCK || b in fs.nodes)
    ensures 0 <= b < |disk| && disk[b] == fs.disk[b]
  {
    hide BitsOk, FoldersOk, SlotsOk, OwnersOk, FileOk;
    FileLaidOut(fs, f);
  }

  lemma OnlyDataInv(fs: Fs, disk: seq<Block>, f: int)
    requires Inv(fs) && OnlyData(fs, disk, f)
    ensures Inv(fs.(disk := disk))
  {
    hide BitsOk, OwnersOk, Words, InodeWords, Entries, ValidName, CString, NoRepeats;
    var after := fs.(disk := disk);
    OnlyDataSpares(fs, disk, f, ALLOCATION_BLOCK);
    forall g | g in fs.nodes ensures 0 <= g < |disk| && disk[g] == fs.disk[g] { OnlyDataSpares(fs, disk, f, g); }
    forall g | g in after.nodes && after.nodes[g].File? ensures FileOk(after.disk, g, after.nodes[g]) {
      assert FileOk(fs.disk, g, fs.nodes[g]);
    }
    forall g | g in after.nodes && after.nodes[g].Folder? ensures FolderOk(after, g) { assert FolderOk(fs, g); }
    forall i | 0 <= i < |after.slots| ensures after.slots[i] == FREE_SLOT || SlotOk(after, after.slots[i]) {
      assert fs.slots[i] == FREE_SLOT || SlotOk(fs, fs.slots[i]);
    }
  }

  lemma OtherFilesStay(fs: Fs, disk: seq<Block>, f: int, g: int)
    requires Inv(fs) && OnlyData(fs, disk, f) && g in fs.nodes && fs.nodes[g].File? && g != f
    ensures LaidOut(fs.disk, fs.nodes[g]) && LaidOut(disk, fs.nodes[g])
    ensures Content(disk, fs.nodes[g]) == Content(fs.disk, fs.nodes[g])
  {
    hide BitsOk, FoldersOk, SlotsOk, NodesOk, Content;
    FileLaidOut(fs, g);
    forall i | 0 <= i < |fs.nodes[g].blocks| ensures disk[fs.nodes[g].blocks[i]] == fs.disk[fs.nodes[g].blocks[i]] {
      NotShared(fs, f, g, i);
    }
    SameContent(fs.disk, disk, fs.nodes[g]);
  }

  /** No block has two owners. */
  lemma NotShared(fs: Fs, f: int, g: int, i: nat)
    requires OwnersOk(fs.nodes, fs.owner) && f in fs.nodes && g in fs.nodes && f != g
    requires fs.nodes[f].File? && fs.nodes[g].File? && i < |fs.nodes[g].blocks|
    ensures fs.nodes[g].blocks[i] !in fs.nodes[f].blocks
  {
    DataIsOwned(fs, g, i);
    forall j | 0 <= j < |fs.nodes[f].blocks| ensures fs.nodes[f].blocks[j] != fs.nodes[g].blocks[i] {
      DataIsOwned(fs, f, j);
    }
  }

  /** Writing data of one file changes that file's bytes and nothing else that a user sees. */
  lemma OnlyDataView(fs: Fs, disk: seq<Block>, f: int)
    requires Inv(fs) && OnlyData(fs, disk, f)
    ensures var after := fs.(disk := disk);
            && Inv(after) && NodesOk(fs) && NodesOk(after) && LaidOut(disk, fs.nodes[f])
            && Tree(after) == Tree(fs) && Files(after) == Files(fs)[f := Content(disk, fs.nodes[f])]
            && FreeBytes(disk) == FreeBytes(fs.disk)
  {
    hide BitsOk, FoldersOk, SlotsOk, OwnersOk, Words, Entries, Listing, Content, FileOk, LaidOut;
    var after := fs.(disk := disk);
    OnlyDataInv(fs, disk, f);
    OnlyDataLaidOut(fs, disk, f);
    OnlyDataSpares(fs, disk, f, ALLOCATION_BLOCK);
    forall g | g in fs.nodes ensures 0 <= g < |disk| && disk[g] == fs.disk[g] { OnlyDataSpares(fs, disk, f, g); }
    forall g | g in fs.nodes && fs.nodes[g].File? && g != f ensures Files(after)[g] == Files(fs)[g] {
      OtherFilesStay(fs, disk, f, g);
    }
  }

  lemma OnlyDataLaidOut(fs: Fs, disk: seq<Block>, f: int)
    requires Inv(fs) && OnlyData(fs, disk, f)
    ensures LaidOut(disk, fs.nodes[f])
  {
    FileLaidOut(fs, f);
  }

  // ----- block ranges -----

  /** The blocks that hold bytes `offset` to `offset + n`. */
  lemma BlockRange(size: nat, offset: nat, n: nat)
    requires 0 < n && offset + n <= size
    ensures var b1, b2, from := offset / 512, (offset + n - 1) / 512, offset % 512;
            && 0 <= b1 <= b2 < BlocksFor(size) && offset == 512 * b1 + from
            && 512 * b2 < offset + n <= 512 * b2 + 512
            && (b1 == b2 <==> n <= 512 - from)
  {
  }

  /** The buffer holds the first `read` bytes asked for, and beyond them what it held before. */
  predicate Filled(buffer: seq<byte>, content: seq<byte>, was: seq<byte>, offset: nat, read: nat) {
    offset + read <= |content| && read <= |was| && buffer == content[offset..offset + read] + was[read..]
  }

  lemma NothingFilled(content: seq<byte>, was: seq<byte>, offset: nat)
    requires offset <= |content|
    ensures Filled(was, content, was, offset, 0)
  {
  }

  /** A buffer that holds the first `read` bytes takes the next `len`. */
  lemma BufferGrows(content: seq<byte>, was: seq<byte>, offset: nat, read: nat, len: nat)
    requires offset + read + len <= |content| && read + len <= |was|
    ensures Overwritten(content[offset..offset + read] + was[read..], read, content[offset + read..offset + read + len])
            == content[offset..offset + read + len] + was[read + len..]
  {
  }

  /** A file that has taken the first `written` bytes of the data takes the next `len`. */
  lemma FileGrows(content: seq<byte>, data: seq<byte>, offset: nat, written: nat, len: nat)
    requires offset + written + len <= |content| && written + len <= |data|
    ensures Overwritten(Overwritten(content, offset, data[..written]), offset + written, data[written..written + len])
            == Overwritten(content, offset, data[..written + len])
  {
    assert data[..written] + data[written..written + len] == data[..written + len];
  }

  // ----- what reading a folder gives -----

  function NameText(e: Entry): seq<byte> { if Used(e) then CString(e.name) + [0] else [] }

  /** The names of a folder, one after the other, each with its NUL. */
  function NameBytes(es: seq<Entry>): seq<byte> {
    if es == [] then [] else NameText(es[0]) + NameBytes(es[1..])
  }

  lemma {:induction false} NameBytesSnoc(es: seq<Entry>, e: Entry)
    ensures NameBytes(es + [e]) == NameBytes(es) + NameText(e)
    ensures UsedEntries(es + [e]) == UsedEntries(es) + if Used(e) then 1 else 0
  {
    hide NameText;
    if es != [] {
      assert (es + [e])[1..] == es[1..] + [e];
      NameBytesSnoc(es[1..], e);
    } else {
      assert ([] + [e])[1..] == [];
    }
  }

  /** The number of names as a word, then the names. */
  function ListingBytes(es: seq<Entry>): seq<byte>
    requires |es| <= MAX_FILES
  {
    CountBytes(UsedEntries(es)) + NameBytes(es)
  }

  function CountBytes(n: word): (r: seq<byte>)
    ensures |r| == 4
  {
    [ByteOf(n, 0), ByteOf(n, 1), ByteOf(n, 2), ByteOf(n, 3)]
  }

  /** The buffer has the names of `es` from its fifth byte on and is otherwise as it was. */
  ghost predicate Named(buffer: seq<byte>, was: seq<byte>, es: seq<Entry>, read: nat) {
    && |was| >= 512 && read == |NameBytes(es)| <= 16 * |es| && |es| <= MAX_FILES
    && buffer == was[..4] + NameBytes(es) + was[4 + read..]
  }

  lemma NothingNamed(was: seq<byte>)
    requires |was| >= 512
    ensures Named(was, was, [], 0)
  {
  }

  /** One more name, copied behind the others. */
  lemma NamedGrows(buffer: seq<byte>, was: seq<byte>, es: seq<Entry>, read: nat, e: Entry)
    requires Named(buffer, was, es, read) && |es| < MAX_FILES && (Used(e) ==> |CString(e.name)| < 16)
    ensures 4 + read + 16 <= |buffer|
    ensures !Used(e) ==> Named(buffer, was, es + [e], read)
    ensures Used(e) ==> Named(Copied(buffer, 4 + read, CString(e.name), 16), was, es + [e], read + |CString(e.name)| + 1)
  {
    hide CString, NameBytes, Copied;
    NameBytesSnoc(es, e);
    if Used(e) { NameBehind(buffer, was, NameBytes(es), CString(e.name)); }
  }

  lemma NameBehind(buffer: seq<byte>, was: seq<byte>, names: seq<byte>, text: seq<byte>)
    requires |was| >= 512 && |names| <= 16 * 24 && |text| < 16
    requires buffer == was[..4] + names + was[4 + |names|..]
    ensures Copied(buffer, 4 + |names|, text, 16) == was[..4] + (names + (text + [0])) + was[4 + |names| + |text| + 1..]
  {
    var at := 4 + |names|;
    assert buffer[..at] == was[..4] + names;
    assert buffer[at + |text| + 1..] == was[at + |text| + 1..];
  }

  lemma CountGoesFirst(buffer: seq<byte>, was: seq<byte>, es: seq<Entry>, read: nat)
    requires Named(buffer, was, es, read)
    ensures CountBytes(UsedEntries(es)) + buffer[4..] == ListingBytes(es) + was[4 + read..]
    ensures |ListingBytes(es)| == 4 + read <= 512
  {
    hide NameBytes, CountBytes;
  }

  // ----- writing in chunks -----

  /** The disk holds file `f` with the first `written` bytes of the data stored from `offset` on, and
      everything else as `fs` has it. */
  ghost predicate Stored(fs: Fs, f: int, disk: seq<Block>, data: seq<byte>, offset: nat, written: nat) {
    && OnlyData(fs, disk, f) && LaidOut(fs.disk, fs.nodes[f]) && LaidOut(disk, fs.nodes[f])
    && written <= |data| && offset + written <= fs.nodes[f].size
    && Content(disk, fs.nodes[f]) == Overwritten(Content(fs.disk, fs.nodes[f]), offset, data[..written])
  }

  lemma NothingStored(fs: Fs, f: int, data: seq<byte>, offset: nat)
    requires Inv(fs) && f in fs.nodes && fs.nodes[f].File? && offset <= fs.nodes[f].size
    ensures Stored(fs, f, fs.disk, data, offset, 0)
  {
    hide Inv, Content, FileOk;
    FileLaidOut(fs, f);
  }

  /** Storing the next run of data in its block. */
  lemma StoredGrows(fs: Fs, f: int, disk: seq<Block>, data: seq<byte>, offset: nat, written: nat, b: nat, from: nat, len: nat)
    requires Stored(fs, f, disk, data, offset, written) && b < |fs.nodes[f].blocks|
    requires from + len <= 512 && offset + written == 512 * b + from
    requires written + len <= |data| && offset + written + len <= fs.nodes[f].size
    ensures var p := fs.nodes[f].blocks[b];
            Stored(fs, f, disk[p := Overwritten(disk[p], from, data[written..written + len])], data, offset, written + len)
  {
    hide Content, Overwritten;
    var node := fs.nodes[f];
    var run := data[written..written + len];
    StoreInBlock(disk, node, b, from, run);
    FileGrows(Content(fs.disk, node), data, offset, written, len);
    assert node.blocks[b] in node.blocks;
  }

  lemma WholeBlock(a: Block, b: Block, data: seq<byte>)
    requires |data| == 512
    ensures Overwritten(a, 0, data) == Overwritten(b, 0, data)
  {
  }
}
