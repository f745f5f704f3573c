/** Sequences of file-system operations: what a handle that stays open is worth. */
module SfsRuns {
  import opened Libc
  import opened BlockLayout
  import opened SfsPath
  import opened SfsState
  import opened SfsTree
  import opened SfsSteps
  import opened SfsWalk
  import opened SfsCreate
  import opened SfsEffects
  import opened SfsData
  import opened SfsVolume

  /** One successful operation, with what its caller got or gave. */
  datatype Op =
    | OpenOp(inode: int)
    | CloseOp(inode: int)
    | CreateOp(path: seq<byte>, size: int, inode: int)
    | RemoveOp(inode: int, name: seq<byte>)
    | WriteOp(inode: int, data: seq<byte>, offset: int, n: nat)

  /** What the methods of `Volume` promise of a successful call. */
  ghost predicate Happens(fs: Fs, op: Op, after: Fs) {
    && NodesOk(fs) && NodesOk(after)
    && match op
       case OpenOp(c) =>
         after.handles == fs.handles + multiset{c} && after.disk == fs.disk && after.nodes == fs.nodes
       case CloseOp(c) =>
         && fs.handles[c] > 0 && after.handles == fs.handles - multiset{c}
         && if fs.handles[c] == 1 && Marked(fs, c) then Vanished(fs, after, c) else LooksSame(fs, after)
       case CreateOp(path, size, c) =>
         ValidPath(path) && |path| >= 2 && FolderOf(fs, path).At? && CreatedIn(fs, after, path, size, c)
       case RemoveOp(c, name) =>
         c in fs.nodes && c in fs.home && RemovedFrom(fs, after, c, name)
       case WriteOp(c, data, offset, n) =>
         WriteGives(fs, after, c, data, offset, n)
  }

  // ----- the methods make these transitions -----

  method OpenHappens(v: Volume, path: seq<byte>) returns (r: int)
    requires v.Valid() && 0 !in path
    modifies v, v.disk, v.openFiles
    ensures v.Valid()
    ensures if r >= 0 then Happens(old(v.Snap()), OpenOp(r), v.Snap()) else v.Snap() == old(v.Snap())
  {
    hide Inv, NodesOk, Tree, FoldersOk, SlotsOk, HasRow;
    ghost var fs := v.Snap();
    InvIsNodesOk(fs);
    TargetNumber(fs, path);
    r := v.Open(path);
    InvIsNodesOk(v.Snap());
  }

  lemma TargetNumber(fs: Fs, path: seq<byte>)
    requires Inv(fs) && NodesOk(fs)
    ensures Target(fs, path).At? ==> Target(fs, path).inode >= 2
  {
    hide Inv, Tree, FoldersOk, Elements, AllValid, Lookup;
    InvIsNodesOk(fs);
    if Target(fs, path).At? { ResolvedNode(fs, PathOf(path)); }
  }

  method CloseHappens(v: Volume, c: int) returns (r: int)
    requires v.Valid()
    modifies v, v.disk, v.openFiles
    ensures v.Valid()
    ensures if r == VFS_OK then Happens(old(v.Snap()), CloseOp(c), v.Snap()) else v.Snap() == old(v.Snap())
  {
    hide Inv, NodesOk, Vanished, LooksSame, Marked;
    r := v.Close(c);
  }

  method CreateHappens(v: Volume, path: seq<byte>, size: int) returns (r: int, ghost c: int)
    requires v.Valid() && 0 !in path
    modifies v, v.disk, v.openFiles
    ensures v.Valid()
    ensures if r == VFS_OK then Happens(old(v.Snap()), CreateOp(path, size, c), v.Snap()) else v.Snap() == old(v.Snap())
  {
    hide Inv, NodesOk, Tree, Files, FreeBytes, CreatedIn, Target, AllValid, Elements, Lookup;
    c := 0;
    r := v.Create(path, size);
    if r == VFS_OK { c := Target(v.Snap(), path).inode; }
  }

  method RemoveHappens(v: Volume, path: seq<byte>) returns (r: int, ghost op: Op)
    requires v.Valid() && 0 !in path
    modifies v, v.disk, v.openFiles
    ensures v.Valid()
    ensures if r == VFS_OK then op.RemoveOp? && Happens(old(v.Snap()), op, v.Snap()) else v.Snap() == old(v.Snap())
  {
    hide Inv, NodesOk, Tree, RemovedFrom, ValidPath, Elements, Lookup, HasRow;
    ghost var fs := v.Snap();
    op := CloseOp(0);
    r := v.Remove(path);
    if r == VFS_OK { op := RemoveOp(Target(fs, path).inode, PathOf(path)[|PathOf(path)| - 1]); }
  }

  method WriteHappens(v: Volume, c: int, data: seq<byte>, datasize: nat, offset: int, address: nat) returns (r: int)
    requires v.Valid() && datasize <= |data|
    modifies v, v.disk, v.openFiles
    ensures v.Valid()
    ensures if r > 0 then Happens(old(v.Snap()), WriteOp(c, data, offset, r), v.Snap()) else v.Snap() == old(v.Snap())
  {
    hide Inv, NodesOk, WriteGives;
    r := v.Write(c, data, datasize, offset, address);
  }

  // ----- runs -----

  ghost predicate IsRun(run: seq<Fs>, ops: seq<Op>) {
    |run| == |ops| + 1 && forall i, j | 0 <= i < |ops| && j == i + 1 :: Happens(run[i], ops[i], run[j])
  }

  /** The bytes of file `c` after an operation, as far as they depend on the bytes before. */
  function Effect(content: seq<byte>, op: Op, c: int): seq<byte> {
    if op.WriteOp? && op.inode == c && 0 <= op.offset && op.offset + op.n <= |content| && op.n <= |op.data|
    then Overwritten(content, op.offset, op.data[..op.n])
    else content
  }

  function Replay(content: seq<byte>, ops: seq<Op>, c: int): seq<byte> {
    if ops == [] then content else Effect(Replay(content, ops[..|ops| - 1], c), ops[|ops| - 1], c)
  }

  lemma OpenFileStep(fs: Fs, op: Op, after: Fs, c: int)
    requires Happens(fs, op, after) && c in Files(fs) && fs.handles[c] > 0 && after.handles[c] > 0
    ensures c in Files(after) && Files(after)[c] == Effect(Files(fs)[c], op, c)
  {
    hide Tree, FreeBytes, Content, Overwritten, Marked, Owned, FolderOf, ValidPath, FolderName, Added, Removed;
    if op.OpenOp? { SameFiles(fs, after); }
  }

  lemma SameFiles(fs: Fs, after: Fs)
    requires NodesOk(fs) && NodesOk(after) && after.disk == fs.disk && after.nodes == fs.nodes
    ensures Files(after) == Files(fs)
  {
    hide Content, FileOk;
  }

  /** A handle protects its file: through any run of operations by anybody, including its removal, a file
      that always has at least one handle open keeps its bytes, changed by nothing but the writes made
      to it, in their order. */
  lemma {:induction false} HandleKeepsFile(run: seq<Fs>, ops: seq<Op>, n: nat, c: int)
    requires IsRun(run, ops) && n < |run| && NodesOk(run[0]) && c in Files(run[0])
    requires forall i | 0 <= i < |run| :: run[i].handles[c] > 0
    ensures NodesOk(run[n]) && c in Files(run[n])
    ensures Files(run[n])[c] == Replay(Files(run[0])[c], ops[..n], c)
  {
    hide Files, NodesOk, Happens, Effect;
    if n > 0 {
      HandleKeepsFile(run, ops, n - 1, c);
      assert Happens(run[n - 1], ops[n - 1], run[n]);
      Proper(run[n - 1], ops[n - 1], run[n]);
      OpenFileStep(run[n - 1], ops[n - 1], run[n], c);
      assert ops[..n][..n - 1] == ops[..n - 1];
    }
  }

  lemma Proper(fs: Fs, op: Op, after: Fs)
    requires Happens(fs, op, after)
    ensures NodesOk(fs) && NodesOk(after)
  {
  }

  /** What a file or folder costs: one block for the inode and one for every 512 bytes begun. This is what
      creating takes and what the final deletion gives back. */
  lemma CostOf(fs: Fs, c: int)
    requires NodesOk(fs) && c in fs.nodes
    ensures fs.nodes[c].Folder? ==> |Owned(c, fs.nodes[c])| == 1
    ensures fs.nodes[c].File? ==> c in Files(fs) && |Owned(c, fs.nodes[c])| == 1 + (|Files(fs)[c]| + 511) / 512
  {
    hide Content;
    if fs.nodes[c].File? { assert FileOk(fs.disk, c, fs.nodes[c]); }
  }

  /** Creating and then removing what nobody opened in between leaves the free space as it was, whatever
      else was left as it was. */
  lemma CreateRemoveRestores(fs: Fs, mid: Fs, after: Fs, path: seq<byte>, size: int, c: int, name: seq<byte>)
    requires Happens(fs, CreateOp(path, size, c), mid) && Happens(mid, RemoveOp(c, name), after) && mid.handles[c] == 0
    ensures FreeBytes(after.disk) == FreeBytes(fs.disk) && after.nodes == fs.nodes && c !in Files(after)
    ensures Files(after) == Files(fs)
  {
    hide Tree, FreeBytes, Marked, Added, Removed, FolderOf, ValidPath, Owned;
    CostOf(mid, c);
    NodesAndFiles(fs, c);
    NodesAndFiles(mid, c);
  }

  lemma NodesAndFiles(fs: Fs, c: int)
    requires NodesOk(fs)
    ensures c in Files(fs) <==> c in fs.nodes && fs.nodes[c].File?
  {
  }

  // ----- the life of a removed file -----

  lemma OpenHasRow(fs: Fs, c: int)
    requires Inv(fs) && fs.handles[c] > 0
    ensures HasRow(fs, c)
  {
    assert c in fs.handles;
    var i :| 0 <= i < |fs.slots| && fs.slots[i].fileid == c;
  }

  lemma SameTarget(fs: Fs, after: Fs, path: seq<byte>)
    requires NodesOk(fs) && NodesOk(after) && Tree(after) == Tree(fs)
    ensures Target(after, path) == Target(fs, path)
  {
  }

  lemma FilesAreNoFolders(fs: Fs, c: int)
    requires NodesOk(fs) && c in Files(fs)
    ensures Tree(fs) - {c} == Tree(fs)
  {
  }

  /** Open and remove: the name is gone, the file is not. */
  method OpenThenRemove(v: Volume, path: seq<byte>) returns (c: int)
    requires v.Valid() && NodesOk(v.Snap()) && 0 !in path
    requires Target(v.Snap(), path).At? && Target(v.Snap(), path).inode in Files(v.Snap())
    requires v.handles[Target(v.Snap(), path).inode] == 0 && HasRow(v.Snap(), Target(v.Snap(), path).inode)
    modifies v, v.disk, v.openFiles
    ensures v.Valid() && NodesOk(old(v.Snap())) && NodesOk(v.Snap()) && c == Target(old(v.Snap()), path).inode
    ensures Target(v.Snap(), path) == Nowhere && Marked(v.Snap(), c) && v.handles[c] == 1 && !FolderName(path)
    ensures Files(v.Snap()) == Files(old(v.Snap())) && FreeBytes(v.Snap().disk) == FreeBytes(old(v.Snap()).disk)
    ensures c in v.nodes && v.nodes[c].File? && |Files(old(v.Snap()))[c]| == v.nodes[c].size
    ensures |Owned(c, v.nodes[c])| == 1 + (v.nodes[c].size + 511) / 512
    ensures forall size | size >= 0 && BlocksFor(size) <= BLOCKS_MAX ::
              CanCreate(v.Snap(), path, size) <==> 512 * (1 + BlocksFor(size)) <= FreeBytes(v.Snap().disk)
  {
    hide Inv, NodesOk, Tree, Files, FreeBytes, Removed, HasRow, Marked, Owned, Target, ValidPath, RemovedFrom, CanCreate, FolderName, BlocksFor;
    ghost var s0 := v.Snap();
    c := v.Open(path);
    ghost var s1 := v.Snap();
    OpenedLooksSame(s0, s1, path, c);
    var removed := v.Remove(path);
    StillThere(s1, v.Snap(), path, c);
    FilePath(s1, path, c);
    InvIsNodesOk(v.Snap());
    forall size | size >= 0 && BlocksFor(size) <= BLOCKS_MAX
      ensures CanCreate(v.Snap(), path, size) <==> 512 * (1 + BlocksFor(size)) <= FreeBytes(v.Snap().disk)
    {
      NameIsReusable(s1, v.Snap(), path, c, size);
      SpaceForFile(path, size);
    }
  }

  lemma FilePath(fs: Fs, path: seq<byte>, c: int)
    requires Inv(fs) && NodesOk(fs) && Target(fs, path) == At(c) && c in fs.nodes && fs.nodes[c].File?
    ensures ValidPath(path) && |path| >= 2 && !FolderName(path) && c in fs.home
  {
    hide Inv, Tree, FoldersOk, Elements, AllValid, Lookup;
    InvIsNodesOk(fs);
    var es := PathOf(path);
    ResolvedNode(fs, es);
    RootIsFolder(fs);
    OnlyLastIsFile(path[1..]);
    assert path[1..][|path| - 2] == path[|path| - 1];
  }

  lemma SpaceForFile(path: seq<byte>, size: int)
    requires !FolderName(path) && size >= 0
    ensures BlocksNeeded(path, size) == 1 + BlocksFor(size)
  {
  }

  /** The last handle of a removed file: what is written through it is read back through it, and closing it
      gives back exactly what the file cost. Whatever the path leads to by then stays. */
  method UseThenClose(v: Volume, c: int, data: seq<byte>, buffer: array<byte>, ghost path: seq<byte>) returns (n: int)
    requires v.Valid() && NodesOk(v.Snap()) && |data| <= buffer.Length && c in v.nodes && v.nodes[c].File?
    requires Marked(v.Snap(), c) && v.handles[c] == 1
    modifies v, v.disk, v.openFiles, buffer
    ensures v.Valid() && NodesOk(old(v.Snap())) && NodesOk(v.Snap()) && Target(v.Snap(), path) == Target(old(v.Snap()), path)
    ensures n == (if |data| < old(v.nodes)[c].size then |data| else old(v.nodes)[c].size) && buffer[..n] == data[..n]
    ensures Files(v.Snap()) == Files(old(v.Snap())) - {c}
    ensures FreeBytes(v.Snap().disk) == FreeBytes(old(v.Snap()).disk) + 512 * |Owned(c, old(v.nodes)[c])|
  {
    hide Inv, NodesOk, Tree, Files, FreeBytes, Marked, Owned, Target, Filled, Overwritten, Vanished, WriteGives, ReadGives;
    ghost var s2 := v.Snap();
    var written := v.Write(c, data, |data|, 0, 0);
    ghost var s3, was := v.Snap(), buffer[..];
    n := v.Read(c, buffer, |data|, 0, 0);
    WrittenAndRead(s2, s3, c, data, written, n, was, buffer[..]);
    MarkedStays(s2, s3, c);
    var closed := v.Close(c);
    GoneForGood(s2, s3, v.Snap(), path, c);
  }

  /** Create under the name of a removed file whose handle is still open. */
  method Recreate(v: Volume, path: seq<byte>, size: nat, c: int) returns (made: bool)
    requires v.Valid() && NodesOk(v.Snap()) && 0 !in path && BlocksFor(size) <= BLOCKS_MAX && !FolderName(path)
    requires c in v.nodes && Marked(v.Snap(), c) && Target(v.Snap(), path) == Nowhere
    requires CanCreate(v.Snap(), path, size) <==> 512 * (1 + BlocksFor(size)) <= FreeBytes(v.Snap().disk)
    modifies v, v.disk, v.openFiles
    ensures v.Valid() && NodesOk(old(v.Snap())) && NodesOk(v.Snap()) && v.handles == old(v.handles)
    ensures made <==> 512 * (1 + BlocksFor(size)) <= FreeBytes(old(v.Snap()).disk)
    ensures c in v.nodes && v.nodes[c] == old(v.nodes)[c] && Marked(v.Snap(), c)
    ensures !made ==> v.Snap() == old(v.Snap())
    ensures made ==> var at := Target(v.Snap(), path);
                     && at.At? && at.inode !in old(v.nodes)
                     && Files(v.Snap()) == Files(old(v.Snap()))[at.inode := Zeros(size)]
                     && FreeBytes(v.Snap().disk) == FreeBytes(old(v.Snap()).disk) - 512 * (1 + BlocksFor(size))
  {
    hide Inv, NodesOk, Tree, Files, FreeBytes, Marked, Target, CanCreate, CreatedIn, BlocksFor, FolderName;
    ghost var fs := v.Snap();
    var r := v.Create(path, size);
    made := r == VFS_OK;
    if made {
      SpaceForFile(path, size);
      CanCreateParts(fs, path, size);
      CreatedParts(fs, v.Snap(), path, size, Target(v.Snap(), path).inode, c);
      MarkedStays(fs, v.Snap(), c);
    }
  }

  lemma CanCreateParts(fs: Fs, path: seq<byte>, size: int)
    requires NodesOk(fs) && CanCreate(fs, path, size)
    ensures ValidPath(path) && |path| >= 2 && FolderOf(fs, path).At?
  {
    hide Tree, Elements, AllValid, Lookup;
  }

  lemma CreatedParts(fs: Fs, after: Fs, path: seq<byte>, size: nat, d: int, c: int)
    requires NodesOk(fs) && NodesOk(after) && ValidPath(path) && |path| >= 2 && FolderOf(fs, path).At? && !FolderName(path)
    requires CreatedIn(fs, after, path, size, d) && c in fs.nodes
    ensures d !in fs.nodes && c in after.nodes && after.nodes[c] == fs.nodes[c] && after.handles == fs.handles && after.slots == fs.slots
    ensures Files(after) == Files(fs)[d := Zeros(size)]
    ensures FreeBytes(after.disk) == FreeBytes(fs.disk) - 512 * BlocksNeeded(path, size)
  {
    hide Tree, Files, FreeBytes, FolderOf, Added, ValidPath, Zeros;
    assert c in after.nodes - {d};
  }

  /** Open, remove, create again under the same name, write, read, close: the name is free from the removal on and a new
      file can have it while the old one is still open; the bytes written through the old handle are read back
      through it; and the last close gives back exactly what the old file cost and leaves the new one alone. */
  method UseAfterRemoval(v: Volume, path: seq<byte>, size: nat, data: seq<byte>, buffer: array<byte>) returns (c: int, made: bool, n: int)
    requires v.Valid() && NodesOk(v.Snap()) && 0 !in path && |data| <= buffer.Length && BlocksFor(size) <= BLOCKS_MAX
    requires Target(v.Snap(), path).At? && Target(v.Snap(), path).inode in Files(v.Snap())
    requires v.handles[Target(v.Snap(), path).inode] == 0 && HasRow(v.Snap(), Target(v.Snap(), path).inode)
    modifies v, v.disk, v.openFiles, buffer
    ensures v.Valid() && NodesOk(v.Snap()) && NodesOk(old(v.Snap())) && c == Target(old(v.Snap()), path).inode
    ensures made <==> 512 * (1 + BlocksFor(size)) <= FreeBytes(old(v.Snap()).disk)
    ensures var at, files := Target(v.Snap(), path), Files(old(v.Snap()));
            if made then at.At? && at.inode != c && at.inode !in files && Files(v.Snap()) == (files - {c})[at.inode := Zeros(size)]
            else at == Nowhere && Files(v.Snap()) == files - {c}
    ensures var was := |Files(old(v.Snap()))[c]|;
            && n == (if |data| < was then |data| else was) && buffer[..n] == data[..n]
            && FreeBytes(v.Snap().disk)
               == FreeBytes(old(v.Snap()).disk) + 512 * (1 + BlocksFor(was)) - if made then 512 * (1 + BlocksFor(size)) else 0
  {
    hide Inv, NodesOk, Tree, Files, FreeBytes, HasRow, Marked, Owned, Target, CanCreate, FolderName, Zeros;
    ghost var s0 := v.Snap();
    c := OpenThenRemove(v, path);
    ghost var s2 := v.Snap();
    made := Recreate(v, path, size, c);
    FilesExist(s2);
    n := UseThenClose(v, c, data, buffer, path);
  }

  lemma FilesExist(fs: Fs)
    requires NodesOk(fs)
    ensures forall f | f in Files(fs) :: f in fs.nodes
  {
  }

  lemma MarkedStays(s2: Fs, s3: Fs, c: int)
    requires Marked(s2, c) && s3.slots == s2.slots
    ensures Marked(s3, c)
  {
  }

  lemma OpenedLooksSame(s0: Fs, s1: Fs, path: seq<byte>, c: int)
    requires Inv(s0) && Inv(s1) && NodesOk(s0) && Target(s0, path) == At(c) && c in Files(s0)
    requires s1.disk == s0.disk && s1.nodes == s0.nodes && s1.home == s0.home && s1.handles == s0.handles + multiset{c}
    ensures NodesOk(s1) && Files(s1) == Files(s0) && Target(s1, path) == At(c) && HasRow(s1, c) && path != [SLASH]
    ensures c in s0.nodes && s0.nodes[c].File? && |Files(s0)[c]| == s0.nodes[c].size
    ensures |Owned(c, s0.nodes[c])| == 1 + (|Files(s0)[c]| + 511) / 512
  {
    hide Inv, Tree, Files, FoldersOk, Target, HasRow, Owned, Content;
    InvIsNodesOk(s0);
    SameFolders(s0, s1);
    SameTarget(s0, s1, path);
    OpenHasRow(s1, c);
    NodesAndFiles(s0, c);
    CostOf(s0, c);
    RootPath(s0);
    FileSize(s0, c);
  }

  lemma FileSize(fs: Fs, c: int)
    requires NodesOk(fs) && c in Files(fs)
    ensures |Files(fs)[c]| == fs.nodes[c].size
  {
    hide Content;
  }

  lemma RootPath(fs: Fs)
    requires NodesOk(fs)
    ensures Target(fs, [SLASH]) == At(ROOT) && fs.nodes[ROOT].Folder?
  {
    assert [SLASH][1..] == [];
  }

  lemma StillThere(s1: Fs, s2: Fs, path: seq<byte>, c: int)
    requires NodesOk(s1) && NodesOk(s2) && c in s1.nodes && c in s1.home && s1.handles[c] > 0
    requires exists n :: RemovedFrom(s1, s2, c, n)
    ensures s2.nodes == s1.nodes && s2.handles == s1.handles && Files(s2) == Files(s1)
    ensures FreeBytes(s2.disk) == FreeBytes(s1.disk) && Marked(s2, c)
  {
    hide Tree, Files, FreeBytes, Marked, Removed;
  }

  lemma WrittenAndRead(s2: Fs, s3: Fs, c: int, data: seq<byte>, w: int, n: int, was: seq<byte>, now: seq<byte>)
    requires NodesOk(s2) && NodesOk(s3) && c in s2.nodes && s2.nodes[c].File? && s2.handles[c] > 0
    requires w == WriteLength(s2, c, |data|, 0) && (w <= 0 ==> s3 == s2) && (w > 0 ==> WriteGives(s2, s3, c, data, 0, w))
    requires n == ReadLength(s3, c, |data|, 0) && ReadGives(s3, c, 0, n, was, now)
    ensures n == (if |data| < s2.nodes[c].size then |data| else s2.nodes[c].size) <= |now| && now[..n] == data[..n]
    ensures s3 == s2.(disk := s3.disk) && Files(s3) - {c} == Files(s2) - {c} && Tree(s3) == Tree(s2) && c in Files(s3)
    ensures FreeBytes(s3.disk) == FreeBytes(s2.disk)
  {
    hide Tree, FreeBytes, Content, Entries, Overwritten, Filled;
    if w > 0 {
      ReadAfterWrite(s2, s3, c, data, 0, w, was, now);
    }
    NodesAndFiles(s3, c);
  }

  lemma GoneForGood(s2: Fs, s3: Fs, s4: Fs, path: seq<byte>, c: int)
    requires NodesOk(s2) && NodesOk(s3) && NodesOk(s4)
    requires Tree(s3) == Tree(s2) && c in Files(s3) && Vanished(s3, s4, c)
    ensures Target(s4, path) == Target(s2, path) && c in s3.nodes && Files(s4) == Files(s3) - {c}
    ensures FreeBytes(s4.disk) == FreeBytes(s3.disk) + 512 * |Owned(c, s3.nodes[c])|
  {
    hide Tree, Files, FreeBytes, Owned, Target, NodesOk;
    FilesAreNoFolders(s3, c);
    SameTarget(s2, s3, path);
    SameTarget(s3, s4, path);
  }
}
