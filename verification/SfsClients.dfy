/** What callers of `sfs_read` and `sfs_write` can rely on: when they fail, that a file read piece by piece comes out
    whole, and that the listing of a folder can be taken apart again. */
module SfsClients {
  import opened Sequences
  import opened Bitmap
  import opened Libc
  import opened BlockLayout
  import opened SfsPath
  import opened SfsState
  import opened SfsSteps
  import opened SfsWalk
  import opened SfsEffects
  import opened SfsData
  import opened SfsVolume

  // ----- files -----

  lemma FileSizes(fs: Fs, f: int)
    requires NodesOk(fs) && f in Files(fs)
    ensures f in fs.nodes && fs.nodes[f].File? && |Files(fs)[f]| == fs.nodes[f].size
  {
    hide Content;
  }

  /** A read of an open file fails if and only if the offset is not within the file or at its end; otherwise it comes
      back with what was asked for, unless the file ends before. */
  lemma ReadFailsIff(fs: Fs, f: int, bufsize: nat, offset: int)
    requires NodesOk(fs) && f in Files(fs) && fs.handles[f] > 0
    ensures var r, size := ReadLength(fs, f, bufsize, offset), |Files(fs)[f]|;
            && (r < 0 <==> offset < 0 || offset > size)
            && (r >= 0 ==> r <= bufsize && offset + r <= size && (r == bufsize || offset + r == size))
  {
    hide Files, NodesOk;
    FileSizes(fs, f);
  }

  /** The same of writes. */
  lemma WriteFailsIff(fs: Fs, f: int, datasize: nat, offset: int)
    requires NodesOk(fs) && f in Files(fs) && fs.handles[f] > 0
    ensures var r, size := WriteLength(fs, f, datasize, offset), |Files(fs)[f]|;
            && (r < 0 <==> offset < 0 || offset > size)
            && (r >= 0 ==> r <= datasize && offset + r <= size && (r == datasize || offset + r == size))
  {
    hide Files, NodesOk;
    FileSizes(fs, f);
  }

  /** What is not open can be neither read nor written, and no folder is written. */
  lemma NotOpenFails(fs: Fs, f: int, n: nat, offset: int)
    requires NodesOk(fs)
    ensures fs.handles[f] == 0 ==> ReadLength(fs, f, n, offset) < 0 && WriteLength(fs, f, n, offset) < 0
    ensures f in fs.nodes && fs.nodes[f].Folder? ==> WriteLength(fs, f, n, offset) < 0
  {
  }

  /** Reads an open file from its start, each time where the last read ended, with any buffer of at least one byte, until
      a read comes back with nothing: no read fails, and what was read is the file. */
  method ReadToEnd(v: Volume, f: int, buffer: array<byte>, address: nat) returns (bytes: seq<byte>)
    requires v.Valid() && NodesOk(v.Snap()) && f in Files(v.Snap()) && v.handles[f] > 0 && buffer.Length > 0
    modifies v, v.disk, v.openFiles, buffer
    ensures v.Valid() && v.Snap() == old(v.Snap()) && NodesOk(v.Snap()) && bytes == Files(v.Snap())[f]
  {
    hide Inv, NodesOk, Files, ReadLength, ReadGives, Filled;
    ghost var fs := v.Snap();
    ghost var content := Files(fs)[f];
    bytes := [];
    while true
      invariant v.Valid() && v.Snap() == fs && NodesOk(fs) && bytes <= content
      decreases |content| - |bytes|
    {
      ghost var was := buffer[..];
      ReadFailsIff(fs, f, buffer.Length, |bytes|);
      var r := v.Read(f, buffer, buffer.Length, |bytes|, address);
      assert r >= 0;
      GotBytes(fs, f, |bytes|, r, was, buffer[..]);
      if r == 0 {
        return;
      }
      bytes := bytes + buffer[..r];
    }
  }

  lemma GotBytes(fs: Fs, f: int, offset: nat, n: nat, was: seq<byte>, now: seq<byte>)
    requires NodesOk(fs) && f in Files(fs) && ReadGives(fs, f, offset, n, was, now)
    ensures offset + n <= |Files(fs)[f]| && n <= |now| && now[..n] == Files(fs)[f][offset..offset + n]
  {
    hide Files, NodesOk;
    FileSizes(fs, f);
  }

  // ----- folders -----

  /** The strings of a buffer, one behind the other. */
  function Split(bytes: seq<byte>, n: nat): seq<seq<byte>> {
    if n == 0 then []
    else
      var s := CString(bytes);
      if |s| < |bytes| then [s] + Split(bytes[|s| + 1..], n - 1) else [s]
  }

  /** The names of a folder, in the order of its entries. */
  function UsedNames(es: seq<Entry>): seq<seq<byte>> {
    if es == [] then [] else (if Used(es[0]) then [CString(es[0].name)] else []) + UsedNames(es[1..])
  }

  lemma FirstString(name: seq<byte>, more: seq<byte>, n: nat)
    requires 0 !in name
    ensures Split((name + [0]) + more, n + 1) == [name] + Split(more, n)
  {
    hide CString;
    var all := (name + [0]) + more;
    CStringIs(all, name);
    assert all[|name| + 1..] == more;
  }

  lemma {:induction false} SplitNames(es: seq<Entry>, rest: seq<byte>)
    ensures Split(NameBytes(es) + rest, UsedEntries(es)) == UsedNames(es)
    ensures |UsedNames(es)| == UsedEntries(es)
  {
    hide CString, Split;
    if es == [] {
      NothingSplit(rest);
    } else {
      SplitNames(es[1..], rest);
      assert NameBytes(es) + rest == NameText(es[0]) + (NameBytes(es[1..]) + rest);
      if Used(es[0]) {
        FirstString(CString(es[0].name), NameBytes(es[1..]) + rest, UsedEntries(es[1..]));
      } else {
        assert [] + (NameBytes(es[1..]) + rest) == NameBytes(es[1..]) + rest;
      }
    }
  }

  lemma NothingSplit(rest: seq<byte>)
    ensures Split([] + rest, 0) == []
  {
  }

  lemma {:induction false} NamesAreListed(es: seq<Entry>, name: seq<byte>)
    ensures name in UsedNames(es) <==> name in Listing(es)
  {
    hide CString;
    if es != [] { NamesAreListed(es[1..], name); }
  }

  lemma {:induction false} NameIsUsed(es: seq<Entry>, name: seq<byte>) returns (i: nat)
    requires name in UsedNames(es)
    ensures i < |es| && Used(es[i]) && CString(es[i].name) == name
  {
    hide CString;
    if Used(es[0]) && CString(es[0].name) == name {
      i := 0;
    } else {
      i := NameIsUsed(es[1..], name);
      i := i + 1;
    }
  }

  lemma {:induction false} NamesDiffer(es: seq<Entry>)
    requires NoRepeats(es)
    ensures forall i, j | 0 <= i < j < |UsedNames(es)| :: UsedNames(es)[i] != UsedNames(es)[j]
  {
    hide CString;
    if es != [] {
      var rest := es[1..];
      NamesDiffer(rest);
      if Used(es[0]) {
        forall j | 0 <= j < |UsedNames(rest)| ensures UsedNames(rest)[j] != CString(es[0].name) {
          var k := NameIsUsed(rest, UsedNames(rest)[j]);
          assert rest[k] == es[k + 1];
        }
      }
    }
  }

  /** The number that a listing begins with. */
  function CountOf(listing: seq<byte>): word
    requires |listing| >= 4
  {
    WordOf(listing[0], listing[1], listing[2], listing[3])
  }

  /** What reading a folder gives can be taken apart: its first word is the number of names, and the NULs end exactly the
      names that the tree has for the folder, each once. */
  lemma ListingIsFolder(fs: Fs, f: int, rest: seq<byte>)
    requires Inv(fs) && NodesOk(fs) && f in fs.nodes && fs.nodes[f].Folder? && 0 <= f < |fs.disk|
    ensures var listing := ListingBytes(Entries(fs.disk[f])) + rest;
            var names := Split(listing[4..], CountOf(listing));
            && f in Tree(fs) && |names| == CountOf(listing) && (forall x :: x in names <==> x in Tree(fs)[f])
            && forall i, j | 0 <= i < j < |names| :: names[i] != names[j]
  {
    hide Split, CString, Listing, UsedNames, NameBytes, ByteOf, WordOf, UsedEntries, EntryOk, Entries;
    var es := Entries(fs.disk[f]);
    var listing := ListingBytes(es) + rest;
    assert FolderOk(fs, f);
    WordOfBytes(UsedEntries(es));
    assert listing[4..] == NameBytes(es) + rest;
    SplitNames(es, rest);
    NamesDiffer(es);
    forall x ensures x in UsedNames(es) <==> x in Tree(fs)[f] { NamesAreListed(es, x); }
  }

  /** A read of an open folder fails if and only if it is not from its start with a buffer of at least a block. */
  lemma FolderReadFailsIff(fs: Fs, f: int, bufsize: nat, offset: int)
    requires NodesOk(fs) && f in fs.nodes && fs.nodes[f].Folder? && fs.handles[f] > 0
    ensures ReadLength(fs, f, bufsize, offset) < 0 <==> offset != 0 || bufsize < 512
  {
  }

  /** Lists an open folder: the names that the tree has for it, each once. */
  method ListFolder(v: Volume, f: int, buffer: array<byte>, address: nat) returns (names: seq<seq<byte>>)
    requires v.Valid() && NodesOk(v.Snap()) && f in v.nodes && v.nodes[f].Folder? && v.handles[f] > 0 && buffer.Length >= 512
    modifies v, v.disk, v.openFiles, buffer
    ensures v.Valid() && v.Snap() == old(v.Snap()) && NodesOk(v.Snap()) && f in Tree(v.Snap())
    ensures forall x :: x in names <==> x in Tree(v.Snap())[f]
    ensures forall i, j | 0 <= i < j < |names| :: names[i] != names[j]
  {
    hide Inv, NodesOk, Tree, ReadLength, ListingBytes, Split, CountOf, Entries;
    ghost var fs, was := v.Snap(), buffer[..];
    FolderReadFailsIff(fs, f, buffer.Length, 0);
    HandleFacts(fs, f);
    var r := v.Read(f, buffer, buffer.Length, 0, address);
    ListingIsFolder(fs, f, was[r..]);
    names := Split(buffer[4..], CountOf(buffer[..]));
  }

  // ----- how many files can be open -----

  ghost function OpenInodes(fs: Fs): set<int> { set f | f in fs.handles }

  function TakenRows(slots: seq<Slot>): seq<int> {
    if slots == [] then []
    else TakenRows(slots[..|slots| - 1]) + if slots[|slots| - 1].fileid == -1 then [] else [slots[|slots| - 1].fileid]
  }

  lemma {:induction false} TakenAre(slots: seq<Slot>)
    requires forall i, j | 0 <= i < j < |slots| && slots[i].fileid != -1 :: slots[i].fileid != slots[j].fileid
    ensures Distinct(TakenRows(slots)) && |TakenRows(slots)| <= |slots|
    ensures forall x :: x in TakenRows(slots) <==> x != -1 && exists i :: 0 <= i < |slots| && slots[i].fileid == x
    ensures |TakenRows(slots)| == |slots| <==> forall i | 0 <= i < |slots| :: slots[i].fileid != -1
  {
    if slots != [] {
      var most, last := slots[..|slots| - 1], slots[|slots| - 1];
      assert slots == most + [last];
      TakenAre(most);
      assert last.fileid != -1 ==> last.fileid !in TakenRows(most);
    }
  }

  /** An inode can be opened if and only if it is open already or fewer than 32 are. */
  lemma RowIff(fs: Fs, c: int)
    requires Inv(fs) && c >= 0
    ensures HasRow(fs, c) <==> fs.handles[c] > 0 || |OpenInodes(fs)| < 32
  {
    hide NodesOk, OwnersOk, BitsOk, FoldersOk, TakenRows, Distinct;
    var taken := TakenRows(fs.slots);
    TakenAre(fs.slots);
    SizeOfDistinct(taken);
    forall x ensures x in Members(taken) <==> x in OpenInodes(fs) { RowOfOpen(fs, x); }
    assert Members(taken) == OpenInodes(fs);
    RowOfOpen(fs, c);
  }

  lemma RowOfOpen(fs: Fs, x: int)
    requires Inv(fs)
    ensures x in fs.handles <==> x != -1 && exists i :: 0 <= i < |fs.slots| && fs.slots[i].fileid == x
  {
    hide NodesOk, OwnersOk, BitsOk, FoldersOk;
    if x != -1 && exists i :: 0 <= i < |fs.slots| && fs.slots[i].fileid == x {
      var i :| 0 <= i < |fs.slots| && fs.slots[i].fileid == x;
      assert SlotOk(fs, fs.slots[i]);
    }
  }

  // ----- what a fresh volume takes -----

  predicate NameChar(c: byte) { c in {32, 45, 46, 95, 126} || 48 <= c <= 57 || 65 <= c <= 90 || 97 <= c <= 122 }

  /** At most fifteen letters, digits, blanks, underscores, dots, dashes and tildes, at least one; a slash may follow
      within the fifteen. */
  predicate NameAllowed(name: seq<byte>) {
    && 1 <= |name| <= 15 && (forall i | 0 <= i < |name| - 1 :: NameChar(name[i]))
    && (NameChar(name[|name| - 1]) || (name[|name| - 1] == 47 && |name| >= 2))
  }

  lemma FreshSpace(size: nat, header: Block)
    requires size >= 3
    ensures FreeBytes(Formatted(size, header).disk) == 512 * (Least(size, 4096) - 3)
  {
    hide BlockOfWords, Words, WithBit, SystemBits, Bit, ClearBits;
    WordsRoundTrip(SystemBits());
    forall b: nat | b < Least(size, 4096) ensures Bit(SystemBits(), b) <==> b < 3 { SystemBitsAre(b); }
    FirstBitsSet(SystemBits(), 3, Least(size, 4096));
  }

  lemma {:induction false} NothingListed(es: seq<Entry>)
    requires forall i | 0 <= i < |es| :: !Used(es[i])
    ensures Listing(es) == map[]
  {
    if es != [] { NothingListed(es[1..]); }
  }

  lemma FreshTree(size: nat, header: Block)
    requires size >= 3
    ensures Inv(Formatted(size, header)) && NodesOk(Formatted(size, header))
    ensures Tree(Formatted(size, header)) == map[ROOT := map[]]
  {
    hide Entries, Listing, BlockOfWords, SystemBits, ZeroBlock, OwnersOk, BitsOk, FoldersOk, SlotsOk;
    FormattedInv(size, header);
    InvIsNodesOk(Formatted(size, header));
    ZeroFolder();
    NothingListed(Entries(ZeroBlock()));
  }

  /** On a fresh volume of `size` blocks something can be created in the root folder if and only if its name is allowed,
      it is a folder or has at most 127 blocks, and with its inode it needs no more than all blocks but three. */
  lemma FirstCreation(size: nat, header: Block, name: seq<byte>, bytes: int)
    requires size >= 3
    ensures NodesOk(Formatted(size, header))
    ensures var folder := name != [] && name[|name| - 1] == 47;
            CanCreate(Formatted(size, header), [47] + name, bytes)
            <==> && NameAllowed(name) && (folder || 0 <= bytes <= 127 * 512)
                 && (if folder then 1 else 1 + (bytes + 511) / 512) <= Least(size, 4096) - 3
  {
    hide Formatted, Elements, Cut, FreeBytes, NodesOk, Inv, Tree;
    var fs, path := Formatted(size, header), [47] + name;
    FreshTree(size, header);
    FreshSpace(size, header);
    assert path[1..] == name;
    if name == [] {
      NoElements();
    } else {
      ElementsUnfold(name);
      var rest := name[Cut(name)..];
      if rest == [] {
        assert name[..Cut(name)] == name;
        NoElements();
        assert Elements(name) == [name];
        assert PathOf(path)[..0] == [];
      } else {
        assert name[Cut(name) - 1] == SLASH;
        assert |PathOf(path)| >= 2 && PathOf(path)[..|PathOf(path)| - 1][0] == name[..Cut(name)];
      }
    }
  }

  lemma NoElements()
    ensures Elements([]) == []
  {
  }
}
