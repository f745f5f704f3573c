/** How the 512 bytes of a disk block are read as words, as directory entries, and written back. */
module BlockLayout {
  import opened Bitmap
  import opened Libc

  const BLOCK_SIZE := 512
  const BLOCK_WORDS := 128
  const MAX_FILES := 25
  const FILENAME_MAX := 16
  const ENTRY_BYTES := 20

  type Block = b: seq<byte> | |b| == 512 witness seq(512, _ => 0)

  function ZeroBlock(): Block { seq(512, _ => 0) }

  // ----- words -----

  function WordOf(b0: byte, b1: byte, b2: byte, b3: byte): word {
    0x100_0000 * b0 + 0x1_0000 * b1 + 0x100 * b2 + b3
  }

  function ByteOf(w: word, k: nat): byte
    requires k < 4
  {
    if k == 0 then w / 0x100_0000 else if k == 1 then w / 0x1_0000 % 256 else if k == 2 then w / 0x100 % 256 else w % 256
  }

  lemma WordOfBytes(w: word)
    ensures WordOf(ByteOf(w, 0), ByteOf(w, 1), ByteOf(w, 2), ByteOf(w, 3)) == w
  {
    assert w == 0x100 * (w / 0x100) + w % 0x100;
    assert w / 0x100 == 0x100 * (w / 0x1_0000) + w / 0x100 % 0x100;
    assert w / 0x1_0000 == 0x100 * (w / 0x100_0000) + w / 0x1_0000 % 0x100;
  }

  function WordAt(b: Block, at: nat): word
    requires at + 4 <= BLOCK_SIZE
  {
    WordOf(b[at], b[at + 1], b[at + 2], b[at + 3])
  }

  function Words(b: Block): (ws: seq<word>)
    ensures |ws| == BLOCK_WORDS
  {
    seq(BLOCK_WORDS, i requires 0 <= i < BLOCK_WORDS => WordAt(b, 4 * i))
  }

  function BlockOfWords(ws: seq<word>): Block
    requires |ws| == BLOCK_WORDS
  {
    seq(BLOCK_SIZE, k requires 0 <= k < BLOCK_SIZE => ByteOf(ws[k / 4], k % 4))
  }

  lemma StoredByte(ws: seq<word>, i: nat, k: nat)
    requires |ws| == BLOCK_WORDS && i < BLOCK_WORDS && k < 4
    ensures BlockOfWords(ws)[4 * i + k] == ByteOf(ws[i], k)
  {
    assert (4 * i + k) / 4 == i && (4 * i + k) % 4 == k;
  }

  /** Words written to a block are read back. */
  lemma WordsRoundTrip(ws: seq<word>)
    requires |ws| == BLOCK_WORDS
    ensures Words(BlockOfWords(ws)) == ws
  {
    hide BlockOfWords, ByteOf, WordOf;
    forall i | 0 <= i < BLOCK_WORDS ensures WordAt(BlockOfWords(ws), 4 * i) == ws[i] {
      StoredByte(ws, i, 0);
      StoredByte(ws, i, 1);
      StoredByte(ws, i, 2);
      StoredByte(ws, i, 3);
      WordOfBytes(ws[i]);
    }
  }

  // ----- directory entries -----

  type Name = s: seq<byte> | |s| == 16 witness seq(16, _ => 0)

  /** One `sfs_direntry_t`; inode zero marks a free entry. */
  datatype Entry = Entry(inode: word, name: Name)

  function EntryAt(b: Block, i: nat): Entry
    requires i < MAX_FILES
  {
    Entry(WordAt(b, ENTRY_BYTES * i), b[ENTRY_BYTES * i + 4..ENTRY_BYTES * i + 20])
  }

  function Entries(b: Block): (es: seq<Entry>)
    ensures |es| == MAX_FILES
  {
    seq(MAX_FILES, i requires 0 <= i < MAX_FILES => EntryAt(b, i))
  }

  function EntryBytes(e: Entry): (s: seq<byte>)
    ensures |s| == ENTRY_BYTES
  {
    [ByteOf(e.inode, 0), ByteOf(e.inode, 1), ByteOf(e.inode, 2), ByteOf(e.inode, 3)] + e.name
  }

  /** The block with entry `i` stored over it; everything else stays. */
  function WithEntry(b: Block, i: nat, e: Entry): Block
    requires i < MAX_FILES
  {
    b[..ENTRY_BYTES * i] + EntryBytes(e) + b[ENTRY_BYTES * i + 20..]
  }

  lemma EntryOfWithEntry(b: Block, i: nat, e: Entry, j: nat)
    requires i < MAX_FILES && j < MAX_FILES
    ensures EntryAt(WithEntry(b, i, e), j) == if j == i then e else EntryAt(b, j)
  {
    var after := WithEntry(b, i, e);
    if j == i {
      WordOfBytes(e.inode);
      assert after[ENTRY_BYTES * i + 4..ENTRY_BYTES * i + 20] == e.name;
    } else {
      assert after[ENTRY_BYTES * j..ENTRY_BYTES * j + 20] == b[ENTRY_BYTES * j..ENTRY_BYTES * j + 20];
      SameEntry(b, after, j);
    }
  }

  lemma SameEntry(a: Block, b: Block, j: nat)
    requires j < MAX_FILES && a[ENTRY_BYTES * j..ENTRY_BYTES * j + 20] == b[ENTRY_BYTES * j..ENTRY_BYTES * j + 20]
    ensures EntryAt(a, j) == EntryAt(b, j)
  {
    var k := ENTRY_BYTES * j;
    var x, y := a[k..k + 20], b[k..k + 20];
    assert a[k + 4..k + 20] == x[4..] && b[k + 4..k + 20] == y[4..];
    assert a[k] == x[0] && a[k + 1] == x[1] && a[k + 2] == x[2] && a[k + 3] == x[3];
    assert b[k] == y[0] && b[k + 1] == y[1] && b[k + 2] == y[2] && b[k + 3] == y[3];
  }

  /** Storing one entry changes that entry and no other. */
  lemma EntriesOfWithEntry(b: Block, i: nat, e: Entry)
    requires i < MAX_FILES
    ensures Entries(WithEntry(b, i, e)) == Entries(b)[i := e]
  {
    forall j | 0 <= j < MAX_FILES ensures EntryAt(WithEntry(b, i, e), j) == Entries(b)[i := e][j] {
      EntryOfWithEntry(b, i, e, j);
    }
  }

  /** An empty directory: all entries cleared, the bytes behind the last one left as they were. */
  function EmptyDirectory(b: Block): Block {
    seq(ENTRY_BYTES * MAX_FILES, _ => 0) + b[ENTRY_BYTES * MAX_FILES..]
  }

  lemma EmptyDirectoryEntries(b: Block)
    ensures forall i | 0 <= i < MAX_FILES :: Entries(EmptyDirectory(b))[i].inode == 0
  {
  }
}
