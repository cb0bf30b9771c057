/** The on-disk structures of SFS: inodes, directory entries and the bitmap, as bytes. */
module SfsLayout {
  import opened Words

  const NDIRECT: nat := 15
  const NAMELEN: nat := 60
  const DIRSIZE: nat := 64
  const BLOCKBITS: nat := 4096
  const MAXBITBLOCKS: nat := 32
  /** Most blocks a file can map: the direct ones and one indirect block full. */
  const MAXBLOCKS: nat := 143
  const MAXBYTES: nat := 73216
  const NOINO: nat := 0
  const SB: nat := 0
  const ROOT: nat := 1
  const MAP: nat := 2
  const MAGIC: u32 := 0xabadf001

  const TYPE_INVAL: u16 := 0
  const TYPE_FILE: u16 := 1
  const TYPE_DIR: u16 := 2

  // ---- Inodes ------------------------------------------------------------

  datatype RawInode = Inode(size: u32, kind: u16, links: u16, direct: seq<u32>, indirect: u32, waste: seq<u32>)

  /** The array fields have the lengths the structure declares. */
  type Inode = n: RawInode | |n.direct| == NDIRECT && |n.waste| == 110 witness BlankInode()

  function ZeroSeq(n: nat): seq<u32> {
    seq(n, _ => 0)
  }

  function BlankInode(): RawInode {
    Inode(0, TYPE_INVAL, 0, ZeroSeq(NDIRECT), 0, ZeroSeq(110))
  }

  function InodeWords(n: Inode): Words {
    [n.size, n.kind * 0x1_0000 + n.links] + n.direct + [n.indirect] + n.waste
  }

  function WordsInode(ws: Words): Inode {
    Inode(ws[0], ws[1] / 0x1_0000, ws[1] % 0x1_0000, ws[2..17], ws[17], ws[18..])
  }

  function EncodeInode(n: Inode): Block {
    WordsBlock(InodeWords(n))
  }

  function DecodeInode(b: Block): Inode {
    WordsInode(BlockWords(b))
  }

  lemma InodeWordsRoundTrip(n: Inode)
    ensures WordsInode(InodeWords(n)) == n
  {
    var ws := InodeWords(n);
    assert ws[2..17] == n.direct;
    assert ws[18..] == n.waste;
    assert ws[1] == n.kind * 0x1_0000 + n.links;
  }

  lemma WordsInodeRoundTrip(ws: Words)
    ensures InodeWords(WordsInode(ws)) == ws
  {
    var n := WordsInode(ws);
    assert n.kind * 0x1_0000 + n.links == ws[1];
  }

  lemma InodeRoundTrip(n: Inode)
    ensures DecodeInode(EncodeInode(n)) == n
  {
    hide WordsBlock, BlockWords, InodeWords, WordsInode;
    WordsRoundTrip(InodeWords(n));
    InodeWordsRoundTrip(n);
  }

  /** An inode written back from what was read is the same block, waste area included. */
  lemma InodeBlockRoundTrip(b: Block)
    ensures EncodeInode(DecodeInode(b)) == b
  {
    hide WordsBlock, BlockWords, InodeWords, WordsInode;
    BlockRoundTrip(b);
    WordsInodeRoundTrip(BlockWords(b));
  }

  /** The number in two or four bytes, the most significant first. */
  function Short(b: seq<byte>, at: nat): int
    requires at + 2 <= |b|
  {
    var b0: int, b1: int := b[at], b[at + 1];
    b0 * 0x100 + b1
  }

  function Long(b: seq<byte>, at: nat): int
    requires at + 4 <= |b|
  {
    var b0: int, b1: int, b2: int, b3: int := b[at], b[at + 1], b[at + 2], b[at + 3];
    b0 * 0x100_0000 + b1 * 0x1_0000 + b2 * 0x100 + b3
  }

  lemma LongWord(b: Block, j: nat)
    requires j < DBPERIDB
    ensures Long(b, 4 * j) == WordAt(b, j)
  {
  }

  /** Where the fields of an inode are in its block, byte by byte. */
  lemma InodeLayout(n: Inode)
    ensures var b := EncodeInode(n);
      && Long(b, 0) == n.size && Short(b, 4) == n.kind && Short(b, 6) == n.links
      && (forall k :: 0 <= k < NDIRECT ==> Long(b, 8 + 4 * k) == n.direct[k])
      && Long(b, 68) == n.indirect && (forall k :: 0 <= k < 110 ==> Long(b, 72 + 4 * k) == n.waste[k])
  {
    hide WordsBlock, ByteOf;
    var ws := InodeWords(n);
    LongAt(ws, 0);
    LongAt(ws, 1);
    LongAt(ws, 17);
    forall k | 0 <= k < NDIRECT
      ensures Long(EncodeInode(n), 8 + 4 * k) == n.direct[k]
    {
      LongAt(ws, 2 + k);
    }
    forall k | 0 <= k < 110
      ensures Long(EncodeInode(n), 72 + 4 * k) == n.waste[k]
    {
      LongAt(ws, 18 + k);
    }
  }

  lemma LongAt(ws: Words, j: nat)
    requires j < DBPERIDB
    ensures Long(WordsBlock(ws), 4 * j) == ws[j]
    ensures Short(WordsBlock(ws), 4 * j) == ws[j] / 0x1_0000 && Short(WordsBlock(ws), 4 * j + 2) == ws[j] % 0x1_0000
  {
    hide WordsBlock, ByteOf;
    StoredByte(ws, j, 0);
    StoredByte(ws, j, 1);
    StoredByte(ws, j, 2);
    StoredByte(ws, j, 3);
    Halves(ws[j]);
  }

  lemma Halves(w: u32)
    ensures Short(WordBytes(w), 0) == w / 0x1_0000 && Short(WordBytes(w), 2) == w % 0x1_0000
  {
    var h := w / 0x1_0000;
    assert w == h * 0x1_0000 + w % 0x1_0000;
    assert h / 256 == w / 0x100_0000;
  }

  lemma ZeroBlockInode()
    ensures DecodeInode(Zeros(BLOCKSIZE)) == BlankInode()
  {
    hide BlockWords;
    ZeroBlockWords();
    var ws: Words := ZeroWords();
    assert ws[2..17] == BlankInode().direct;
    assert ws[18..] == BlankInode().waste;
  }

  // ---- Directory entries -------------------------------------------------

  /** A C string: no NUL inside. */
  type Name = s: seq<byte> | 0 !in s witness []

  datatype Entry = Entry(ino: u32, name: Name)

  /** The characters before the first NUL. */
  function CStr(s: seq<byte>): (r: Name)
    ensures |r| <= |s| && r == s[..|r|]
    ensures |r| < |s| ==> s[|r|] == 0
  {
    if s == [] || s[0] == 0 then [] else [s[0]] + CStr(s[1..])
  }

  lemma {:induction false} CStrPadded(name: Name, n: nat)
    ensures CStr(name + Zeros(n)) == name
  {
    if name != [] {
      CStrPadded(name[1..], n);
      assert (name + Zeros(n))[1..] == name[1..] + Zeros(n);
      assert name[0] in name;
    }
  }

  /** The last byte of the name field is forced to NUL before it is compared. */
  function DecodeEntry(raw: seq<byte>): Entry
    requires |raw| == DIRSIZE
  {
    Entry(WordOf(raw[0], raw[1], raw[2], raw[3]), CStr(raw[4..][NAMELEN - 1 := 0]))
  }

  function EncodeEntry(ino: u32, name: Name): (raw: seq<byte>)
    requires |name| < NAMELEN
    ensures |raw| == DIRSIZE
  {
    WordBytes(ino) + name + Zeros(NAMELEN - |name|)
  }

  lemma EntryFields(ino: u32, name: Name)
    requires |name| < NAMELEN
    ensures var raw := EncodeEntry(ino, name);
      raw[..4] == WordBytes(ino) && raw[4..] == name + Zeros(NAMELEN - |name|)
  {
    hide WordBytes;
  }

  /** Where the number, the name and its padding are in a directory entry. */
  lemma EntryLayout(ino: u32, name: Name)
    requires |name| < NAMELEN
    ensures var raw := EncodeEntry(ino, name);
      && Long(raw, 0) == ino && raw[4..4 + |name|] == name
      && forall k :: 4 + |name| <= k < DIRSIZE ==> raw[k] == 0
  {
    hide ByteOf;
    Halves(ino);
    var raw := EncodeEntry(ino, name);
    assert raw[..4] == WordBytes(ino);
    assert raw[0] == raw[..4][0] && raw[1] == raw[..4][1] && raw[2] == raw[..4][2] && raw[3] == raw[..4][3];
  }

  lemma EntryRoundTrip(ino: u32, name: Name)
    requires |name| < NAMELEN
    ensures DecodeEntry(EncodeEntry(ino, name)) == Entry(ino, name)
  {
    hide EncodeEntry, ByteOf, WordOf, CStr;
    EntryFields(ino, name);
    var raw := EncodeEntry(ino, name);
    var field := name + Zeros(NAMELEN - |name|);
    assert raw[..4][0] == raw[0] && raw[..4][1] == raw[1] && raw[..4][2] == raw[2] && raw[..4][3] == raw[3];
    WordOfBytes(ino);
    assert field[NAMELEN - 1 := 0] == field;
    CStrPadded(name, NAMELEN - |name|);
  }

  /** A NUL cuts the string off at or before its own position. */
  lemma {:induction false} CStrStops(s: seq<byte>, k: nat)
    requires k < |s| && s[k] == 0
    ensures |CStr(s)| <= k
  {
    if s[0] != 0 {
      CStrStops(s[1..], k - 1);
    }
  }

  // ---- The free-block bitmap ---------------------------------------------

  function BitBlocks(nblocks: nat): nat {
    (nblocks + BLOCKBITS - 1) / BLOCKBITS
  }

  /** The bitmap takes as few blocks as have a bit for every block of the volume. */
  lemma BitBlocksLeast(nblocks: nat)
    ensures BitBlocks(nblocks) * BLOCKBITS >= nblocks
    ensures nblocks > 0 ==> (BitBlocks(nblocks) - 1) * BLOCKBITS < nblocks
  {
  }

  function BitmapSize(nblocks: nat): nat {
    BitBlocks(nblocks) * BLOCKBITS
  }

  /** First block after the superblock, the root inode and the bitmap. */
  function MetaEnd(nblocks: nat): nat {
    MAP + BitBlocks(nblocks)
  }
}
