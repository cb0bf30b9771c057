/** Bytes, big-endian 32-bit words and 512-byte disk blocks. */
module Words {

  type byte = x: int | 0 <= x < 256
  type u16 = x: int | 0 <= x < 0x1_0000
  type u32 = x: int | 0 <= x < 0x1_0000_0000

  const BLOCKSIZE: nat := 512
  const DBPERIDB: nat := 128

  type Block = b: seq<byte> | |b| == BLOCKSIZE witness Zeros(BLOCKSIZE)
  type Words = ws: seq<u32> | |ws| == DBPERIDB witness ZeroWords()

  function Zeros(n: nat): (s: seq<byte>)
    ensures |s| == n && forall k :: 0 <= k < n ==> s[k] == 0
  {
    seq(n, _ => 0)
  }

  function ZeroWords(): (ws: seq<u32>)
    ensures |ws| == DBPERIDB && forall k :: 0 <= k < DBPERIDB ==> ws[k] == 0
  {
    seq(DBPERIDB, _ => 0)
  }

  /** The machine is big-endian: the first byte of a word is its most significant one. */
  function WordOf(b0: byte, b1: byte, b2: byte, b3: byte): u32 {
    ((b0 * 256 + b1) * 256 + b2) * 256 + b3
  }

  function ByteOf(w: u32, k: nat): byte
    requires k < 4
  {
    if k == 0 then w / 0x100_0000
    else if k == 1 then w / 0x1_0000 % 256
    else if k == 2 then w / 256 % 256
    else w % 256
  }

  function WordBytes(w: u32): (s: seq<byte>)
    ensures |s| == 4
  {
    [ByteOf(w, 0), ByteOf(w, 1), ByteOf(w, 2), ByteOf(w, 3)]
  }

  lemma WordOfBytes(w: u32)
    ensures WordOf(ByteOf(w, 0), ByteOf(w, 1), ByteOf(w, 2), ByteOf(w, 3)) == w
  {
    assert w == w / 256 * 256 + w % 256;
    var h := w / 256;
    assert h == h / 256 * 256 + h % 256;
    assert h / 256 == w / 0x1_0000;
    var g := h / 256;
    assert g == g / 256 * 256 + g % 256;
    assert g / 256 == w / 0x100_0000;
  }

  lemma BytesOfWord(b0: byte, b1: byte, b2: byte, b3: byte)
    ensures WordBytes(WordOf(b0, b1, b2, b3)) == [b0, b1, b2, b3]
  {
    var g := b0 * 256 + b1;
    var h := g * 256 + b2;
    var w := h * 256 + b3;
    assert w / 256 == h && w % 256 == b3;
    assert w / 0x1_0000 == g by { assert w == g * 0x1_0000 + (b2 * 256 + b3); }
    assert h % 256 == b2;
    assert w / 0x100_0000 == b0 by { assert w == b0 * 0x100_0000 + (b1 * 0x1_0000 + b2 * 256 + b3); }
    assert g % 256 == b1;
  }

  /** Word j of a block, as an aligned 32-bit load reads it. */
  function WordAt(b: Block, j: nat): u32
    requires j < DBPERIDB
  {
    WordOf(b[4 * j], b[4 * j + 1], b[4 * j + 2], b[4 * j + 3])
  }

  function BlockWords(b: Block): Words {
    seq(DBPERIDB, j requires 0 <= j < DBPERIDB => WordAt(b, j))
  }

  function WordsBlock(ws: Words): Block {
    seq(BLOCKSIZE, k requires 0 <= k < BLOCKSIZE => ByteOf(ws[k / 4], k % 4))
  }

  lemma StoredByte(ws: Words, j: nat, m: nat)
    requires j < DBPERIDB && m < 4
    ensures WordsBlock(ws)[4 * j + m] == ByteOf(ws[j], m)
  {
    assert (4 * j + m) / 4 == j && (4 * j + m) % 4 == m;
  }

  lemma StoredWord(ws: Words, j: nat)
    requires j < DBPERIDB
    ensures WordAt(WordsBlock(ws), j) == ws[j]
  {
    hide WordsBlock, ByteOf, WordOf;
    StoredByte(ws, j, 0);
    StoredByte(ws, j, 1);
    StoredByte(ws, j, 2);
    StoredByte(ws, j, 3);
    WordOfBytes(ws[j]);
  }

  /** Storing an array of words and loading it back gives the array. */
  lemma WordsRoundTrip(ws: Words)
    ensures BlockWords(WordsBlock(ws)) == ws
  {
    hide WordsBlock, WordAt;
    forall j: nat | j < DBPERIDB
      ensures WordAt(WordsBlock(ws), j) == ws[j]
    {
      StoredWord(ws, j);
    }
  }

  lemma LoadedByte(b: Block, k: nat)
    requires k < BLOCKSIZE
    ensures ByteOf(WordAt(b, k / 4), k % 4) == b[k]
  {
    hide ByteOf, WordOf;
    var j := k / 4;
    BytesOfWord(b[4 * j], b[4 * j + 1], b[4 * j + 2], b[4 * j + 3]);
    var w := WordBytes(WordAt(b, j));
    assert w[0] == b[4 * j] && w[1] == b[4 * j + 1] && w[2] == b[4 * j + 2] && w[3] == b[4 * j + 3];
    assert k == 4 * j + k % 4;
  }

  /** Loading a block as words and storing the words gives the block: no byte is lost. */
  lemma BlockRoundTrip(b: Block)
    ensures WordsBlock(BlockWords(b)) == b
  {
    hide WordAt, ByteOf;
    forall k: nat | k < BLOCKSIZE
      ensures WordsBlock(BlockWords(b))[k] == b[k]
    {
      LoadedByte(b, k);
    }
  }

  lemma ZeroBlockWords()
    ensures BlockWords(Zeros(BLOCKSIZE)) == ZeroWords()
  {
    var z: Block := Zeros(BLOCKSIZE);
    forall j: nat | j < DBPERIDB
      ensures WordAt(z, j) == 0
    {
      assert z[4 * j] == 0 && z[4 * j + 1] == 0 && z[4 * j + 2] == 0 && z[4 * j + 3] == 0;
    }
  }

  // ---- Laying bytes over bytes -------------------------------------------

  /** s with d laid over it from position at; an empty d changes nothing, wherever it would go. */
  function Patch(s: seq<byte>, at: nat, d: seq<byte>): (r: seq<byte>)
    requires d != [] ==> at + |d| <= |s|
    ensures |r| == |s|
  {
    if d == [] then s else s[..at] + d + s[at + |d|..]
  }

  lemma PatchAt(s: seq<byte>, at: nat, d: seq<byte>, k: nat)
    requires d != [] ==> at + |d| <= |s|
    requires k < |s|
    ensures Patch(s, at, d)[k] == if at <= k < at + |d| then d[k - at] else s[k]
  {
  }

  lemma PatchTwice(s: seq<byte>, at: nat, d: seq<byte>, e: seq<byte>)
    requires d + e != [] ==> at + |d| + |e| <= |s|
    ensures Patch(Patch(s, at, d), at + |d|, e) == Patch(s, at, d + e)
  {
    var p := Patch(s, at, d);
    var l := Patch(p, at + |d|, e);
    var r := Patch(s, at, d + e);
    forall k: nat | k < |s|
      ensures l[k] == r[k]
    {
      PatchAt(s, at, d, k);
      PatchAt(p, at + |d|, e, k);
      PatchAt(s, at, d + e, k);
    }
  }
}
