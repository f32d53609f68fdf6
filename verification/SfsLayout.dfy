/** The on-disk format of SFS (include/kern/sfs.h): blocks as bytes, as 32-bit words, as inodes.

    Words are stored most significant byte first, as on the MIPS machine the kernel runs on;
    the kernel itself only ever reinterprets a block in place. */
module SfsLayout {
  import opened Lib

  const BLOCKSIZE: nat := 512
  const NDIRECT: nat := 15
  const NINDIRECT: nat := 1
  const DBPERIDB: nat := 128
  const MAXFILEBLOCKS: nat := NDIRECT + NINDIRECT * DBPERIDB
  const SUPER_BLOCK: nat := 0
  const ROOTDIR_INO: nat := 1
  const FREEMAP_START: nat := 2
  const BITSPERBLOCK: nat := 4096
  const SFS_MAGIC: nat := 0xabadf001
  const WORD_LIMIT: nat := 0x1_0000_0000
  const HALF_LIMIT: nat := 0x1_0000
  const NWASTE: nat := 110

  const TYPE_INVAL: nat := 0
  const TYPE_FILE: nat := 1
  const TYPE_DIR: nat := 2

  type Block = b: seq<Byte> | |b| == BLOCKSIZE witness seq(BLOCKSIZE, _ => 0)

  function ZeroBlock(): Block {
    seq(BLOCKSIZE, _ => 0)
  }

  // ---------------------------------------------------------------- words

  function WordOfBytes(b0: Byte, b1: Byte, b2: Byte, b3: Byte): (w: nat)
    ensures w < WORD_LIMIT
  {
    (((b0 as nat) * 256 + (b1 as nat)) * 256 + (b2 as nat)) * 256 + (b3 as nat)
  }

  function ByteOfWord(w: nat, i: nat): Byte
    requires i < 4
  {
    match i
    case 0 => (w / 256 / 256 / 256 % 256) as Byte
    case 1 => (w / 256 / 256 % 256) as Byte
    case 2 => (w / 256 % 256) as Byte
    case _ => (w % 256) as Byte
  }

  function WordAt(b: Block, i: nat): (w: nat)
    requires i < DBPERIDB
    ensures w < WORD_LIMIT
  {
    WordOfBytes(b[4 * i], b[4 * i + 1], b[4 * i + 2], b[4 * i + 3])
  }

  function WordsOfBlock(b: Block): (w: seq<nat>)
    ensures AreWords(w)
  {
    seq(DBPERIDB, i requires 0 <= i < DBPERIDB => WordAt(b, i))
  }

  /** The contents of a block-sized array of 32-bit integers. */
  predicate AreWords(w: seq<nat>) {
    |w| == DBPERIDB && forall i :: 0 <= i < |w| ==> w[i] < WORD_LIMIT
  }

  function BlockOfWords(w: seq<nat>): Block
    requires AreWords(w)
  {
    seq(BLOCKSIZE, p requires 0 <= p < BLOCKSIZE => ByteOfWord(w[p / 4], p % 4))
  }

  lemma WordBytesRoundTrip(w: nat)
    requires w < WORD_LIMIT
    ensures WordOfBytes(ByteOfWord(w, 0), ByteOfWord(w, 1), ByteOfWord(w, 2), ByteOfWord(w, 3)) == w
  {
    var q := w / 256;
    var p := q / 256;
    assert p / 256 < 256;
  }

  lemma BytesWordRoundTrip(b0: Byte, b1: Byte, b2: Byte, b3: Byte)
    ensures var w := WordOfBytes(b0, b1, b2, b3);
            ByteOfWord(w, 0) == b0 && ByteOfWord(w, 1) == b1 && ByteOfWord(w, 2) == b2 && ByteOfWord(w, 3) == b3
  {
    var w := WordOfBytes(b0, b1, b2, b3);
    assert w / 256 == ((b0 as nat) * 256 + (b1 as nat)) * 256 + (b2 as nat);
    assert w / 256 / 256 == (b0 as nat) * 256 + (b1 as nat);
    assert w / 256 / 256 / 256 == b0 as nat;
  }

  /** Writing an integer array to a block and reading it back gives the same integers. */
  lemma WordsRoundTrip(w: seq<nat>)
    requires AreWords(w)
    ensures WordsOfBlock(BlockOfWords(w)) == w
  {
    var b := BlockOfWords(w);
    forall i | 0 <= i < DBPERIDB
      ensures WordAt(b, i) == w[i]
    {
      WordBytesRoundTrip(w[i]);
      assert 4 * i / 4 == i && (4 * i + 1) / 4 == i && (4 * i + 2) / 4 == i && (4 * i + 3) / 4 == i;
    }
  }

  lemma BlockRoundTrip(b: Block)
    ensures BlockOfWords(WordsOfBlock(b)) == b
  {
    var w := WordsOfBlock(b);
    forall p | 0 <= p < BLOCKSIZE
      ensures ByteOfWord(w[p / 4], p % 4) == b[p]
    {
      var i := p / 4;
      BytesWordRoundTrip(b[4 * i], b[4 * i + 1], b[4 * i + 2], b[4 * i + 3]);
    }
  }

  lemma ZeroBlockWords()
    ensures forall i :: 0 <= i < DBPERIDB ==> WordAt(ZeroBlock(), i) == 0
  {
  }

  // ---------------------------------------------------------------- inodes

  datatype Dinode = Dinode(size: nat, typ: nat, links: nat, direct: seq<nat>, indirect: nat, waste: seq<nat>)

  /** The field widths of struct sfs_dinode. */
  predicate FitsDisk(d: Dinode) {
    && d.size < WORD_LIMIT && d.typ < HALF_LIMIT && d.links < HALF_LIMIT
    && |d.direct| == NDIRECT && (forall i :: 0 <= i < NDIRECT ==> d.direct[i] < WORD_LIMIT)
    && d.indirect < WORD_LIMIT
    && |d.waste| == NWASTE && (forall i :: 0 <= i < NWASTE ==> d.waste[i] < WORD_LIMIT)
  }

  function InodeWords(d: Dinode): (w: seq<nat>)
    requires FitsDisk(d)
    ensures AreWords(w)
  {
    [d.size, d.typ * HALF_LIMIT + d.links] + d.direct + [d.indirect] + d.waste
  }

  function EncodeInode(d: Dinode): Block
    requires FitsDisk(d)
  {
    BlockOfWords(InodeWords(d))
  }

  function InodeOfWords(w: seq<nat>): (d: Dinode)
    requires AreWords(w)
    ensures FitsDisk(d)
  {
    Dinode(w[0], w[1] / HALF_LIMIT, w[1] % HALF_LIMIT, w[2..17], w[17], w[18..])
  }

  function DecodeInode(b: Block): (d: Dinode)
    ensures FitsDisk(d)
  {
    InodeOfWords(WordsOfBlock(b))
  }

  lemma InodeWordsRoundTrip(d: Dinode)
    requires FitsDisk(d)
    ensures InodeOfWords(InodeWords(d)) == d
  {
    var w := InodeWords(d);
    assert w[2..17] == d.direct && w[18..] == d.waste;
  }

  /** An inode survives being written to its block and loaded again. */
  lemma InodeRoundTrip(d: Dinode)
    requires FitsDisk(d)
    ensures DecodeInode(EncodeInode(d)) == d
  {
    hide InodeWords, InodeOfWords, BlockOfWords, WordsOfBlock;
    WordsRoundTrip(InodeWords(d));
    InodeWordsRoundTrip(d);
  }

  /** The inode a freshly cleared block holds: no type, no links, no blocks. */
  lemma ZeroInode()
    ensures var d := DecodeInode(ZeroBlock());
            && d.size == 0 && d.typ == TYPE_INVAL && d.links == 0 && d.indirect == 0
            && forall i :: 0 <= i < NDIRECT ==> d.direct[i] == 0
  {
    hide WordAt;
    ZeroBlockWords();
    var w := WordsOfBlock(ZeroBlock());
    assert w[0] == 0 && w[1] == 0 && w[17] == 0;
    assert forall i :: 0 <= i < NDIRECT ==> w[2..17][i] == w[i + 2] == 0;
  }
}
