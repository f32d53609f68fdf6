/** The bytes of an SFS volume, field by field (include/kern/sfs.h:66-98). */
module SfsFormat {
  import opened Lib
  import opened Uios
  import opened Bitmaps
  import opened SfsLayout
  import opened SfsState
  import opened SfsFiles
  import opened SfsNames
  import opened SfsVolume
  import opened SfsFsops
  import opened SfsEmpty

  /** The number that two or four bytes stand for, the first the most significant. */
  function Short(b: seq<Byte>, p: nat): nat
    requires p + 2 <= |b|
  {
    0x100 * (b[p] as nat) + (b[p + 1] as nat)
  }

  function Long(b: seq<Byte>, p: nat): nat
    requires p + 4 <= |b|
  {
    0x100_0000 * (b[p] as nat) + 0x1_0000 * (b[p + 1] as nat) + 0x100 * (b[p + 2] as nat) + (b[p + 3] as nat)
  }

  // ---------------------------------------------------------------- inodes

  lemma WordBytes(b: Block, i: nat)
    requires i < DBPERIDB
    ensures WordAt(b, i) == Long(b, 4 * i) && WordAt(b, i) == HALF_LIMIT * Short(b, 4 * i) + Short(b, 4 * i + 2)
  {
  }

  /** Where each field of an inode is in its block. */
  lemma InodeBytes(b: Block)
    ensures var d := DecodeInode(b);
            && d.size == Long(b, 0) && d.typ == Short(b, 4) && d.links == Short(b, 6)
            && (forall k :: 0 <= k < NDIRECT ==> d.direct[k] == Long(b, 8 + 4 * k))
            && d.indirect == Long(b, 68)
  {
    hide WordAt;
    var w := WordsOfBlock(b);
    WordBytes(b, 0);
    WordBytes(b, 1);
    WordBytes(b, 17);
    forall k | 0 <= k < NDIRECT
      ensures w[2..17][k] == Long(b, 8 + 4 * k)
    {
      WordBytes(b, k + 2);
    }
  }

  /** An inode is written to those bytes. */
  lemma InodeWritten(d: Dinode)
    requires FitsDisk(d)
    ensures var b := EncodeInode(d);
            && Long(b, 0) == d.size && Short(b, 4) == d.typ && Short(b, 6) == d.links
            && (forall k :: 0 <= k < NDIRECT ==> Long(b, 8 + 4 * k) == d.direct[k])
            && Long(b, 68) == d.indirect
  {
    hide DecodeInode, EncodeInode;
    InodeRoundTrip(d);
    InodeBytes(EncodeInode(d));
  }

  /** Entry j of an indirect block. */
  lemma IndirectBytes(v: View, block: nat, j: nat)
    requires block < |v.disk| && j < DBPERIDB
    ensures IndirectWord(v, block, j) == Long(v.disk[block], 4 * j)
  {
    WordBytes(v.disk[block], j);
  }

  /** Where the number of the disk block behind block k of a file is found. */
  lemma SlotBytes(v: View, ino: nat, k: nat)
    requires ino !in v.loaded && ino < |v.disk|
    ensures var b, at := v.disk[ino], Long(v.disk[ino], 68);
            Slot(v, ino, k) == if k < 15 then Long(b, 8 + 4 * k)
                               else if k < 143 && 0 < at < |v.disk| then Long(v.disk[at], 4 * (k - 15))
                               else 0
  {
    hide DecodeInode, WordAt;
    InodeBytes(v.disk[ino]);
    if 15 <= k < 143 && Long(v.disk[ino], 68) < |v.disk| {
      IndirectBytes(v, Long(v.disk[ino], 68), k - 15);
    }
  }

  // ---------------------------------------------------------------- directory entries

  lemma {:induction false} CStringIs(s: seq<Byte>)
    ensures var n := |CString(s)|; s[..n] == CString(s) && (n < |s| ==> s[n] == 0)
  {
    if s != [] && s[0] != 0 {
      CStringIs(s[1..]);
      var n := |CString(s[1..])|;
      assert s[..n + 1] == [s[0]] + s[1..][..n];
    }
  }

  /** Where the fields of a directory entry are in its 64 bytes. The name ends at its first zero byte, or
      with the last byte but one. */
  lemma DirentBytes(b: seq<Byte>)
    requires |b| == DIRENTSIZE
    ensures var e := DecodeDirent(b);
            && e.ino == Long(b, 0)
            && |e.name| <= 59 && b[4..4 + |e.name|] == e.name && (|e.name| < 59 ==> b[4 + |e.name|] == 0)
  {
    var s := b[4..DIRENTSIZE - 1];
    CStringIs(s);
    var n := |CString(s)|;
    assert b[4..4 + n] == s[..n];
  }

  /** An entry is written to those bytes, with zeros behind the name. */
  lemma DirentWritten(e: Dirent)
    requires e.ino < WORD_LIMIT && |e.name| < NAMELEN
    ensures var b := EncodeDirent(e);
            && Long(b, 0) == e.ino && b[4..4 + |e.name|] == e.name
            && forall p :: 4 + |e.name| <= p < 64 ==> b[p] == 0
  {
    hide DecodeDirent;
    DirentRoundTrip(e);
    DirentBytes(EncodeDirent(e));
  }

  /** The entries follow each other in the blocks of the directory, eight to a block. */
  lemma EntryBytes(v: View, s: nat)
    ensures EntryAt(v, s) == DecodeDirent(FileBlock(v, ROOTDIR_INO, s / 8)[64 * (s % 8)..64 * (s % 8) + 64])
  {
    hide DecodeDirent, FileBlock;
    var c, b := Contents(v, ROOTDIR_INO, s * DIRENTSIZE, DIRENTSIZE), FileBlock(v, ROOTDIR_INO, s / 8);
    forall p | 0 <= p < 64
      ensures c[p] == b[64 * (s % 8)..64 * (s % 8) + 64][p]
    {
      assert (s * 64 + p) / BLOCKSIZE == s / 8 && (s * 64 + p) % BLOCKSIZE == 64 * (s % 8) + p;
    }
    assert c == b[64 * (s % 8)..64 * (s % 8) + 64];
  }

  // ---------------------------------------------------------------- the superblock and the free map

  /** The magic number and the number of blocks are the first eight bytes of the superblock. */
  lemma SuperBytes(b: Block, nblocks: nat)
    ensures IsSuper(b, nblocks) <==> b[0] == 0xab && b[1] == 0xad && b[2] == 0xf0 && b[3] == 0x01 && nblocks == Long(b, 4)
  {
    hide WordAt;
    WordBytes(b, 0);
    WordBytes(b, 1);
  }

  /** Each block of the free map speaks of 4096 blocks of the volume, each byte of eight, beginning with
      its least significant bit; what has no bit is not marked. */
  lemma FreemapBits(disk: seq<Block>, blocks: nat, k: nat)
    requires FREEMAP_START + blocks <= |disk|
    ensures k in BitsOf(FreemapOf(disk, blocks)) <==>
              k < 4096 * blocks && (disk[2 + k / 4096][k % 4096 / 8] as bv8) & (1 << (k % 8)) != 0
  {
    var words := FreemapOf(disk, blocks);
    if k < 4096 * blocks {
      assert k / 8 / BLOCKSIZE == k / 4096 && k / 8 % BLOCKSIZE == k % 4096 / 8;
      assert words[k / 8] == ByteBits(disk[2 + k / 4096][k % 4096 / 8]);
    }
  }

  // ---------------------------------------------------------------- an empty volume

  /** A block that begins with the given bytes and is filled up with another. */
  function Filled(start: seq<Byte>, fill: Byte): Block
    requires |start| <= BLOCKSIZE
  {
    start + seq(BLOCKSIZE - |start|, _ => fill)
  }

  /** An empty volume of eight blocks: the superblock, the root directory (type 2, one link), the free map
      with the first three blocks and all beyond the eighth marked, and five free blocks. */
  function EightBlocks(): seq<Block> {
    [Filled([0xab, 0xad, 0xf0, 0x01, 0, 0, 0, 8], 0), Filled([0, 0, 0, 0, 0, 2, 0, 1], 0), Filled([0x07], 0xff),
     Filled([], 0), Filled([], 0), Filled([], 0), Filled([], 0), Filled([], 0)]
  }

  /** The bits of the first byte of the map, and of all others. */
  lemma SevenAndFull(b: nat)
    requires b < 4096
    ensures ((if b / 8 == 0 then 0x07 else 0xff) as bv8) & (1 << (b % 8)) != 0 <==> b < 3 || 8 <= b
  {
  }

  lemma MapBits(b: nat)
    ensures b in BitsOf(FreemapOf(EightBlocks(), 1)) <==> b < 3 || 8 <= b < 4096
  {
    hide FreemapOf, BitsOf;
    FreemapBits(EightBlocks(), 1, b);
    if b < 4096 {
      var p := b / 8;
      assert EightBlocks()[2][p] == if p == 0 then 0x07 else 0xff;
      SevenAndFull(b);
    }
  }

  /** That is an empty volume: it can be mounted, and what is said of such volumes is said of it. */
  lemma EightBlocksEmpty()
    ensures IsEmptyVolume(EightBlocks())
  {
    hide WordAt, DecodeInode, FreemapOf, BitsOf;
    var disk := EightBlocks();
    SuperBytes(disk[0], 8);
    InodeBytes(disk[1]);
    forall b: nat
      ensures b in BitsOf(FreemapOf(disk, 1)) <==> b < 3 || 8 <= b < 4096
    {
      MapBits(b);
    }
  }
}
