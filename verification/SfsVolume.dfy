/** A mounted volume and its vnodes (include/sfs.h), and block-level I/O and allocation
    (sfs_io.c:58-132, sfs_balloc.c). The device is an array of blocks that never fails. */
module SfsVolume {
  import opened Uios
  import opened Bitmaps
  import opened SfsLayout
  import opened SfsState
  import opened SfsSteps

  /** Block numbers are multiplied by the block size in 32 bits. */
  const MAXBLOCKS: nat := 0x80_0000

  /** What an operation comes to; in the last case the kernel stops. */
  datatype Errno = Ok | ENOSPC | EFBIG | ENOENT | EEXIST | ENAMETOOLONG | EINVAL | EBUSY | ENOMEM | ENXIO | PANIC

  class SfsVnode {
    const ino: nat
    var i: Inode
    var dirty: bool
    var refcount: nat

    constructor (ino: nat, i: Inode)
      ensures this.ino == ino && this.i == i && !dirty && refcount == 1
    {
      this.ino, this.i, this.dirty, this.refcount := ino, i, false, 1;
    }
  }

  /** The part of the free map that goes into its block j. */
  function FreemapWords(words: seq<bv8>, j: nat): (w: seq<bv8>)
    requires (j + 1) * BLOCKSIZE <= |words|
    ensures |w| == BLOCKSIZE
  {
    words[j * BLOCKSIZE..(j + 1) * BLOCKSIZE]
  }

  /** The bytes of a block as the free map sees them. */
  function BlockBits(b: Block): seq<bv8> {
    seq(BLOCKSIZE, p requires 0 <= p < BLOCKSIZE => ByteBits(b[p]))
  }

  ghost predicate FreemapStored(disk: seq<Block>, words: seq<bv8>, blocks: nat)
    requires BLOCKSIZE * blocks <= |words|
  {
    && FREEMAP_START + blocks <= |disk|
    && forall j: nat :: j < blocks ==> BlockBits(disk[FREEMAP_START + j]) == FreemapWords(words, j)
  }

  /** A superblock says what the volume is and how large. */
  predicate IsSuper(b: Block, nblocks: nat) {
    WordAt(b, 0) == SFS_MAGIC && WordAt(b, 1) == nblocks
  }

  /** The array of vnodes and the table by inode number hold the same vnodes, each once. */
  ghost predicate Indexed(table: map<nat, SfsVnode>, vnodes: seq<SfsVnode>) {
    && (forall ino :: ino in table ==> table[ino].ino == ino && table[ino] in vnodes)
    && (forall n :: 0 <= n < |vnodes| ==> vnodes[n].ino in table && table[vnodes[n].ino] == vnodes[n])
    && (forall m, n :: 0 <= m < n < |vnodes| ==> vnodes[m] != vnodes[n])
  }

  class SfsFs {
    const nblocks: nat
    const freemap: Bitmap
    var disk: seq<Block>
    var vnodes: seq<SfsVnode>
    var freemapdirty: bool
    var superdirty: bool
    var sb: Block

    /** The vnode table indexed by inode number, the owner of each block in use, and the
        numbers of all inodes in existence. */
    ghost var table: map<nat, SfsVnode>
    ghost var owner: map<nat, Owner>
    ghost var live: set<nat>

    constructor (nblocks: nat, freemap: Bitmap, disk: seq<Block>, sb: Block)
      ensures this.nblocks == nblocks && this.freemap == freemap && this.disk == disk && this.sb == sb
      ensures vnodes == [] && table == map[] && !freemapdirty && !superdirty
    {
      this.nblocks, this.freemap, this.disk, this.sb := nblocks, freemap, disk, sb;
      vnodes, table, freemapdirty, superdirty := [], map[], false, false;
    }

    /** The cached inodes. */
    ghost function Loaded(): map<nat, Inode>
      reads this`table, table.Values
    {
      map ino | ino in table :: table[ino].i
    }

    ghost function State(): View
      reads this`disk, this`table, freemap.v, table.Values
    {
      View(nblocks, disk, freemap.Marked(), Loaded())
    }

    ghost predicate Holds(sv: SfsVnode)
      reads this`table
    {
      sv.ino in table && table[sv.ino] == sv
    }

    /** The vnode array holds each loaded inode exactly once, and somebody uses each. */
    ghost predicate TableValid()
      reads this`table, this`vnodes, table.Values
    {
      Indexed(table, vnodes) && forall ino :: ino in table ==> table[ino].refcount > 0
    }

    ghost predicate FreemapSized()
      reads freemap.v
    {
      && freemap.Valid() && freemap.nbits == BITSPERBLOCK * FreemapBlocks(nblocks)
      && 0 < nblocks <= MAXBLOCKS
    }

    /** A clean cached inode is what its disk block says. */
    ghost predicate InodesStored(disk: seq<Block>)
      reads this`table, table.Values
    {
      forall ino :: ino in table && !table[ino].dirty ==> ino < |disk| && disk[ino] == EncodeInode(table[ino].i)
    }

    /** A clean cache agrees with the disk. */
    ghost predicate Synced()
      reads this`disk, this`table, this`freemapdirty, this`sb, freemap.v, table.Values
      requires FreemapSized()
    {
      && |disk| > 0 && IsSuper(disk[SUPER_BLOCK], nblocks) && IsSuper(sb, nblocks)
      && InodesStored(disk) && (!freemapdirty ==> FreemapStored(disk, freemap.v[..], FreemapBlocks(nblocks)))
    }

    /** Everything that does not depend on which block belongs to whom. */
    ghost predicate Sound()
      reads this`disk, this`table, this`vnodes, this`freemapdirty, this`sb, freemap.v, table.Values
    {
      FreemapSized() && TableValid() && Synced()
    }

    ghost predicate Valid()
      reads this, freemap.v, table.Values
    {
      Sound() && Owned(State(), owner, live)
    }
  }

  /** A held vnode is the cached copy of its inode. */
  lemma HeldInode(fs: SfsFs, sv: SfsVnode)
    requires fs.Holds(sv)
    ensures sv.ino in fs.State().loaded && fs.State().loaded[sv.ino] == sv.i
    ensures InodeOf(fs.State(), sv.ino) == sv.i
    ensures fs.State().nblocks == fs.nblocks && fs.State().disk == fs.disk && fs.State().marked == fs.freemap.Marked()
  {
  }

  lemma StateFields(fs: SfsFs)
    ensures fs.State().nblocks == fs.nblocks && fs.State().disk == fs.disk && fs.State().marked == fs.freemap.Marked()
  {
  }

  lemma HeldIsLive(fs: SfsFs, sv: SfsVnode)
    requires fs.Valid() && fs.Holds(sv)
    ensures sv.ino in fs.live && 0 < sv.ino < fs.nblocks <= |fs.disk|
  {
    HeldInode(fs, sv);
    FileBlocksOwned(fs.State(), fs.owner, fs.live, sv.ino);
  }

  /** Stores new inode contents in a vnode and marks it dirty. */
  method SetInode(fs: SfsFs, sv: SfsVnode, d: Inode)
    requires fs.Sound() && fs.Holds(sv)
    modifies sv`i, sv`dirty
    ensures fs.Sound() && sv.i == d && sv.dirty
    ensures fs.State() == WithInode(old(fs.State()), sv.ino, d)
  {
    hide EncodeInode, FreemapStored, IsSuper, FitsDisk, Bitmap.Marked;
    sv.i := d;
    sv.dirty := true;
    assert fs.Loaded() == old(fs.Loaded())[sv.ino := d];
  }
}
