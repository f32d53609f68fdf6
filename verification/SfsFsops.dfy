/** Syncing and mounting a volume (sfs_fsops.c:70-234, sfs_fsops.c:386-472). */
module SfsFsops {
  import opened Lib
  import opened Uios
  import opened Bitmaps
  import opened SfsLayout
  import opened SfsState
  import opened SfsSteps
  import opened SfsVolume
  import opened SfsBalloc
  import opened SfsBmap
  import opened SfsInode

  // ---------------------------------------------------------------- the volume as the disk has it

  /** The free map's bytes, read from its blocks. */
  function FreemapOf(disk: seq<Block>, blocks: nat): (words: seq<bv8>)
    requires FREEMAP_START + blocks <= |disk|
    ensures |words| == BLOCKSIZE * blocks
  {
    seq(BLOCKSIZE * blocks, p requires 0 <= p < BLOCKSIZE * blocks => ByteBits(disk[FREEMAP_START + p / BLOCKSIZE][p % BLOCKSIZE]))
  }

  /** A free map that has been written is the one that is read back. */
  lemma FreemapRoundTrip(disk: seq<Block>, words: seq<bv8>, blocks: nat)
    requires |words| == BLOCKSIZE * blocks && FreemapStored(disk, words, blocks)
    ensures FreemapOf(disk, blocks) == words
  {
    hide ByteBits;
    forall p | 0 <= p < |words|
      ensures FreemapOf(disk, blocks)[p] == words[p]
    {
      var j := p / BLOCKSIZE;
      assert BlockBits(disk[FREEMAP_START + j])[p % BLOCKSIZE] == FreemapWords(words, j)[p % BLOCKSIZE];
      assert p == j * BLOCKSIZE + p % BLOCKSIZE;
    }
  }

  /** Bytes made of bits give the bits back. */
  function BitsBlock(w: seq<bv8>): Block
    requires |w| == BLOCKSIZE
  {
    seq(BLOCKSIZE, p requires 0 <= p < BLOCKSIZE => w[p] as Byte)
  }

  lemma BlockBitsRoundTrip(w: seq<bv8>)
    requires |w| == BLOCKSIZE
    ensures BlockBits(BitsBlock(w)) == w
  {
    hide ByteBits;
    forall p | 0 <= p < BLOCKSIZE
      ensures BlockBits(BitsBlock(w))[p] == w[p]
    {
      ByteBitsRoundTrip(w[p]);
    }
  }

  /** The size of the free map as the code computes it, in 32 bits. */
  function MapBlocks(nblocks: nat): nat {
    (nblocks + BITSPERBLOCK - 1) % WORD_LIMIT / BITSPERBLOCK
  }

  /** For volumes of a size that the code can address, that is the size it should have. */
  lemma MapBlocksFit(nblocks: nat)
    requires nblocks <= MAXBLOCKS
    ensures MapBlocks(nblocks) == FreemapBlocks(nblocks)
  {
  }

  /** The device holds the free map that the superblock asks for. */
  predicate HasFreemap(disk: seq<Block>) {
    |disk| > 0 && FREEMAP_START + MapBlocks(WordAt(disk[SUPER_BLOCK], 1)) <= |disk|
  }

  /** A volume of a size that the code can address. */
  predicate Mountable(disk: seq<Block>) {
    && HasFreemap(disk) && IsSuper(disk[SUPER_BLOCK], WordAt(disk[SUPER_BLOCK], 1))
    && 0 < WordAt(disk[SUPER_BLOCK], 1) <= MAXBLOCKS
  }

  /** The volume computed from the disk alone. */
  ghost function MountedView(disk: seq<Block>): View
    requires HasFreemap(disk)
  {
    var nblocks := WordAt(disk[SUPER_BLOCK], 1);
    View(nblocks, disk, BitsOf(FreemapOf(disk, MapBlocks(nblocks))), map[])
  }

  /** Two views are the same volume: the same blocks in use, the same inodes, the same files. */
  ghost predicate SameVolume(v: View, w: View, live: set<nat>) {
    && v.nblocks == w.nblocks && v.marked == w.marked
    && (forall i :: i in live ==> InodeOf(w, i) == InodeOf(v, i))
    && (forall i, k: nat :: i in live ==> Slot(w, i, k) == Slot(v, i, k))
    && SameFiles(v, w, live)
  }

  lemma SameVolumeTransitive(u: View, v: View, w: View, live: set<nat>)
    requires SameVolume(u, v, live) && SameVolume(v, w, live)
    ensures SameVolume(u, w, live)
  {
    hide InodeOf, Slot, SameFiles;
    SameFilesTransitive(u, v, w, live);
  }

  /** Dropping all clean cached inodes loses nothing. */
  lemma CachesDropped(v: View, w: View, owner: map<nat, Owner>, live: set<nat>)
    requires Owned(v, owner, live) && w == v.(loaded := map[])
    requires forall i :: i in v.loaded ==> i < |v.disk| && v.disk[i] == EncodeInode(v.loaded[i])
    ensures Owned(w, owner, live) && SameVolume(v, w, live)
  {
    hide DecodeInode, EncodeInode, WordAt;
    forall i | i in live
      ensures InodeOf(w, i) == InodeOf(v, i)
    {
      FileBlocksOwned(v, owner, live, i);
      if i in v.loaded {
        InodeRoundTrip(v.loaded[i]);
      }
    }
    forall p | Proper(v.nblocks, live, p)
      ensures Place(w, p) == Place(v, p)
    {
    }
    SamePlaces(v, w, owner, live);
  }

  /** Rewriting the superblock or the free map on disk concerns no file. */
  lemma MetadataWritten(v: View, w: View, owner: map<nat, Owner>, live: set<nat>)
    requires Owned(v, owner, live) && w == v.(disk := w.disk) && |w.disk| == |v.disk|
    requires forall b :: 0 < b < |v.disk| && !(FREEMAP_START <= b < FREEMAP_START + FreemapBlocks(v.nblocks)) ==>
               w.disk[b] == v.disk[b]
    ensures Owned(w, owner, live) && SameVolume(v, w, live)
  {
    hide DecodeInode, WordAt;
    forall b | b in owner && !owner[b].SuperBlock? && !owner[b].FreemapBlock?
      ensures w.disk[b] == v.disk[b]
    {
      assert Place(v, SuperBlock) == 0;
      assert b >= FREEMAP_START ==> Place(v, FreemapBlock(b - FREEMAP_START)) == b;
    }
    forall i | i in live
      ensures InodeOf(w, i) == InodeOf(v, i) && SameFile(v, w, i)
      ensures forall k: nat :: Slot(w, i, k) == Slot(v, i, k)
    {
      UntouchedFile(v, w, owner, live, i);
    }
    forall p | Proper(v.nblocks, live, p)
      ensures Place(w, p) == Place(v, p)
    {
    }
    SamePlaces(v, w, owner, live);
  }

  // ---------------------------------------------------------------- syncing

  /** Reads or writes the whole free map, a block at a time. */
  method FreemapIo(fs: SfsFs, rw: Direction)
    requires fs.freemap.v.Length == BLOCKSIZE * MapBlocks(fs.nblocks)
    requires FREEMAP_START + MapBlocks(fs.nblocks) <= |fs.disk|
    modifies fs`disk, fs.freemap.v
    ensures |fs.disk| == |old(fs.disk)|
    ensures rw.Read? ==> fs.disk == old(fs.disk) && fs.freemap.v[..] == FreemapOf(fs.disk, MapBlocks(fs.nblocks))
    ensures rw.Write? ==> fs.freemap.v[..] == old(fs.freemap.v[..])
    ensures rw.Write? ==> FreemapStored(fs.disk, fs.freemap.v[..], MapBlocks(fs.nblocks))
    ensures rw.Write? ==> forall b :: 0 <= b < |fs.disk| && !(FREEMAP_START <= b < FREEMAP_START + MapBlocks(fs.nblocks)) ==>
              fs.disk[b] == old(fs.disk)[b]
  {
    var freemapblocks := MapBlocks(fs.nblocks);
    if rw.Read? {
      ReadFreemap(fs, freemapblocks);
    } else {
      WriteFreemapBlocks(fs, freemapblocks);
    }
  }

  method ReadFreemap(fs: SfsFs, blocks: nat)
    requires fs.freemap.v.Length == BLOCKSIZE * blocks && FREEMAP_START + blocks <= |fs.disk|
    modifies fs.freemap.v
    ensures fs.freemap.v[..] == FreemapOf(fs.disk, blocks)
  {
    hide ByteBits;
    for j := 0 to blocks
      invariant forall p :: 0 <= p < j * BLOCKSIZE ==> fs.freemap.v[p] == FreemapOf(fs.disk, blocks)[p]
    {
      var data := ReadBlock(fs, FREEMAP_START + j);
      forall p | 0 <= p < BLOCKSIZE
        ensures FreemapOf(fs.disk, blocks)[j * BLOCKSIZE + p] == ByteBits(data[p])
      {
        assert (j * BLOCKSIZE + p) / BLOCKSIZE == j && (j * BLOCKSIZE + p) % BLOCKSIZE == p;
      }
      forall p | 0 <= p < BLOCKSIZE {
        fs.freemap.v[j * BLOCKSIZE + p] := ByteBits(data[p]);
      }
      assert forall p :: j * BLOCKSIZE <= p < (j + 1) * BLOCKSIZE ==> fs.freemap.v[p] == ByteBits(data[p - j * BLOCKSIZE]);
    }
  }

  method WriteFreemapBlocks(fs: SfsFs, blocks: nat)
    requires fs.freemap.v.Length == BLOCKSIZE * blocks && FREEMAP_START + blocks <= |fs.disk|
    modifies fs`disk
    ensures |fs.disk| == |old(fs.disk)| && FreemapStored(fs.disk, fs.freemap.v[..], blocks)
    ensures forall b :: 0 <= b < |fs.disk| && !(FREEMAP_START <= b < FREEMAP_START + blocks) ==> fs.disk[b] == old(fs.disk)[b]
  {
    hide BlockBits, FreemapWords, BitsBlock;
    for j := 0 to blocks
      invariant |fs.disk| == |old(fs.disk)|
      invariant forall i: nat :: i < j ==> BlockBits(fs.disk[FREEMAP_START + i]) == FreemapWords(fs.freemap.v[..], i)
      invariant forall b :: 0 <= b < |fs.disk| && !(FREEMAP_START <= b < FREEMAP_START + j) ==> fs.disk[b] == old(fs.disk)[b]
    {
      var words := FreemapWords(fs.freemap.v[..], j);
      BlockBitsRoundTrip(words);
      WriteBlock(fs, FREEMAP_START + j, BitsBlock(words));
    }
  }

  /** Writes out every dirty inode in memory. */
  method SyncVnodes(fs: SfsFs)
    requires fs.Valid()
    modifies fs`disk, fs.table.Values`dirty
    ensures fs.Valid() && forall i :: i in fs.table ==> !fs.table[i].dirty
    ensures fs.State() == old(fs.State()).(disk := fs.disk) && SameVolume(old(fs.State()), fs.State(), fs.live)
  {
    hide Owned, Slot, InodeOf, SameFile, SameFiles, EncodeInode, SfsFs.State, SfsFs.Synced;
    ghost var v := fs.State();
    SameFilesReflexive(v, fs.live);
    StateFields(fs);
    for i := 0 to |fs.vnodes|
      invariant fs.Valid() && forall n :: 0 <= n < i ==> !fs.vnodes[n].dirty
      invariant fs.State() == v.(disk := fs.disk) && SameVolume(v, fs.State(), fs.live)
    {
      ghost var u := fs.State();
      var sv := fs.vnodes[i];
      SyncInode(fs, sv);
      SameVolumeTransitive(v, u, fs.State(), fs.live);
    }
  }

  ghost predicate AllClean(fs: SfsFs)
    reads fs`table, fs.table.Values
  {
    forall i :: i in fs.table ==> !fs.table[i].dirty
  }

  /** When only the superblock and the free map have been rewritten on disk, to what they
      should be, everything still fits. */
  lemma MetadataSound(fs: SfsFs, v: View, owner: map<nat, Owner>, live: set<nat>, disk: seq<Block>)
    requires fs.FreemapSized() && fs.TableValid() && fs.InodesStored(disk)
    requires fs.State() == v.(disk := fs.disk) && Owned(v, owner, live) && v.disk == disk && |fs.disk| == |disk|
    requires forall b :: 0 < b < |disk| && !(FREEMAP_START <= b < FREEMAP_START + FreemapBlocks(fs.nblocks)) ==>
               fs.disk[b] == disk[b]
    ensures fs.InodesStored(fs.disk)
    ensures Owned(fs.State(), owner, live) && SameVolume(v, fs.State(), live)
  {
    hide EncodeInode, DecodeInode, Slot, FreemapStored, Bitmap.Valid, Bitmap.Marked, Indexed;
    MetadataWritten(v, fs.State(), owner, live);
    forall ino | ino in fs.table && !fs.table[ino].dirty
      ensures fs.disk[ino] == EncodeInode(fs.table[ino].i)
    {
      assert ino in v.loaded;
      FileBlocksOwned(v, owner, live, ino);
      assert Place(v, InodeBlock(ino)) == ino;
      assert ino >= FREEMAP_START ==> Place(v, FreemapBlock(ino - FREEMAP_START)) == ino;
    }
  }

  lemma FreemapOnDisk(fs: SfsFs)
    requires fs.Valid()
    ensures FREEMAP_START + FreemapBlocks(fs.nblocks) <= |fs.disk|
    ensures fs.freemap.v.Length == BLOCKSIZE * FreemapBlocks(fs.nblocks)
  {
    hide Slot, InodeOf;
    var v, last := fs.State(), FreemapBlocks(fs.nblocks) - 1;
    assert Place(v, FreemapBlock(last)) == FREEMAP_START + last;
  }

  method SyncFreemap(fs: SfsFs)
    requires fs.Valid()
    modifies fs`disk, fs`freemapdirty, fs.freemap.v
    ensures fs.Valid() && !fs.freemapdirty
    ensures fs.State() == old(fs.State()).(disk := fs.disk) && SameVolume(old(fs.State()), fs.State(), fs.live)
  {
    hide Owned, Slot, InodeOf, SameFile, SameFiles, EncodeInode, IsSuper, BlockBits, FreemapWords, Indexed, SfsFs.InodesStored, SfsFs.TableValid;
    ghost var v := fs.State();
    SameFilesReflexive(v, fs.live);
    if fs.freemapdirty {
      FreemapOnDisk(fs);
      MapBlocksFit(fs.nblocks);
      FreemapIo(fs, Write);
      fs.freemapdirty := false;
      MetadataSound(fs, v, fs.owner, fs.live, v.disk);
    }
  }

  method SyncSuperblock(fs: SfsFs)
    requires fs.Valid()
    modifies fs`disk, fs`superdirty
    ensures fs.Valid() && !fs.superdirty
    ensures fs.State() == old(fs.State()).(disk := fs.disk) && SameVolume(old(fs.State()), fs.State(), fs.live)
  {
    hide Owned, Slot, InodeOf, SameFile, SameFiles, EncodeInode, IsSuper, BlockBits, FreemapWords, Indexed, SfsFs.InodesStored, SfsFs.TableValid;
    ghost var v := fs.State();
    SameFilesReflexive(v, fs.live);
    if fs.superdirty {
      WriteBlock(fs, SUPER_BLOCK, fs.sb);
      fs.superdirty := false;
      MetadataSound(fs, v, fs.owner, fs.live, v.disk);
    }
  }

  /** With nothing dirty, the disk alone determines the volume. */
  lemma CleanMeansOnDisk(fs: SfsFs)
    requires fs.Valid() && AllClean(fs) && !fs.freemapdirty
    ensures Mountable(fs.disk)
    ensures Owned(MountedView(fs.disk), fs.owner, fs.live) && SameVolume(fs.State(), MountedView(fs.disk), fs.live)
  {
    hide EncodeInode, DecodeInode, Slot, BlockBits, FreemapWords, Indexed, WordAt, FreemapOf, BitsOf, Recorded, Genuine, MarksOwned;
    FreemapOnDisk(fs);
    MapBlocksFit(fs.nblocks);
    FreemapRoundTrip(fs.disk, fs.freemap.v[..], FreemapBlocks(fs.nblocks));
    CachesDropped(fs.State(), MountedView(fs.disk), fs.owner, fs.live);
  }

  /** Syncing writes everything out and changes no file; afterwards the volume as a mount would
      read it from the disk is the volume as the kernel sees it. */
  method Sync(fs: SfsFs)
    requires fs.Valid()
    modifies fs`disk, fs`freemapdirty, fs`superdirty, fs.freemap.v, fs.table.Values`dirty
    ensures fs.Valid() && AllClean(fs) && !fs.freemapdirty && !fs.superdirty
    ensures SameVolume(old(fs.State()), fs.State(), fs.live)
    ensures Mountable(fs.disk)
    ensures Owned(MountedView(fs.disk), fs.owner, fs.live) && SameVolume(fs.State(), MountedView(fs.disk), fs.live)
  {
    hide Owned, SameVolume, SfsFs.State, SfsFs.Sound, Mountable, MountedView;
    ghost var v := fs.State();
    SyncVnodes(fs);
    ghost var u := fs.State();
    SyncFreemap(fs);
    ghost var w := fs.State();
    SyncSuperblock(fs);
    SameVolumeTransitive(v, u, w, fs.live);
    SameVolumeTransitive(v, w, fs.State(), fs.live);
    CleanMeansOnDisk(fs);
  }

  // ---------------------------------------------------------------- mounting

  /** Reads the superblock and the free map of a disk. The in-memory copy of the volume name is
      cut off at its last byte. Memory may run out for the volume or for its free map. Reading past
      the end of the device panics. */
  method DoMount(disk: seq<Block>, sectorSize: nat, memory: bool, mapMemory: bool, ghost owner: map<nat, Owner>, ghost live: set<nat>)
    returns (e: Errno, fs: SfsFs?)
    ensures e == if sectorSize != BLOCKSIZE then ENXIO
                 else if !memory then ENOMEM
                 else if |disk| == 0 then PANIC
                 else if WordAt(disk[SUPER_BLOCK], 0) != SFS_MAGIC then EINVAL
                 else if !mapMemory then ENOMEM
                 else if !HasFreemap(disk) then PANIC
                 else Ok
    ensures e == Ok ==>
              && fs != null && fresh(fs) && fresh(fs.freemap) && fresh(fs.freemap.v) && fs.State() == MountedView(disk)
              && fs.vnodes == [] && fs.table == map[] && !fs.freemapdirty && !fs.superdirty
              && fs.sb == disk[SUPER_BLOCK][VOLNAME_END - 1 := 0]
              && fs.owner == owner && fs.live == live
              && (fs.nblocks <= MAXBLOCKS && Owned(MountedView(disk), owner, live) ==> fs.Valid())
  {
    hide Owned, WordAt;
    fs := null;
    if sectorSize != BLOCKSIZE {
      return ENXIO, fs;
    }
    if !memory {
      return ENOMEM, fs;
    }
    if |disk| == 0 {
      return PANIC, fs;
    }
    var sb := disk[SUPER_BLOCK];
    if WordAt(sb, 0) != SFS_MAGIC {
      return EINVAL, fs;
    }
    var nblocks := WordAt(sb, 1);
    sb := sb[VOLNAME_END - 1 := 0];
    SameFirstWords(disk[SUPER_BLOCK], sb);
    if !mapMemory {
      return ENOMEM, fs;
    }
    var freemap := new Bitmap(BITSPERBLOCK * MapBlocks(nblocks));
    var sfs := new SfsFs(nblocks, freemap, disk, sb);
    if !HasFreemap(disk) {
      return PANIC, fs;
    }
    FreemapIo(sfs, Read);
    sfs.owner, sfs.live := owner, live;
    MountedStored(disk, sfs.freemap.v[..], MapBlocks(nblocks));
    e, fs := Ok, sfs;
    if nblocks <= MAXBLOCKS {
      MapBlocksFit(nblocks);
      if Owned(MountedView(disk), owner, live) {
        OwnedSize(MountedView(disk), owner, live);
      }
    }
  }

  lemma OwnedSize(v: View, owner: map<nat, Owner>, live: set<nat>)
    requires Owned(v, owner, live)
    ensures 0 < v.nblocks <= |v.disk|
  {
  }

  /** The volume name follows the magic number and the block count in the superblock. */
  const VOLNAME_END: nat := 40

  lemma SameFirstWords(a: Block, b: Block)
    requires b == a[VOLNAME_END - 1 := 0]
    ensures WordAt(b, 0) == WordAt(a, 0) && WordAt(b, 1) == WordAt(a, 1)
  {
  }

  lemma MountedStored(disk: seq<Block>, words: seq<bv8>, blocks: nat)
    requires FREEMAP_START + blocks <= |disk| && words == FreemapOf(disk, blocks)
    ensures FreemapStored(disk, words, blocks)
  {
    hide ByteBits;
    forall j: nat | j < blocks
      ensures BlockBits(disk[FREEMAP_START + j]) == FreemapWords(words, j)
    {
      forall p | 0 <= p < BLOCKSIZE
        ensures BlockBits(disk[FREEMAP_START + j])[p] == FreemapWords(words, j)[p]
      {
        assert (j * BLOCKSIZE + p) / BLOCKSIZE == j && (j * BLOCKSIZE + p) % BLOCKSIZE == p;
        assert FreemapWords(words, j)[p] == words[j * BLOCKSIZE + p];
      }
    }
  }
}
