/** Block I/O and block allocation (sfs_io.c:58-132, sfs_balloc.c). */
module SfsBalloc {
  import opened Bitmaps
  import opened SfsLayout
  import opened SfsState
  import opened SfsSteps
  import opened SfsVolume

  method ReadBlock(fs: SfsFs, block: nat) returns (data: Block)
    requires block < |fs.disk|
    ensures data == fs.disk[block]
  {
    data := fs.disk[block];
  }

  method WriteBlock(fs: SfsFs, block: nat, data: Block)
    requires block < |fs.disk|
    modifies fs`disk
    ensures fs.disk == old(fs.disk)[block := data]
  {
    fs.disk := fs.disk[block := data];
  }

  /** Neither the superblock, nor a loaded inode, nor a part of the free map. */
  ghost predicate IsData(fs: SfsFs, block: nat)
    reads fs`table
  {
    block != SUPER_BLOCK && block !in fs.table && (block < FREEMAP_START || FREEMAP_START + FreemapBlocks(fs.nblocks) <= block)
  }

  /** Free blocks, indirect blocks and file data lie apart from the cached metadata. */
  lemma OwnedIsData(fs: SfsFs, block: nat)
    requires fs.Valid()
    requires block !in fs.owner || fs.owner[block].DataBlock? || fs.owner[block].IndirectBlock?
    ensures IsData(fs, block)
  {
    hide EncodeInode, IsSuper, BlockBits, FreemapWords, Slot, InodeOf, MarksOwned;
    var v := fs.State();
    assert Place(v, InodeBlock(block)) == block;
    assert Place(v, SuperBlock) == SUPER_BLOCK;
    assert FREEMAP_START <= block ==> Place(v, FreemapBlock(block - FREEMAP_START)) == block;
  }

  /** Writing such a block leaves the caches in step with the disk. */
  method WriteData(fs: SfsFs, block: nat, data: Block)
    requires fs.Sound() && block < |fs.disk| && IsData(fs, block)
    modifies fs`disk
    ensures fs.Sound()
    ensures fs.State() == WithBlock(old(fs.State()), block, data)
  {
    hide EncodeInode, IsSuper, BlockBits, FreemapWords, SfsFs.Loaded, SfsFs.TableValid, Bitmap.Marked;
    WriteBlock(fs, block, data);
  }

  /** The blocks that are free. */
  ghost function FreeBlocks(v: View): set<nat> {
    set b: nat | b < v.nblocks && b !in v.marked
  }

  lemma NoneFree(v: View)
    ensures |FreeBlocks(v)| == 0 <==> forall b: nat :: b < v.nblocks ==> b in v.marked
  {
    if |FreeBlocks(v)| == 0 {
      assert FreeBlocks(v) == {};
      assert forall b: nat :: b < v.nblocks && b !in v.marked ==> b in FreeBlocks(v);
    } else {
      var b :| b in FreeBlocks(v);
    }
  }

  lemma OneLessFree(v: View, w: View, b: nat)
    requires Free(v, b) && w.nblocks == v.nblocks && w.marked == v.marked + {b}
    ensures |FreeBlocks(w)| + 1 == |FreeBlocks(v)|
  {
    assert b in FreeBlocks(v);
    assert FreeBlocks(w) == FreeBlocks(v) - {b};
  }

  /** Takes the least free block, marks it and clears it on disk. */
  method Balloc(fs: SfsFs) returns (r: AllocResult)
    requires fs.Valid()
    modifies fs`disk, fs`freemapdirty, fs.freemap.v
    ensures fs.Sound()
    ensures r.NoSpace? <==> forall b: nat :: b < fs.nblocks ==> b in old(fs.State()).marked
    ensures r.NoSpace? ==> fs.State() == old(fs.State()) && fs.Valid()
    ensures r.Allocated? ==>
              && Free(old(fs.State()), r.index) && r.index < fs.nblocks <= |fs.disk| == |old(fs.disk)|
              && (forall b: nat :: b < r.index ==> b in old(fs.State()).marked)
              && fs.State() == WithAllocated(old(fs.State()), r.index)
  {
    hide EncodeInode, IsSuper, BlockBits, FreemapWords, Recorded, Genuine, FreemapStored, SfsFs.Loaded, SfsFs.InodesStored, SfsFs.TableValid;
    ghost var marked := fs.freemap.Marked();
    forall b: nat | b < fs.nblocks && b !in marked
      ensures IsData(fs, b)
    {
      OwnedIsData(fs, b);
    }
    r := fs.freemap.Alloc();
    if r.Allocated? {
      fs.freemapdirty := true;
      assert r.index < fs.nblocks;
      WriteData(fs, r.index, ZeroBlock());
    }
  }

  /** Unmarking a block that is not marked is asserted against. */
  method Bfree(fs: SfsFs, block: nat)
    requires fs.Sound() && block < fs.nblocks && block in fs.freemap.Marked()
    modifies fs`freemapdirty, fs.freemap.v
    ensures fs.Sound()
    ensures fs.State() == old(fs.State()).(marked := old(fs.State()).marked - {block})
  {
    hide IsSuper, BlockBits, FreemapWords, SfsFs.Loaded, SfsFs.InodesStored, SfsFs.TableValid;
    fs.freemap.Unmark(block);
    fs.freemapdirty := true;
  }

  /** Asking about a block beyond the volume panics. */
  method Bused(fs: SfsFs, block: nat) returns (r: bool)
    requires fs.FreemapSized() && block < fs.nblocks
    ensures r <==> block in fs.freemap.Marked()
  {
    r := fs.freemap.IsSet(block);
  }
}
