/** A volume with nothing on it but its root directory (include/kern/sfs.h) is one that the rest of
    the model is about. */
module SfsEmpty {
  import opened Bitmaps
  import opened SfsLayout
  import opened SfsState
  import opened SfsNames
  import opened SfsFsops

  /** The root directory is an inode that maps nothing; the free map marks the superblock, the root
      directory, itself, and what lies beyond the volume. */
  ghost predicate IsEmptyVolume(disk: seq<Block>) {
    && Mountable(disk)
    && var nblocks := WordAt(disk[SUPER_BLOCK], 1);
    && FREEMAP_START + FreemapBlocks(nblocks) <= nblocks <= |disk|
    && var root := DecodeInode(disk[ROOTDIR_INO]);
    && root.typ == TYPE_DIR && root.links > 0 && root.size == 0 && root.indirect == 0
    && (forall k :: 0 <= k < NDIRECT ==> root.direct[k] == 0)
    && forall b: nat :: b in BitsOf(FreemapOf(disk, FreemapBlocks(nblocks))) <==>
         InUse(nblocks, b) || nblocks <= b < BITSPERBLOCK * FreemapBlocks(nblocks)
  }

  /** The blocks in use on such a volume. */
  predicate InUse(nblocks: nat, b: nat) {
    b < FREEMAP_START + FreemapBlocks(nblocks)
  }

  ghost function FirstOwners(nblocks: nat): map<nat, Owner> {
    map b: nat | b < FREEMAP_START + FreemapBlocks(nblocks) && InUse(nblocks, b) ::
      if b == SUPER_BLOCK then SuperBlock else if b == ROOTDIR_INO then InodeBlock(ROOTDIR_INO) else FreemapBlock(b - FREEMAP_START)
  }

  /** So mounting it gives a consistent volume without names. */
  lemma EmptyIsConsistent(disk: seq<Block>)
    requires IsEmptyVolume(disk)
    ensures var v := MountedView(disk);
            && Owned(v, FirstOwners(v.nblocks), {ROOTDIR_INO})
            && NameSpace(v, {ROOTDIR_INO}) && Names(v) == map[]
  {
    hide WordAt, DecodeInode, FreemapOf, BitsOf, EntryAt;
    var v := MountedView(disk);
    assert forall k: nat :: Slot(v, ROOTDIR_INO, k) == 0;
    assert Dir(v) == [];
    forall b | b in FirstOwners(v.nblocks)
      ensures b < v.nblocks && Proper(v.nblocks, {ROOTDIR_INO}, FirstOwners(v.nblocks)[b]) && Place(v, FirstOwners(v.nblocks)[b]) == b
    {
    }
  }
}
