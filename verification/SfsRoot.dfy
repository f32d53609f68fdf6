/** The root directory's vnode: where it comes from after a mount, and what happens when it is given
    up (sfs_inode.c:54-121, 292-320, sfs_fsops.c:374-472). */
module SfsRoot {
  import opened SfsLayout
  import opened SfsState
  import opened SfsNames
  import opened SfsVolume
  import opened SfsBmap
  import opened SfsInode
  import opened SfsDir
  import opened SfsVnops
  import opened SfsFsops
  import opened SfsEmpty

  /** The vnode of the root directory. If the root inode is not a directory, the reference taken is
      not given back. */
  method GetRoot(fs: SfsFs, memory: bool) returns (e: Errno, dv: SfsVnode?)
    requires fs.Valid() && ROOTDIR_INO in fs.live
    requires InodeOf(fs.State(), ROOTDIR_INO).typ == TYPE_FILE || InodeOf(fs.State(), ROOTDIR_INO).typ == TYPE_DIR
    modifies fs`vnodes, fs`table, fs.table.Values`refcount
    ensures fs.Valid() && SameFiles(old(fs.State()), fs.State(), fs.live)
    ensures e == if ROOTDIR_INO !in old(fs.table) && !memory then ENOMEM
                 else if InodeOf(old(fs.State()), ROOTDIR_INO).typ != TYPE_DIR then EINVAL
                 else Ok
    ensures e == ENOMEM ==> fs.table == old(fs.table)
    ensures e != ENOMEM ==>
              && dv != null && fs.Holds(dv) && dv.ino == ROOTDIR_INO && fs.table == old(fs.table)[ROOTDIR_INO := dv]
              && (ROOTDIR_INO in old(fs.table) ==>
                    dv == old(fs.table[ROOTDIR_INO]) && dv.refcount == old(fs.table[ROOTDIR_INO].refcount) + 1)
              && (ROOTDIR_INO !in old(fs.table) ==> fresh(dv) && dv.refcount == 1)
    ensures e == Ok && NameSpace(old(fs.State()), fs.live) ==>
              Ordered(fs, dv) && Names(fs.State()) == Names(old(fs.State()))
  {
    hide Owned, SameFiles, Slot, NameSpace, Names, InodeOf, SfsFs.State, SfsFs.Sound;
    ghost var v := fs.State();
    if ROOTDIR_INO in fs.table {
      TableRoot(fs);
      HeldInode(fs, fs.table[ROOTDIR_INO]);
    }
    e, dv := LoadVnode(fs, ROOTDIR_INO, TYPE_INVAL, memory);
    if e != Ok {
      return;
    }
    HeldInode(fs, dv);
    if NameSpace(v, fs.live) {
      RootLoaded(v, fs.State(), fs.live);
    }
    if dv.i.typ != TYPE_DIR {
      e := EINVAL;
    }
  }

  lemma TableRoot(fs: SfsFs)
    requires fs.Valid() && ROOTDIR_INO in fs.table
    ensures fs.table[ROOTDIR_INO].ino == ROOTDIR_INO
  {
    TableKeys(fs);
  }

  lemma RootLoaded(v: View, w: View, live: set<nat>)
    requires NameSpace(v, live) && SameFiles(v, w, live)
    ensures NameSpace(w, live) && Names(w) == Names(v)
  {
    hide InodeOf, SameFiles, Dir, Links, UniqueNames;
    NameSpaceSame(v, w, live, live);
    NamesByDir(v, w);
  }

  /** Mounting a disk that holds a consistent volume, and then asking for its root directory, is how
      the state that the operations on names need comes about. */
  method MountRoot(disk: seq<Block>, sectorSize: nat, memory: bool, mapMemory: bool, rootMemory: bool,
                   ghost owner: map<nat, Owner>, ghost live: set<nat>)
    returns (e: Errno, fs: SfsFs?, dv: SfsVnode?)
    requires Mountable(disk) && Owned(MountedView(disk), owner, live) && NameSpace(MountedView(disk), live)
    ensures e == if sectorSize != BLOCKSIZE then ENXIO else if !memory || !mapMemory || !rootMemory then ENOMEM else Ok
    ensures e == Ok ==>
              && fs != null && dv != null && fresh(fs) && fresh(fs.freemap.v) && fresh(dv) && dv.refcount == 1
              && Ordered(fs, dv) && fs.live == live && fs.table == map[ROOTDIR_INO := dv]
              && Names(fs.State()) == Names(MountedView(disk)) && SameFiles(MountedView(disk), fs.State(), live)
  {
    hide Owned, SameFiles, Slot, Names, Dir, InodeOf, Links, SfsFs.State, SfsFs.Sound;
    dv := null;
    e, fs := DoMount(disk, sectorSize, memory, mapMemory, owner, live);
    if e != Ok {
      return;
    }
    StateFields(fs);
    e, dv := GetRoot(fs, rootMemory);
  }

  /** So it does for a volume with nothing on it yet. */
  method MountEmpty(disk: seq<Block>, sectorSize: nat, memory: bool, mapMemory: bool, rootMemory: bool)
    returns (e: Errno, fs: SfsFs?, dv: SfsVnode?)
    requires IsEmptyVolume(disk)
    ensures e == if sectorSize != BLOCKSIZE then ENXIO else if !memory || !mapMemory || !rootMemory then ENOMEM else Ok
    ensures e == Ok ==>
              && fs != null && dv != null && fresh(fs) && fresh(fs.freemap.v) && fresh(dv) && dv.refcount == 1
              && fs.table == map[ROOTDIR_INO := dv] && Ordered(fs, dv) && fs.live == {ROOTDIR_INO} && Names(fs.State()) == map[]
  {
    hide Owned, NameSpace, SameFiles, Names, IsEmptyVolume, MountedView, SfsFs.State, SfsFs.Sound;
    EmptyIsConsistent(disk);
    EmptyIsMountable(disk);
    e, fs, dv := MountRoot(disk, sectorSize, memory, mapMemory, rootMemory, FirstOwners(MountedView(disk).nblocks), {ROOTDIR_INO});
  }

  lemma EmptyIsMountable(disk: seq<Block>)
    requires IsEmptyVolume(disk)
    ensures Mountable(disk)
  {
  }

  /** What has been synced is there again after the next mount: the same names, leading to the same
      files. */
  method SyncAndMount(fs: SfsFs, dv: SfsVnode, memory: bool, mapMemory: bool, rootMemory: bool)
    returns (e: Errno, fs': SfsFs?, dv': SfsVnode?)
    requires Ordered(fs, dv)
    modifies fs`disk, fs`freemapdirty, fs`superdirty, fs.freemap.v, fs.table.Values`dirty
    ensures Ordered(fs, dv) && Names(fs.State()) == Names(old(fs.State()))
    ensures e == if !memory || !mapMemory || !rootMemory then ENOMEM else Ok
    ensures e == Ok ==>
              && fs' != null && dv' != null && fresh(fs') && fresh(fs'.freemap.v) && fresh(dv') && dv'.refcount == 1
              && fs'.table == map[ROOTDIR_INO := dv'] && Ordered(fs', dv') && fs'.live == fs.live
              && Names(fs'.State()) == Names(old(fs.State())) && SameFiles(old(fs.State()), fs'.State(), fs.live)
  {
    hide Owned, SameFiles, Slot, Names, NameSpace, InodeOf, MountedView, SfsFs.State, SfsFs.Sound;
    ghost var v, live := fs.State(), fs.live;
    Sync(fs);
    ghost var w := fs.State();
    RootLoaded(v, w, live);
    SameFilesTransitive(v, w, MountedView(fs.disk), live);
    RootLoaded(v, MountedView(fs.disk), live);
    e, fs', dv' := MountRoot(fs.disk, BLOCKSIZE, memory, mapMemory, rootMemory, fs.owner, live);
    if e == Ok {
      SameFilesTransitive(v, MountedView(fs.disk), fs'.State(), live);
    }
  }

  /** Giving up a reference to the root directory. With the last one its vnode leaves memory; the
      volume and its names stay, and GetRoot finds them again. */
  method ReleaseRoot(fs: SfsFs, dv: SfsVnode)
    requires Ordered(fs, dv)
    modifies fs`disk, fs`freemapdirty, fs`owner, fs`live, fs`vnodes, fs`table, fs.freemap.v, dv`i, dv`dirty, dv`refcount
    ensures fs.Valid() && NameSpace(fs.State(), fs.live) && fs.live == old(fs.live)
    ensures Names(fs.State()) == Names(old(fs.State())) && SameFiles(old(fs.State()), fs.State(), fs.live)
    ensures fs.State().marked == old(fs.State()).marked
    ensures if old(dv.refcount) == 1 then fs.table == old(fs.table) - {ROOTDIR_INO} else Ordered(fs, dv)
  {
    hide Owned, SameFiles, Slot, Names, InodeOf, Links, UniqueNames, BlocksOf, Dir, SfsFs.State, SfsFs.Sound;
    ghost var v := fs.State();
    HeldInode(fs, dv);
    RefcountPositive(fs, dv);
    Decref(fs, dv);
    assert v.marked - {} == v.marked;
    RootLoaded(v, fs.State(), fs.live);
  }
}
