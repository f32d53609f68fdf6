/** The inode cache and the inode lifecycle (sfs_inode.c, vfs/vnode.c). */
module SfsInode {
  import opened Bitmaps
  import opened SfsLayout
  import opened SfsState
  import opened SfsSteps
  import opened SfsVolume
  import opened SfsBalloc
  import opened SfsBmap

  /** Whatever a block holds, decoding it as an inode and encoding that again gives the block. */
  lemma DecodedInode(b: Block)
    ensures EncodeInode(DecodeInode(b)) == b
  {
    hide BlockOfWords, WordsOfBlock, WordAt;
    BlockRoundTrip(b);
    var w := WordsOfBlock(b);
    assert InodeWords(InodeOfWords(w)) == w by {
      assert w == w[..2] + w[2..17] + [w[17]] + w[18..];
      assert w[1] == w[1] / HALF_LIMIT * HALF_LIMIT + w[1] % HALF_LIMIT;
    }
  }

  // ---------------------------------------------------------------- the vnode table

  method Incref(fs: SfsFs, sv: SfsVnode)
    requires fs.Sound() && fs.Holds(sv)
    modifies sv`refcount
    ensures fs.Sound() && fs.State() == old(fs.State()) && sv.refcount == old(sv.refcount) + 1
  {
    hide FreemapStored, IsSuper, EncodeInode, Bitmap.Marked;
    sv.refcount := sv.refcount + 1;
    assert fs.Loaded() == old(fs.Loaded());
  }

  /** Gives up one of several references. */
  method DropReference(fs: SfsFs, sv: SfsVnode)
    requires fs.Sound() && fs.Holds(sv) && sv.refcount > 1
    modifies sv`refcount
    ensures fs.Sound() && fs.State() == old(fs.State()) && sv.refcount == old(sv.refcount) - 1
  {
    hide FreemapStored, IsSuper, EncodeInode, Bitmap.Marked;
    sv.refcount := sv.refcount - 1;
    assert fs.Loaded() == old(fs.Loaded());
  }

  /** Adds a new vnode to the table. */
  method Insert(fs: SfsFs, ino: nat, i: Inode, dirty: bool) returns (sv: SfsVnode)
    requires fs.Sound() && ino !in fs.table && ino < |fs.disk|
    requires dirty || fs.disk[ino] == EncodeInode(i)
    modifies fs`vnodes, fs`table
    ensures fs.Sound() && fresh(sv) && sv.ino == ino && sv.i == i && sv.dirty == dirty && sv.refcount == 1
    ensures fs.table == old(fs.table)[ino := sv] && fs.vnodes == old(fs.vnodes) + [sv]
    ensures fs.State() == WithInode(old(fs.State()), ino, i)
  {
    hide FreemapStored, IsSuper, EncodeInode, Bitmap.Marked, Bitmap.Valid, FitsDisk, Indexed;
    sv := new SfsVnode(ino, i);
    sv.dirty := dirty;
    fs.vnodes := fs.vnodes + [sv];
    fs.table := fs.table[ino := sv];
    assert fs.Loaded() == old(fs.Loaded())[ino := i];
    IndexedAdd(old(fs.table), old(fs.vnodes), sv);
  }

  /** Finds a vnode in the table; not finding it panics. */
  method Find(fs: SfsFs, sv: SfsVnode) returns (ix: nat)
    requires fs.TableValid() && fs.Holds(sv)
    ensures ix < |fs.vnodes| && fs.vnodes[ix] == sv
  {
    ix := |fs.vnodes|;
    for i := 0 to |fs.vnodes|
      invariant ix == |fs.vnodes| && forall n :: 0 <= n < i ==> fs.vnodes[n] != sv
    {
      if fs.vnodes[i] == sv {
        ix := i;
        break;
      }
    }
    assert ix < |fs.vnodes|;
  }

  /** Takes a vnode out of the table. */
  method Remove(fs: SfsFs, sv: SfsVnode)
    requires fs.Sound() && fs.Holds(sv)
    modifies fs`vnodes, fs`table
    ensures fs.Sound() && fs.table == old(fs.table) - {sv.ino}
    ensures fs.State() == old(fs.State()).(loaded := old(fs.State()).loaded - {sv.ino})
  {
    hide FreemapStored, IsSuper, EncodeInode, Bitmap.Marked, Bitmap.Valid, FitsDisk, Indexed;
    ghost var vnodes := fs.vnodes;
    var ix := Find(fs, sv);
    fs.vnodes := fs.vnodes[..ix] + fs.vnodes[ix + 1..];
    fs.table := fs.table - {sv.ino};
    assert fs.Loaded() == old(fs.Loaded()) - {sv.ino};
    IndexedRemove(old(fs.table), vnodes, ix);
  }

  /** Closing the gap at ix keeps every other element, once. */
  lemma WithoutOne(s: seq<SfsVnode>, ix: nat)
    requires ix < |s| && forall m, n :: 0 <= m < n < |s| ==> s[m] != s[n]
    ensures var t := s[..ix] + s[ix + 1..];
            && (forall m, n :: 0 <= m < n < |t| ==> t[m] != t[n])
            && (forall x :: x in t ==> x in s && x != s[ix])
            && (forall x :: x in s && x != s[ix] ==> x in t)
  {
    var t := s[..ix] + s[ix + 1..];
    forall n | 0 <= n < |s| && n != ix
      ensures s[n] in t
    {
      assert s[n] == if n < ix then t[n] else t[n - 1];
    }
  }

  lemma IndexedRemove(table: map<nat, SfsVnode>, vnodes: seq<SfsVnode>, ix: nat)
    requires Indexed(table, vnodes) && ix < |vnodes|
    ensures Indexed(table - {vnodes[ix].ino}, vnodes[..ix] + vnodes[ix + 1..])
  {
    WithoutOne(vnodes, ix);
    var t := vnodes[..ix] + vnodes[ix + 1..];
    forall n | 0 <= n < |t|
      ensures t[n].ino in table - {vnodes[ix].ino} && table[t[n].ino] == t[n]
    {
      assert t[n] in vnodes && t[n] != vnodes[ix];
    }
  }

  lemma IndexedAdd(table: map<nat, SfsVnode>, vnodes: seq<SfsVnode>, sv: SfsVnode)
    requires Indexed(table, vnodes) && sv.ino !in table
    ensures Indexed(table[sv.ino := sv], vnodes + [sv])
  {
    forall ino | ino in table
      ensures table[ino] in vnodes + [sv]
    {
    }
  }

  // ---------------------------------------------------------------- syncing and loading

  lemma TableKeys(fs: SfsFs)
    requires fs.TableValid()
    ensures forall i :: i in fs.table ==> fs.table[i].ino == i
  {
  }

  /** Writes an inode to its block and marks it clean. */
  method WriteOut(fs: SfsFs, sv: SfsVnode)
    requires fs.Sound() && fs.Holds(sv) && 0 < sv.ino < |fs.disk|
    requires sv.ino < FREEMAP_START || FREEMAP_START + FreemapBlocks(fs.nblocks) <= sv.ino
    modifies fs`disk, sv`dirty
    ensures fs.Sound() && !sv.dirty
    ensures fs.State() == WithBlock(old(fs.State()), sv.ino, EncodeInode(sv.i))
  {
    hide BlockBits, FreemapWords, IsSuper, EncodeInode, Bitmap.Marked, Bitmap.Valid, Indexed;
    TableKeys(fs);
    WriteBlock(fs, sv.ino, EncodeInode(sv.i));
    sv.dirty := false;
    assert fs.Loaded() == old(fs.Loaded());
  }

  lemma CleanIsStored(fs: SfsFs, sv: SfsVnode)
    requires fs.Sound() && fs.Holds(sv) && !sv.dirty
    ensures sv.ino < |fs.disk| && fs.disk[sv.ino] == EncodeInode(sv.i)
  {
    hide BlockBits, FreemapWords, IsSuper, EncodeInode;
  }

  /** Writes a dirty inode to its block; afterwards the cached copy is what the disk says. */
  method SyncInode(fs: SfsFs, sv: SfsVnode)
    requires fs.Valid() && fs.Holds(sv)
    modifies fs`disk, sv`dirty
    ensures fs.Valid() && !sv.dirty
    ensures sv.ino < |fs.disk| == |old(fs.disk)| && fs.disk[sv.ino] == EncodeInode(sv.i)
    ensures fs.State() == old(fs.State()).(disk := fs.disk)
    ensures SameFiles(old(fs.State()), fs.State(), fs.live)
    ensures forall i :: i in fs.live ==> InodeOf(fs.State(), i) == InodeOf(old(fs.State()), i)
    ensures forall i, k: nat :: i in fs.live ==> Slot(fs.State(), i, k) == Slot(old(fs.State()), i, k)
  {
    hide Owned, Slot, InodeOf, SameFile, SameFiles, EncodeInode, SfsFs.State, SfsFs.Sound;
    ghost var v := fs.State();
    HeldInode(fs, sv);
    HeldIsLive(fs, sv);
    SameFilesReflexive(v, fs.live);
    StateFields(fs);
    if sv.dirty {
      InodeIsNotFreemap(fs, sv.ino);
      WriteInode(v, fs.owner, fs.live, sv.ino, EncodeInode(sv.i));
      WriteOut(fs, sv);
      StateFields(fs);
    }
    CleanIsStored(fs, sv);
  }

  lemma InodeIsNotFreemap(fs: SfsFs, ino: nat)
    requires fs.Valid() && ino in fs.live
    ensures ino < FREEMAP_START || FREEMAP_START + FreemapBlocks(fs.nblocks) <= ino
  {
    hide Slot, InodeOf;
    var v := fs.State();
    assert Place(v, InodeBlock(ino)) == ino;
    assert ino >= FREEMAP_START ==> Place(v, FreemapBlock(ino - FREEMAP_START)) == ino;
  }

  /** The panics about inodes in unallocated blocks cannot fire for a live inode. */
  lemma LiveIsMarked(fs: SfsFs, ino: nat)
    requires fs.Valid() && ino in fs.live
    ensures 0 < ino < fs.nblocks <= |fs.disk| && ino in fs.freemap.Marked() && (ino in fs.table ==> ino in fs.State().loaded)
    ensures ino !in fs.table ==> ino !in fs.State().loaded && InodeOf(fs.State(), ino) == DecodeInode(fs.disk[ino])
  {
    hide Slot;
    FileBlocksOwned(fs.State(), fs.owner, fs.live, ino);
  }

  lemma TableIsLive(fs: SfsFs, ino: nat)
    requires fs.Valid() && ino in fs.table
    ensures ino in fs.live
  {
    hide Slot;
    assert ino in fs.State().loaded;
  }

  /** Bringing an inode into memory, with its type filled in, changes no file's contents. */
  lemma Loading(v: View, owner: map<nat, Owner>, live: set<nat>, ino: nat, d: Inode)
    requires Owned(v, owner, live) && ino in live && ino !in v.loaded
    requires d == InodeOf(v, ino).(typ := d.typ)
    ensures var v' := WithInode(v, ino, d);
            && Owned(v', owner, live) && InodeOf(v', ino) == d
            && (forall i :: i in live && i != ino ==> InodeOf(v', i) == InodeOf(v, i))
            && (forall i, k: nat :: i in live ==> Slot(v', i, k) == Slot(v, i, k))
            && forall i, k: nat :: i in live ==> FileBlock(v', i, k) == FileBlock(v, i, k)
  {
    hide Owned, Slot, FileBlock, DecodeInode;
    var u := WithInode(v, ino, InodeOf(v, ino));
    LoadOrDrop(v, u, owner, live, ino);
    ChangeAttributes(u, owner, live, ino, d);
    assert WithInode(u, ino, d) == WithInode(v, ino, d);
    forall i, k: nat | i in live
      ensures FileBlock(WithInode(v, ino, d), i, k) == FileBlock(v, i, k)
    {
      assert SameFile(v, u, i);
    }
  }

  /** Searches the table for an inode; every vnode passed on the way must lie in a marked block. */
  method Lookup(fs: SfsFs, ino: nat) returns (sv: SfsVnode?)
    requires fs.Valid()
    ensures if ino in fs.table then sv == fs.table[ino] && sv.ino == ino else sv == null
  {
    hide Owned, SfsFs.Synced, SfsFs.State, SfsFs.Loaded, SfsFs.InodesStored, Bitmap.Marked;
    for i := 0 to |fs.vnodes|
      invariant forall n :: 0 <= n < i ==> fs.vnodes[n].ino != ino
    {
      sv := fs.vnodes[i];
      TableIsLive(fs, sv.ino);
      LiveIsMarked(fs, sv.ino);
      var used := Bused(fs, sv.ino);
      assert used;
      if sv.ino == ino {
        return;
      }
    }
    sv := null;
  }

  /** The cached vnode of an inode, or a new one read from disk. The new inode of a file being
      created has no type on disk yet, and forcetype supplies it. Memory may run out. */
  method LoadVnode(fs: SfsFs, ino: nat, forcetype: nat, memory: bool) returns (e: Errno, sv: SfsVnode?)
    requires fs.Valid() && ino in fs.live
    requires forcetype == TYPE_INVAL || forcetype == TYPE_FILE || forcetype == TYPE_DIR
    requires if forcetype == TYPE_INVAL
             then InodeOf(fs.State(), ino).typ == TYPE_FILE || InodeOf(fs.State(), ino).typ == TYPE_DIR
             else ino !in fs.table && InodeOf(fs.State(), ino).typ == TYPE_INVAL
    modifies fs`vnodes, fs`table, fs.table.Values`refcount
    ensures fs.Valid()
    ensures e == if ino in old(fs.table) || memory then Ok else ENOMEM
    ensures e == Ok ==> sv != null && sv.ino == ino && fs.Holds(sv) && fs.table == old(fs.table)[ino := sv]
    ensures e != Ok ==> fs.table == old(fs.table)
    ensures e != Ok || ino in old(fs.table) ==> fs.State() == old(fs.State())
    ensures e == Ok && ino in old(fs.table) ==> sv == old(fs.table[ino]) && sv.refcount == old(fs.table[ino].refcount) + 1
    ensures e == Ok && ino !in old(fs.table) ==>
              var d := InodeOf(old(fs.State()), ino);
              && fresh(sv) && sv.refcount == 1 && sv.dirty == (forcetype != TYPE_INVAL)
              && sv.i == d.(typ := if forcetype == TYPE_INVAL then d.typ else forcetype)
              && fs.State() == WithInode(old(fs.State()), ino, sv.i)
    ensures forall i :: i in old(fs.table) && i != ino ==> old(fs.table[i]).refcount == old(fs.table[i].refcount)
    ensures forcetype == TYPE_INVAL ==> SameFiles(old(fs.State()), fs.State(), fs.live)
  {
    hide Owned, Slot, InodeOf, FileBlock, SameFiles, EncodeInode, DecodeInode, Bitmap.Marked, Bitmap.Valid, FreemapStored, IsSuper, Indexed,
         SfsFs.State, SfsFs.Loaded, SfsFs.InodesStored;
    ghost var v := fs.State();
    SameFilesReflexive(v, fs.live);
    TableKeys(fs);
    sv := Lookup(fs, ino);
    if sv != null {
      assert forcetype == TYPE_INVAL;
      Incref(fs, sv);
      return Ok, sv;
    }
    if !memory {
      return ENOMEM, null;
    }
    LiveIsMarked(fs, ino);
    var used := Bused(fs, ino);
    assert used;
    var data := ReadBlock(fs, ino);
    var inode, dirty := DecodeInode(data), false;
    DecodedInode(data);
    if forcetype != TYPE_INVAL {
      assert inode.typ == TYPE_INVAL;
      inode, dirty := inode.(typ := forcetype), true;
    }
    assert inode.typ == TYPE_FILE || inode.typ == TYPE_DIR;
    Loading(fs.State(), fs.owner, fs.live, ino, inode);
    sv := Insert(fs, ino, inode, dirty);
    if forcetype == TYPE_INVAL {
      LoadedSame(v, fs.State(), fs.live);
    }
    e := Ok;
  }

  // ---------------------------------------------------------------- birth and death

  /** Frees the block of an inode that is not in memory and maps nothing. */
  method GiveBack(fs: SfsFs, ino: nat)
    requires fs.Valid() && ino in fs.live && ino !in fs.table
    requires InodeOf(fs.State(), ino).indirect == 0 && forall k: nat :: Slot(fs.State(), ino, k) == 0
    modifies fs`freemapdirty, fs`owner, fs`live, fs.freemap.v
    ensures fs.Valid() && fs.live == old(fs.live) - {ino} && fs.State().marked == old(fs.State()).marked - {ino}
    ensures SameFiles(old(fs.State()), fs.State(), fs.live)
  {
    hide Owned, Slot, InodeOf, SameFile, SameFiles, Bitmap.Marked, Bitmap.Valid, SfsFs.State, SfsFs.Sound;
    ghost var u := fs.State();
    LiveIsMarked(fs, ino);
    Death(u, fs.owner, fs.live, ino);
    Bfree(fs, ino);
    fs.owner := fs.owner - {ino};
    fs.live := fs.live - {ino};
    assert u.loaded - {ino} == u.loaded;
  }

  /** A new object: a fresh block becomes its inode, which is loaded with the given type. */
  method MakeObj(fs: SfsFs, typ: nat, memory: bool) returns (e: Errno, sv: SfsVnode?)
    requires fs.Valid() && (typ == TYPE_FILE || typ == TYPE_DIR)
    modifies fs`disk, fs`freemapdirty, fs`owner, fs`live, fs`vnodes, fs`table, fs.freemap.v, fs.table.Values`refcount
    ensures fs.Valid()
    ensures e == Ok || e == ENOSPC || e == ENOMEM
    ensures e == ENOSPC <==> forall b: nat :: b < fs.nblocks ==> b in old(fs.State()).marked
    ensures e == ENOMEM <==> !memory && exists b: nat :: b < fs.nblocks && b !in old(fs.State()).marked
    ensures e != Ok ==> fs.State().marked == old(fs.State()).marked
    ensures SameFiles(old(fs.State()), fs.State(), old(fs.live))
    ensures e != Ok ==> fs.live == old(fs.live) && fs.table == old(fs.table)
    ensures e == Ok ==>
              && sv != null && fresh(sv) && sv.refcount == 1 && sv.dirty && fs.Holds(sv)
              && sv.ino !in old(fs.live) && fs.live == old(fs.live) + {sv.ino}
              && fs.table == old(fs.table)[sv.ino := sv]
              && sv.i.size == 0 && sv.i.typ == typ && sv.i.links == 0 && sv.i.indirect == 0
              && sv.ino !in old(fs.State()).marked && (forall b: nat :: b < sv.ino ==> b in old(fs.State()).marked)
              && fs.State().marked == old(fs.State()).marked + {sv.ino}
              && forall k: nat :: Slot(fs.State(), sv.ino, k) == 0
    ensures e == Ok ==> forall i :: i in old(fs.live) ==> InodeOf(fs.State(), i) == InodeOf(old(fs.State()), i)
    ensures e == Ok ==> forall i, k: nat :: i in old(fs.live) ==> Slot(fs.State(), i, k) == Slot(old(fs.State()), i, k)
    ensures forall i :: i in old(fs.table) ==> old(fs.table[i]).refcount == old(fs.table[i].refcount)
  {
    hide Owned, Slot, InodeOf, SameFile, EncodeInode, DecodeInode, FitsDisk, Bitmap.Marked, Bitmap.Valid, FreemapStored,
         SfsFs.State, SfsFs.Sound;
    ghost var v := fs.State();
    SameFilesReflexive(v, fs.live);
    var r := Balloc(fs);
    if r.NoSpace? {
      return ENOSPC, null;
    }
    var ino := r.index;
    ghost var u := fs.State();
    ZeroInode();
    Birth(v, fs.owner, fs.live, ino);
    fs.owner := fs.owner[ino := InodeBlock(ino)];
    fs.live := fs.live + {ino};
    TableIsLoaded(fs);
    e, sv := LoadVnode(fs, ino, typ, memory);
    if e != Ok {
      GiveBack(fs, ino);
      SameFilesTransitive(v, u, fs.State(), fs.live);
    } else {
      Loading(u, fs.owner, fs.live, ino, sv.i);
      LoadedSame(u, fs.State(), old(fs.live));
      SameFilesTransitive(v, u, fs.State(), old(fs.live));
    }
  }

  lemma TableIsLoaded(fs: SfsFs)
    ensures fs.table.Keys == fs.State().loaded.Keys
  {
  }

  lemma LoadedSame(u: View, v: View, live: set<nat>)
    requires forall i :: i in live ==> InodeOf(v, i) == InodeOf(u, i)
    requires forall i, k: nat :: i in live ==> FileBlock(v, i, k) == FileBlock(u, i, k)
    ensures SameFiles(u, v, live)
  {
    hide InodeOf, FileBlock;
  }

  /** Every block a file owns. */
  ghost function BlocksOf(v: View, ino: nat): set<nat> {
    Released(v, ino, CutBelow(0, MAXFILEBLOCKS), true) + {ino}
  }

  /** Those are indeed all of them. */
  lemma AllBlocksOf(v: View, owner: map<nat, Owner>, live: set<nat>, ino: nat)
    requires Owned(v, owner, live) && ino in live
    ensures forall b :: b in BlocksOf(v, ino) <==> b in owner && OwnedByFile(owner[b], ino)
  {
    hide Slot, InodeOf;
    FileBlocksOwned(v, owner, live, ino);
    forall b | b in owner && OwnedByFile(owner[b], ino)
      ensures b in BlocksOf(v, ino)
    {
      if owner[b].DataBlock? {
        assert owner[b].k in CutBelow(0, MAXFILEBLOCKS);
      }
      assert b != 0 || owner[b] == SuperBlock by {
        assert Place(v, SuperBlock) == 0;
      }
    }
  }

  /** Truncating to nothing cuts every slot and drops the indirect block. */
  lemma TruncateAll(v: View, ino: nat)
    ensures BlockLength(0) == 0
    ensures forall k: nat :: Slot(v, ino, k) != 0 ==> Cut(0, k)
    ensures DropsIndirect(v, ino, 0) <==> InodeOf(v, ino).indirect != 0
    ensures Released(v, ino, CutBelow(0, MAXFILEBLOCKS), DropsIndirect(v, ino, 0)) + {ino} == BlocksOf(v, ino)
  {
    hide InodeOf;
  }

  /** Called with the last reference: a file without links is erased, any other is synced, and
      the vnode leaves memory. If someone else picked the vnode up meanwhile, it stays. */
  method Reclaim(fs: SfsFs, sv: SfsVnode) returns (e: Errno)
    requires fs.Valid() && fs.Holds(sv)
    modifies fs`disk, fs`freemapdirty, fs`owner, fs`live, fs`vnodes, fs`table, fs.freemap.v, sv`i, sv`dirty, sv`refcount
    ensures fs.Valid()
    ensures e == if old(sv.refcount) != 1 then EBUSY else Ok
    ensures e == EBUSY ==>
              && fs.State() == old(fs.State()) && fs.table == old(fs.table) && fs.live == old(fs.live)
              && sv.refcount == old(sv.refcount) - 1
    ensures e == Ok ==>
              && fs.table == old(fs.table) - {sv.ino}
              && fs.live == (if old(sv.i.links) == 0 then old(fs.live) - {sv.ino} else old(fs.live))
              && fs.State().marked == old(fs.State()).marked
                                      - (if old(sv.i.links) == 0 then BlocksOf(old(fs.State()), sv.ino) else {})
    ensures SameFiles(old(fs.State()), fs.State(), fs.live)
  {
    hide Owned, Slot, InodeOf, SameFile, SameFiles, Bitmap.Marked, Bitmap.Valid, SfsFs.State, SfsFs.Synced, SfsFs.Loaded;
    ghost var v := fs.State();
    SameFilesReflexive(v, fs.live);
    if sv.refcount != 1 {
      RefcountPositive(fs, sv);
      DropReference(fs, sv);
      return EBUSY;
    }
    if sv.i.links == 0 {
      Erase(fs, sv);
    } else {
      SyncInode(fs, sv);
      ghost var u := fs.State();
      Forget(fs, sv);
      SameFilesTransitive(v, u, fs.State(), fs.live);
      assert v.marked - {} == v.marked;
    }
    e := Ok;
  }

  lemma RefcountPositive(fs: SfsFs, sv: SfsVnode)
    requires fs.Sound() && fs.Holds(sv)
    ensures sv.refcount > 0
  {
  }

  /** Taking a clean vnode out of memory loses nothing. */
  method Forget(fs: SfsFs, sv: SfsVnode)
    requires fs.Valid() && fs.Holds(sv) && !sv.dirty
    requires sv.ino < |fs.disk| && fs.disk[sv.ino] == EncodeInode(sv.i)
    modifies fs`vnodes, fs`table
    ensures fs.Valid() && fs.table == old(fs.table) - {sv.ino}
    ensures fs.State() == old(fs.State()).(loaded := old(fs.State()).loaded - {sv.ino})
    ensures SameFiles(old(fs.State()), fs.State(), fs.live)
  {
    hide Owned, Slot, InodeOf, SameFile, SameFiles, Bitmap.Marked, Bitmap.Valid, SfsFs.State, SfsFs.Sound, EncodeInode, DecodeInode;
    ghost var v := fs.State();
    HeldInode(fs, sv);
    HeldIsLive(fs, sv);
    InodeRoundTrip(sv.i);
    Remove(fs, sv);
    DroppedInode(v, sv.ino);
    LoadOrDrop(v, fs.State(), fs.owner, fs.live, sv.ino);
  }

  lemma DroppedInode(v: View, ino: nat)
    requires ino in v.loaded && ino < |v.disk| && DecodeInode(v.disk[ino]) == v.loaded[ino]
    ensures var v' := v.(loaded := v.loaded - {ino}); InodeOf(v', ino) == InodeOf(v, ino)
  {
  }

  /** The last reference to a file without links: all its blocks go, and the inode with them. */
  method Erase(fs: SfsFs, sv: SfsVnode)
    requires fs.Valid() && fs.Holds(sv)
    modifies fs`disk, fs`freemapdirty, fs`owner, fs`live, fs`vnodes, fs`table, fs.freemap.v, sv`i, sv`dirty
    ensures fs.Valid()
    ensures fs.table == old(fs.table) - {sv.ino} && fs.live == old(fs.live) - {sv.ino}
    ensures fs.State().marked == old(fs.State()).marked - BlocksOf(old(fs.State()), sv.ino)
    ensures SameFiles(old(fs.State()), fs.State(), fs.live)
  {
    hide Owned, Slot, InodeOf, SameFile, FileBlock, Released, BlocksOf, Bitmap.Marked, Bitmap.Valid, SfsFs.State, SfsFs.Sound;
    ghost var v := fs.State();
    HeldInode(fs, sv);
    HeldIsLive(fs, sv);
    TruncateAll(v, sv.ino);
    Itrunc(fs, sv, 0);
    ghost var u := fs.State();
    SyncInode(fs, sv);
    ghost var w := fs.State();
    HeldInode(fs, sv);
    HeldIsLive(fs, sv);
    LiveIsMarked(fs, sv.ino);
    Death(w, fs.owner, fs.live, sv.ino);
    Bfree(fs, sv.ino);
    Remove(fs, sv);
    fs.owner := fs.owner - {sv.ino};
    fs.live := fs.live - {sv.ino};
    assert SameFiles(v, u, fs.live);
    assert SameFiles(u, w, fs.live);
    SameFilesTransitive(v, u, w, fs.live);
    SameFilesTransitive(v, w, fs.State(), fs.live);
  }

  /** Gives up a reference to a vnode, reclaiming it if it was the last. */
  method Decref(fs: SfsFs, sv: SfsVnode)
    requires fs.Valid() && fs.Holds(sv)
    modifies fs`disk, fs`freemapdirty, fs`owner, fs`live, fs`vnodes, fs`table, fs.freemap.v, sv`i, sv`dirty, sv`refcount
    ensures fs.Valid()
    ensures SameFiles(old(fs.State()), fs.State(), fs.live)
    ensures old(sv.refcount) > 1 ==>
              && fs.State() == old(fs.State()) && fs.table == old(fs.table) && fs.live == old(fs.live)
              && sv.refcount == old(sv.refcount) - 1
    ensures old(sv.refcount) == 1 ==>
              && fs.table == old(fs.table) - {sv.ino}
              && fs.live == (if old(sv.i.links) == 0 then old(fs.live) - {sv.ino} else old(fs.live))
              && fs.State().marked == old(fs.State()).marked
                                      - (if old(sv.i.links) == 0 then BlocksOf(old(fs.State()), sv.ino) else {})
  {
    hide Owned, Slot, InodeOf, SameFile, BlocksOf, Bitmap.Marked, Bitmap.Valid, SfsFs.State, SfsFs.Sound;
    SameFilesReflexive(fs.State(), fs.live);
    RefcountPositive(fs, sv);
    if sv.refcount > 1 {
      DropReference(fs, sv);
    } else {
      var e := Reclaim(fs, sv);
    }
  }
}
