/** Creating, linking, removing and renaming files (sfs_vnops.c:281-512). */
module SfsVnops {
  import opened Lib
  import opened Uios
  import opened SfsLayout
  import opened SfsState
  import opened SfsSteps
  import opened SfsNames
  import opened SfsVolume
  import opened SfsBalloc
  import opened SfsBmap
  import opened SfsIo
  import opened SfsInode
  import opened SfsDir

  /** The same file but for its number of links. */
  ghost predicate SameBytes(v: View, w: View, ino: nat) {
    && InodeOf(v, ino).size == InodeOf(w, ino).size
    && InodeOf(v, ino).typ == InodeOf(w, ino).typ
    && forall k: nat :: FileBlock(v, ino, k) == FileBlock(w, ino, k)
  }

  /** No file in live has changed, other than the directory, and other than links to one file. */
  ghost predicate OnlyNamesChanged(v: View, w: View, live: set<nat>, ino: nat) {
    && (forall i :: i in live && i != ROOTDIR_INO && i != ino ==> SameFile(v, w, i))
    && (ino in live ==> SameBytes(v, w, ino))
  }

  /** A link count has been changed by one in memory. */
  lemma Recounted(u: View, owner: map<nat, Owner>, live: set<nat>, ino: nat, d: Inode)
    requires Owned(u, owner, live) && ino in u.loaded && ino != ROOTDIR_INO && ROOTDIR_INO in live
    requires d == u.loaded[ino].(links := d.links)
    ensures var w := WithInode(u, ino, d);
            && Owned(w, owner, live) && Dir(w) == Dir(u)
            && InodeOf(w, ino) == d
            && InodeOf(w, ROOTDIR_INO) == InodeOf(u, ROOTDIR_INO)
            && (forall i :: i in live && i != ino ==> SameFile(u, w, i))
            && SameBytes(u, w, ino)
  {
    hide Owned, Slot, FileBlock, DecodeInode, Dir;
    var w := WithInode(u, ino, d);
    LoadedIsLive(u, owner, live, ino);
    ChangeAttributes(u, owner, live, ino, d);
    assert SameFile(u, w, ROOTDIR_INO);
    DirSame(u, w);
  }

  /** Adding an entry for a file and then counting it. */
  lemma Linked(v: View, u: View, owner: map<nat, Owner>, live: set<nat>, slot: nat, e: Dirent, d: Inode)
    requires NameSpace(v, live) && EntryWritten(v, u, live, slot, e) && !Used(Dir(v), slot)
    requires e.ino in live && e.ino != ROOTDIR_INO && e.name !in Names(v)
    requires Owned(u, owner, live) && e.ino in u.loaded
    requires d == u.loaded[e.ino].(links := u.loaded[e.ino].links + 1)
    ensures var w := WithInode(u, e.ino, d);
            && Owned(w, owner, live) && NameSpace(w, live)
            && Dir(w) == Put(Dir(v), slot, e)
            && Names(w) == Names(v)[e.name := e.ino]
            && OnlyNamesChanged(v, w, live, e.ino)
            && InodeOf(w, e.ino).links == InodeOf(v, e.ino).links + 1
  {
    hide Owned, Slot, FileBlock, DecodeInode, Dir, NamesOf, Links;
    var w := WithInode(u, e.ino, d);
    ZeroIsNotLive(u, owner, live);
    Recounted(u, owner, live, e.ino, d);
    PutNew(Dir(v), slot, e);
    assert SameFile(v, u, e.ino);
    NameSpacePut(v, w, live, live, slot, e);
  }

  /** Clearing a file's entry and then uncounting it. */
  lemma Unlinked(v: View, u: View, owner: map<nat, Owner>, live: set<nat>, slot: nat, e: Dirent, d: Inode)
    requires NameSpace(v, live) && Used(Dir(v), slot) && e.ino == NOINO && EntryWritten(v, u, live, slot, e)
    requires Owned(u, owner, live) && Dir(v)[slot].ino in u.loaded
    requires d == u.loaded[Dir(v)[slot].ino].(links := d.links) && d.links + 1 == u.loaded[Dir(v)[slot].ino].links
    ensures var was := Dir(v)[slot]; var w := WithInode(u, was.ino, d);
            && Owned(w, owner, live) && NameSpace(w, live)
            && Dir(w) == Put(Dir(v), slot, e)
            && Names(w) == Names(v) - {was.name}
            && OnlyNamesChanged(v, w, live, was.ino)
            && InodeOf(w, was.ino).links + 1 == InodeOf(v, was.ino).links
  {
    hide Owned, Slot, FileBlock, DecodeInode, Dir, NamesOf, Links;
    var ino := Dir(v)[slot].ino;
    var w := WithInode(u, ino, d);
    ZeroIsNotLive(u, owner, live);
    Recounted(u, owner, live, ino, d);
    PutNone(Dir(v), slot, e);
    assert SameFile(v, u, ino);
    NameSpacePut(v, w, live, live, slot, e);
  }

  lemma ZeroIsNotLive(v: View, owner: map<nat, Owner>, live: set<nat>)
    requires Owned(v, owner, live)
    ensures NOINO !in live
  {
  }

  /** A new file is in no directory entry yet. */
  lemma Born(v: View, w: View, live: set<nat>, ino: nat)
    requires NameSpace(v, live) && SameFiles(v, w, live) && ino !in live
    requires InodeOf(w, ino).typ == TYPE_FILE && InodeOf(w, ino).links == 0 && ino != NOINO
    ensures NameSpace(w, live + {ino}) && Dir(w) == Dir(v)
  {
    hide Dir, FileBlock, Links;
    NameSpaceSame(v, w, live, live);
    LinksBounds(Dir(v), ino);
    assert forall s :: 0 <= s < |Dir(v)| && Dir(v)[s].ino == ino ==> Used(Dir(v), s);
  }

  // ---------------------------------------------------------------- the operations

  /** Counts a link that has just been entered. The 16-bit count cannot overflow. */
  method CountLink(fs: SfsFs, dv: SfsVnode, f: SfsVnode, ghost v: View, ghost slot: nat, ghost name: Name)
    requires fs.Valid() && fs.Holds(f) && f.ino != ROOTDIR_INO
    requires NameSpace(v, fs.live) && EntryWritten(v, fs.State(), fs.live, slot, Dirent(f.ino, name)) && !Used(Dir(v), slot)
    requires name !in Names(v) && fs.Holds(dv) && dv.ino == ROOTDIR_INO
    modifies f`i, f`dirty
    ensures Ordered(fs, dv)
    ensures Dir(fs.State()) == Put(Dir(v), slot, Dirent(f.ino, name))
    ensures Names(fs.State()) == Names(v)[name := f.ino]
    ensures OnlyNamesChanged(v, fs.State(), fs.live, f.ino)
    ensures f.i == old(f.i).(links := old(f.i.links) + 1)
  {
    hide Owned, SameFile, Slot, EntryAt, Dir, Names, InodeOf, Links, NameSpace, UniqueNames, SfsFs.State, SfsFs.Sound;
    ghost var u := fs.State();
    HeldInode(fs, f);
    HeldIsLive(fs, f);
    LinksFit(v, fs.live, f.ino);
    OthersKept(v, u, fs.live, slot, Dirent(f.ino, name));
    SameLinks(v, u, fs.live - {ROOTDIR_INO}, f.ino);
    SetInode(fs, f, f.i.(links := f.i.links + 1));
    Linked(v, u, fs.owner, fs.live, slot, Dirent(f.ino, name), f.i);
  }

  lemma SameLinks(v: View, u: View, live: set<nat>, ino: nat)
    requires SameFiles(v, u, live) && ino in live
    ensures InodeOf(u, ino).links == InodeOf(v, ino).links
  {
    hide FileBlock, InodeOf;
    assert SameFile(v, u, ino);
  }

  lemma OthersKept(v: View, u: View, live: set<nat>, slot: nat, e: Dirent)
    requires EntryWritten(v, u, live, slot, e)
    ensures SameFiles(v, u, live - {ROOTDIR_INO})
  {
    hide SameFile, Dir, InodeOf;
  }

  /** Uncounts a link whose entry has just been cleared. */
  method UncountLink(fs: SfsFs, dv: SfsVnode, f: SfsVnode, ghost v: View, ghost slot: nat)
    requires fs.Valid() && fs.Holds(f) && f.ino != ROOTDIR_INO
    requires NameSpace(v, fs.live) && EntryWritten(v, fs.State(), fs.live, slot, Dirent(NOINO, []))
    requires Used(Dir(v), slot) && Dir(v)[slot].ino == f.ino && fs.Holds(dv) && dv.ino == ROOTDIR_INO
    modifies f`i, f`dirty
    ensures Ordered(fs, dv)
    ensures Names(fs.State()) == Names(v) - {Dir(v)[slot].name}
    ensures OnlyNamesChanged(v, fs.State(), fs.live, f.ino)
    ensures old(f.i.links) > 0 && f.i == old(f.i).(links := old(f.i.links) - 1)
  {
    hide Owned, SameFile, Slot, EntryAt, Dir, Names, InodeOf, Links, NameSpace, UniqueNames, SfsFs.State, SfsFs.Sound;
    ghost var u := fs.State();
    HeldInode(fs, f);
    HeldIsLive(fs, f);
    NamedHasLinks(v, fs.live, slot);
    OthersKept(v, u, fs.live, slot, Dirent(NOINO, []));
    SameLinks(v, u, fs.live - {ROOTDIR_INO}, f.ino);
    assert f.i.links > 0;
    SetInode(fs, f, f.i.(links := f.i.links - 1));
    Unlinked(v, u, fs.owner, fs.live, slot, Dirent(NOINO, []), f.i);
  }

  /** Makes a hard link. Directories cannot be linked. */
  method Link(fs: SfsFs, dv: SfsVnode, name: Name, f: SfsVnode) returns (e: Errno)
    requires Ordered(fs, dv) && fs.Holds(f)
    modifies fs`disk, fs`freemapdirty, fs`owner, fs.freemap.v, dv`i, dv`dirty, f`i, f`dirty
    ensures Ordered(fs, dv)
    ensures e == if f == dv then EINVAL else EntryOutcome(old(fs.State()), name, |FreeBlocks(old(fs.State()))|)
    ensures e == Ok ==>
              && Names(fs.State()) == Names(old(fs.State()))[name := f.ino]
              && f.i.links == old(f.i.links) + 1
              && OnlyNamesChanged(old(fs.State()), fs.State(), fs.live, f.ino)
    ensures e != Ok ==> Names(fs.State()) == Names(old(fs.State())) && SameFiles(old(fs.State()), fs.State(), fs.live)
  {
    hide Owned, SameFile, SameFiles, Slot, EntryAt, Dir, NamesOf, InodeOf, Links, UniqueNames, EntryWritten, OnlyNamesChanged,
         FreeBlocks, EntryOutcome, DirFull, TargetSlot, SfsFs.State, SfsFs.Sound;
    ghost var v := fs.State();
    DirSmall(v, fs.live);
    TargetFacts(v);
    SameFilesReflexive(v, fs.live);
    HeldInode(fs, f);
    HeldInode(fs, dv);
    HeldIsLive(fs, f);
    if f.i.typ == TYPE_DIR {
      return EINVAL;
    }
    assert f.ino != ROOTDIR_INO;
    SmallNumbers(fs);
    var slot;
    e, slot := DirLink(fs, dv, name, f.ino);
    if e != Ok {
      NameSpaceSame(v, fs.State(), fs.live, fs.live);
      return;
    }
    ghost var u := fs.State();
    HeldInode(fs, f);
    OthersKept(v, u, fs.live, slot, Dirent(f.ino, name));
    SameLinks(v, u, fs.live - {ROOTDIR_INO}, f.ino);
    CountLink(fs, dv, f, v, slot, name);
  }

  lemma SmallNumbers(fs: SfsFs)
    requires fs.Valid()
    ensures fs.nblocks < WORD_LIMIT
  {
  }

  lemma OnlyNamesAround(u: View, v: View, w: View, x: View, live: set<nat>, live': set<nat>, ino: nat)
    requires SameFiles(u, v, live) && OnlyNamesChanged(v, w, live, ino) && SameFiles(w, x, live') && live' <= live
    ensures OnlyNamesChanged(u, x, live', ino)
    ensures ino in live' ==> InodeOf(x, ino).links == InodeOf(w, ino).links
    ensures ino in live ==> InodeOf(v, ino).links == InodeOf(u, ino).links
  {
    hide InodeOf, FileBlock;
    assert ino in live ==> SameFile(u, v, ino);
    assert ino in live' ==> SameFile(w, x, ino);
  }

  /** Gives up a reference to a file in the name space. The file goes if that was the last
      reference and no name leads to it. */
  method Release(fs: SfsFs, dv: SfsVnode, f: SfsVnode)
    requires Ordered(fs, dv) && fs.Holds(f) && f != dv
    modifies fs`disk, fs`freemapdirty, fs`owner, fs`live, fs`vnodes, fs`table, fs.freemap.v, f`i, f`dirty, f`refcount
    ensures Ordered(fs, dv) && Dir(fs.State()) == Dir(old(fs.State()))
    ensures fs.live == if old(f.refcount) == 1 && old(f.i.links) == 0 then old(fs.live) - {f.ino} else old(fs.live)
    ensures fs.State().marked == old(fs.State()).marked
                               - (if old(f.refcount) == 1 && old(f.i.links) == 0 then BlocksOf(old(fs.State()), f.ino) else {})
    ensures SameFiles(old(fs.State()), fs.State(), fs.live)
    ensures fs.table == if old(f.refcount) == 1 then old(fs.table) - {f.ino} else old(fs.table)
    ensures old(f.refcount) > 1 ==> f.refcount == old(f.refcount) - 1
  {
    hide Owned, SameFile, SameFiles, BlocksOf, EntryAt, Dir, InodeOf, Links, UniqueNames, SfsFs.State, SfsFs.Sound;
    ghost var v, live := fs.State(), fs.live;
    HeldInode(fs, f);
    HeldIsLive(fs, f);
    RefcountPositive(fs, f);
    Decref(fs, f);
    NameSpaceSame(v, fs.State(), live, fs.live);
  }

  lemma NamesByDir(v: View, w: View)
    requires Dir(v) == Dir(w)
    ensures Names(v) == Names(w)
  {
  }

  lemma RefcountsPositive(fs: SfsFs)
    requires fs.Sound()
    ensures forall i :: i in fs.table ==> fs.table[i].refcount > 0
  {
  }

  /** Who owns which block determines what a file's blocks are. */
  lemma SameBlocks(v: View, w: View, owner: map<nat, Owner>, live: set<nat>, ino: nat)
    requires Owned(v, owner, live) && Owned(w, owner, live) && ino in live
    ensures BlocksOf(v, ino) == BlocksOf(w, ino)
  {
    hide Owned, BlocksOf, OwnedByFile;
    AllBlocksOf(v, owner, live, ino);
    AllBlocksOf(w, owner, live, ino);
  }

  /** Removes a name. The file goes, and all its blocks with it, if that was its last name and nobody
      has it in memory. */
  method RemoveName(fs: SfsFs, dv: SfsVnode, name: Name, memory: bool) returns (e: Errno)
    requires Ordered(fs, dv)
    modifies fs`disk, fs`freemapdirty, fs`owner, fs`live, fs.freemap.v, fs`vnodes, fs`table
    modifies dv`i, dv`dirty, fs.table.Values`refcount, fs.table.Values`i, fs.table.Values`dirty
    ensures Ordered(fs, dv)
    ensures e == LookOutcome(old(fs.State()), name, memory)
    ensures fs.table == old(fs.table)
    ensures forall i :: i in old(fs.table) ==> old(fs.table[i]).refcount == old(fs.table[i].refcount)
    ensures e != Ok ==> SameFiles(old(fs.State()), fs.State(), fs.live) && fs.live == old(fs.live) && Names(fs.State()) == Names(old(fs.State()))
    ensures e != Ok ==> fs.State().marked == old(fs.State()).marked
    ensures e == Ok ==>
              var v, w := old(fs.State()), fs.State(); var ino := Names(v)[name];
              var gone := InodeOf(v, ino).links == 1 && ino !in old(fs.table);
              && Names(w) == Names(v) - {name}
              && fs.live == (if gone then old(fs.live) - {ino} else old(fs.live))
              && w.marked == v.marked - (if gone then BlocksOf(v, ino) else {})
              && OnlyNamesChanged(v, w, fs.live, ino)
              && (ino in fs.live ==> InodeOf(w, ino).links + 1 == InodeOf(v, ino).links)
  {
    hide Owned, SameFile, SameFiles, Slot, EntryAt, Dir, Names, NameSpace, UniqueNames, InodeOf, Links, EntryWritten,
         OnlyNamesChanged, BlocksOf, OwnedByFile, EntryNeed, SfsFs.State, SfsFs.Sound;
    ghost var u := fs.State();
    RefcountsPositive(fs);
    var victim, slot;
    e, victim, slot := LookOnce(fs, dv, name, memory);
    NamesByDir(u, fs.State());
    if e != Ok {
      return;
    }
    ghost var v, live := fs.State(), fs.live;
    HeldInode(fs, victim);
    NamedSlot(v, live, slot);
    e := DirUnlink(fs, dv, slot);
    StateFields(fs);
    UncountLink(fs, dv, victim, v, slot);
    StateFields(fs);
    ghost var w := fs.State();
    HeldInode(fs, victim);
    SameBlocks(u, w, fs.owner, live, victim.ino);
    Release(fs, dv, victim);
    NamesByDir(w, fs.State());
    OnlyNamesAround(u, v, w, fs.State(), live, fs.live, victim.ino);
  }

  ghost predicate MapsNothing(d: Inode) {
    d.indirect == 0 && forall k :: 0 <= k < NDIRECT ==> d.direct[k] == 0
  }

  lemma NoSlots(v: View, ino: nat)
    requires InodeOf(v, ino).indirect == 0
    ensures MapsNothing(InodeOf(v, ino)) <==> forall k: nat :: Slot(v, ino, k) == 0
  {
    if forall k: nat :: Slot(v, ino, k) == 0 {
      forall k | 0 <= k < NDIRECT
        ensures InodeOf(v, ino).direct[k] == 0
      {
        DirectSlot(v, ino, k);
      }
    }
  }

  /** A file that maps nothing owns only its inode. */
  lemma OnlyItsInode(v: View, ino: nat)
    requires MapsNothing(InodeOf(v, ino))
    ensures BlocksOf(v, ino) == {ino}
  {
    hide Slot, InodeOf;
    NoSlots(v, ino);
  }

  /** A new object is entered in no directory yet, so the name space is as it was. */
  method MakeFile(fs: SfsFs, dv: SfsVnode, memory: bool) returns (e: Errno, sv: SfsVnode?)
    requires Ordered(fs, dv)
    modifies fs`disk, fs`freemapdirty, fs`owner, fs`live, fs.freemap.v, fs`vnodes, fs`table, fs.table.Values`refcount
    ensures Ordered(fs, dv) && Dir(fs.State()) == Dir(old(fs.State()))
    ensures SameFiles(old(fs.State()), fs.State(), old(fs.live))
    ensures e == Ok || e == ENOSPC || e == ENOMEM
    ensures e == ENOSPC <==> |FreeBlocks(old(fs.State()))| == 0
    ensures e == ENOMEM <==> |FreeBlocks(old(fs.State()))| > 0 && !memory
    ensures e != Ok ==> fs.live == old(fs.live) && fs.State().marked == old(fs.State()).marked
    ensures e == Ok ==>
              && |FreeBlocks(fs.State())| + 1 == |FreeBlocks(old(fs.State()))| && EntryNeed(fs.State()) == EntryNeed(old(fs.State()))
    ensures e == Ok ==>
              && sv != null && fresh(sv) && fs.Holds(sv) && sv != dv && sv.refcount == 1
              && sv.ino !in old(fs.live) && fs.live == old(fs.live) + {sv.ino}
              && sv.i.size == 0 && sv.i.typ == TYPE_FILE && sv.i.links == 0 && MapsNothing(sv.i)
              && forall k: nat :: Slot(fs.State(), sv.ino, k) == 0
    ensures fs.table == if e == Ok then old(fs.table)[sv.ino := sv] else old(fs.table)
    ensures forall i :: i in old(fs.table) ==> old(fs.table[i]).refcount == old(fs.table[i].refcount)
  {
    hide Owned, SameFile, SameFiles, Slot, Dir, UniqueNames, InodeOf, Links, FreeBlocks, EntryNeed, SfsFs.State, SfsFs.Sound;
    ghost var v, live := fs.State(), fs.live;
    StateFields(fs);
    NoneFree(v);
    e, sv := MakeObj(fs, TYPE_FILE, memory);
    if e != Ok {
      NameSpaceSame(v, fs.State(), live, live);
      return;
    }
    HeldInode(fs, sv);
    NoSlots(fs.State(), sv.ino);
    ZeroIsNotLive(fs.State(), fs.owner, fs.live);
    Born(v, fs.State(), live, sv.ino);
    StateFields(fs);
    OneLessFree(v, fs.State(), sv.ino);
    SameNeed(v, fs.State());
  }

  /** What creating a file comes to when the name is not there: it takes one block for the inode, and
      what the entry needs. */
  ghost function CreateOutcome(v: View, name: Name, memory: bool): Errno {
    if |FreeBlocks(v)| == 0 then ENOSPC
    else if !memory then ENOMEM
    else EntryOutcome(v, name, |FreeBlocks(v)| - 1)
  }

  lemma TableLive(fs: SfsFs)
    requires fs.Valid()
    ensures fs.table.Keys <= fs.live
  {
    TableIsLoaded(fs);
  }

  lemma SameOutcome(v: View, w: View, name: Name, free: nat)
    requires Dir(w) == Dir(v) && EntryNeed(w) == EntryNeed(v)
    ensures EntryOutcome(w, name, free) == EntryOutcome(v, name, free)
  {
    hide Dir, EntryNeed, UniqueNames, NamesOf;
  }

  /** The part of sfs_creat for a name that is not there. */
  method CreateNew(fs: SfsFs, dv: SfsVnode, name: Name, memory: bool) returns (e: Errno, sv: SfsVnode?)
    requires Ordered(fs, dv) && name !in Names(fs.State())
    modifies fs`disk, fs`freemapdirty, fs`owner, fs`live, fs.freemap.v, fs`vnodes, fs`table
    modifies dv`i, dv`dirty, fs.table.Values`refcount
    ensures Ordered(fs, dv)
    ensures e == CreateOutcome(old(fs.State()), name, memory)
    ensures forall i :: i in old(fs.table) ==> old(fs.table[i]).refcount == old(fs.table[i].refcount)
    ensures e != Ok ==>
              && fs.table == old(fs.table)
              && Names(fs.State()) == Names(old(fs.State())) && fs.live == old(fs.live)
              && SameFiles(old(fs.State()), fs.State(), fs.live)
    ensures e == Ok ==>
              && sv != null && fs.Holds(sv) && fresh(sv) && sv.refcount == 1 && sv.ino !in old(fs.table)
              && fs.table == old(fs.table)[sv.ino := sv]
              && sv.ino !in old(fs.live) && fs.live == old(fs.live) + {sv.ino}
              && Names(fs.State()) == Names(old(fs.State()))[name := sv.ino]
              && OnlyNamesChanged(old(fs.State()), fs.State(), old(fs.live), sv.ino)
              && sv.i.size == 0 && sv.i.typ == TYPE_FILE && sv.i.links == 1
              && forall p: nat :: Raw(fs.State(), sv.ino, p) == 0
  {
    hide Owned, SameFile, SameFiles, Slot, EntryAt, Dir, Names, NameSpace, UniqueNames, InodeOf, Links, EntryWritten,
         OnlyNamesChanged, FreeBlocks, EntryNeed, EntryOutcome, TargetSlot, DirFull, Raw, SfsFs.State, SfsFs.Sound;
    ghost var u, live := fs.State(), fs.live;
    TableLive(fs);
    HeldIsLive(fs, dv);
    e, sv := MakeFile(fs, dv, memory);
    NamesByDir(u, fs.State());
    if e != Ok {
      return;
    }
    ghost var v := fs.State();
    SameOutcome(u, v, name, |FreeBlocks(v)|);
    DirSmall(v, fs.live);
    TargetFacts(v);
    SmallNumbers(fs);
    HeldIsLive(fs, sv);
    HeldInode(fs, sv);
    var slot;
    e, slot := DirLink(fs, dv, name, sv.ino);
    if e != Ok {
      Discard(fs, dv, sv, u, v, live);
      return e, null;
    }
    ghost var w := fs.State();
    OthersKept(v, w, fs.live, slot, Dirent(sv.ino, name));
    SameLinks(v, w, fs.live - {ROOTDIR_INO}, sv.ino);
    HeldInode(fs, sv);
    CountLink(fs, dv, sv, v, slot, name);
    OnlyNamesSince(u, v, fs.State(), live, fs.live, sv.ino);
    NewIsZero(v, fs.State(), fs.live, sv.ino);
  }

  /** A new file has no bytes of its own. */
  lemma NewIsZero(v: View, w: View, live: set<nat>, ino: nat)
    requires OnlyNamesChanged(v, w, live, ino) && ino in live && forall k: nat :: Slot(v, ino, k) == 0
    ensures forall p: nat :: Raw(w, ino, p) == 0
  {
    hide Slot, InodeOf, SameFile;
    forall p: nat
      ensures Raw(w, ino, p) == 0
    {
      var k := p / BLOCKSIZE;
      assert Slot(v, ino, k) == 0;
      assert FileBlock(w, ino, k) == ZeroBlock();
    }
  }

  /** Opens a file by name, creating it if there is none, or, if excl is set, only then. */
  method Creat(fs: SfsFs, dv: SfsVnode, name: Name, excl: bool, memory: bool) returns (e: Errno, sv: SfsVnode?)
    requires Ordered(fs, dv)
    modifies fs`disk, fs`freemapdirty, fs`owner, fs`live, fs.freemap.v, fs`vnodes, fs`table
    modifies dv`i, dv`dirty, fs.table.Values`refcount
    ensures e == Ok ==>
              && sv != null && fs.Holds(sv) && sv != dv
              && var ino := sv.ino;
              && fs.table == old(fs.table)[ino := sv]
              && if ino in old(fs.table) then sv == old(fs.table[ino]) && sv.refcount == old(fs.table[ino].refcount) + 1
                 else fresh(sv) && sv.refcount == 1
    ensures e != Ok ==> fs.table == old(fs.table)
    ensures forall i :: i in old(fs.table) && (e != Ok || old(fs.table[i]) != sv) ==> old(fs.table[i]).refcount == old(fs.table[i].refcount)
    ensures Ordered(fs, dv)
    ensures e == if name !in Names(old(fs.State())) then CreateOutcome(old(fs.State()), name, memory)
                 else if excl then EEXIST
                 else LookOutcome(old(fs.State()), name, memory)
    ensures e != Ok || name in Names(old(fs.State())) ==>
              && Names(fs.State()) == Names(old(fs.State())) && fs.live == old(fs.live)
              && SameFiles(old(fs.State()), fs.State(), fs.live)
    ensures e == Ok && name in Names(old(fs.State())) ==> sv.ino == Names(old(fs.State()))[name]
    ensures e == Ok && name !in Names(old(fs.State())) ==>
              && sv.ino !in old(fs.live) && fs.live == old(fs.live) + {sv.ino}
              && Names(fs.State()) == Names(old(fs.State()))[name := sv.ino]
              && OnlyNamesChanged(old(fs.State()), fs.State(), old(fs.live), sv.ino)
              && sv.i.size == 0 && sv.i.typ == TYPE_FILE && sv.i.links == 1
              && forall p: nat :: Raw(fs.State(), sv.ino, p) == 0
  {
    hide Owned, SameFile, SameFiles, Slot, EntryAt, Dir, Names, NameSpace, UniqueNames, InodeOf, Links, EntryWritten,
         OnlyNamesChanged, CreateOutcome, Raw, SfsFs.State, SfsFs.Sound;
    ghost var u, live := fs.State(), fs.live;
    SameFilesReflexive(u, live);
    TableIsLoaded(fs);
    sv := null;
    var ino, slot, emptyslot;
    e, ino, slot, emptyslot := FindName(fs, dv, name);
    if e == Ok && excl {
      return EEXIST, null;
    }
    if e == Ok {
      NamedSlot(u, live, slot);
      NamedHasLinks(u, live, slot);
      HeldIsLive(fs, dv);
      e, sv := LoadVnode(fs, ino, TYPE_INVAL, memory);
      NameSpaceSame(u, fs.State(), live, live);
      NamesByDir(u, fs.State());
      return;
    }
    e, sv := CreateNew(fs, dv, name, memory);
  }

  lemma OnlyNamesSince(u: View, v: View, w: View, live: set<nat>, live': set<nat>, ino: nat)
    requires SameFiles(u, v, live) && OnlyNamesChanged(v, w, live', ino) && live' == live + {ino} && ino !in live
    ensures OnlyNamesChanged(u, w, live, ino)
  {
    hide InodeOf, FileBlock;
  }

  /** A new file that could not be entered in the directory is erased again. */
  method Discard(fs: SfsFs, dv: SfsVnode, sv: SfsVnode, ghost u: View, ghost v: View, ghost live: set<nat>)
    requires fs.Valid() && fs.Holds(dv) && dv.ino == ROOTDIR_INO && fs.Holds(sv) && sv != dv && sv.refcount == 1
    requires NameSpace(v, fs.live) && SameFiles(v, fs.State(), fs.live) && InodeOf(v, sv.ino).links == 0
    requires SameFiles(u, v, live) && Dir(u) == Dir(v) && fs.live == live + {sv.ino} && sv.ino !in live && MapsNothing(sv.i)
    modifies fs`disk, fs`freemapdirty, fs`owner, fs`live, fs`vnodes, fs`table, fs.freemap.v, sv`i, sv`dirty, sv`refcount
    ensures Ordered(fs, dv) && Names(fs.State()) == Names(u) && fs.live == live && SameFiles(u, fs.State(), live)
    ensures fs.State().marked == old(fs.State()).marked - {sv.ino} && fs.table == old(fs.table) - {sv.ino}
  {
    hide Owned, SameFile, SameFiles, Slot, EntryAt, Dir, Names, NameSpace, UniqueNames, InodeOf, Links, BlocksOf, SfsFs.State, SfsFs.Sound;
    ghost var w := fs.State();
    HeldIsLive(fs, dv);
    NameSpaceSame(v, w, fs.live, fs.live);
    HeldIsLive(fs, sv);
    HeldInode(fs, sv);
    OnlyItsInode(w, sv.ino);
    HeldInode(fs, sv);
    SameLinks(v, w, fs.live, sv.ino);
    Release(fs, dv, sv);
    assert fs.live == live;
    SubsetSame(v, w, live, live + {sv.ino});
    SameFilesTransitive(u, v, w, live);
    SameFilesTransitive(u, w, fs.State(), live);
    NamesByDir(u, fs.State());
  }

  lemma SubsetSame(v: View, w: View, live: set<nat>, live': set<nat>)
    requires SameFiles(v, w, live') && live <= live'
    ensures SameFiles(v, w, live)
  {
  }

  lemma NamedFile(fs: SfsFs, dv: SfsVnode, name: Name, slot: nat)
    requires Ordered(fs, dv) && Used(Dir(fs.State()), slot) && Dir(fs.State())[slot].name == name
    ensures name in Names(fs.State()) && Names(fs.State())[name] == Dir(fs.State())[slot].ino
  {
    hide Dir, Names, Owned, InodeOf, Links;
    NamedSlot(fs.State(), fs.live, slot);
  }

  /** Enters the new name and clears the entry of the old one. */
  method MoveName(fs: SfsFs, dv: SfsVnode, g1: SfsVnode, slot1: nat, n2: Name) returns (e: Errno)
    requires Ordered(fs, dv) && fs.Holds(g1) && g1 != dv && g1.i.links > 0
    requires Used(Dir(fs.State()), slot1) && Dir(fs.State())[slot1].ino == g1.ino
    modifies fs`disk, fs`freemapdirty, fs`owner, fs.freemap.v, dv`i, dv`dirty, g1`i, g1`dirty
    ensures Ordered(fs, dv) && g1.i.links > 0
    ensures e == EntryOutcome(old(fs.State()), n2, |FreeBlocks(old(fs.State()))|)
    ensures e == Ok ==>
              && n2 !in Names(old(fs.State()))
              && Names(fs.State()) == Names(old(fs.State()))[n2 := g1.ino] - {Dir(old(fs.State()))[slot1].name}
              && forall i :: i in fs.live && i != ROOTDIR_INO ==> SameFile(old(fs.State()), fs.State(), i)
    ensures e != Ok ==> Names(fs.State()) == Names(old(fs.State())) && SameFiles(old(fs.State()), fs.State(), fs.live)
  {
    hide Owned, SameFile, SameFiles, Slot, EntryAt, Dir, Names, NameSpace, UniqueNames, InodeOf, Links, EntryWritten,
         OnlyNamesChanged, FreeBlocks, EntryNeed, EntryOutcome, TargetSlot, DirFull, SfsFs.State, SfsFs.Sound;
    ghost var v, live := fs.State(), fs.live;
    DirSmall(v, live);
    TargetFacts(v);
    HeldInode(fs, g1);
    HeldIsLive(fs, g1);
    HeldIsLive(fs, dv);
    SmallNumbers(fs);
    NamedSlot(v, live, slot1);
    var slot2;
    e, slot2 := DirLink(fs, dv, n2, g1.ino);
    if e != Ok {
      NameSpaceSame(v, fs.State(), live, live);
      NamesByDir(v, fs.State());
      return;
    }
    CountLink(fs, dv, g1, v, slot2, n2);
    ghost var w := fs.State();
    HeldInode(fs, g1);
    assert Used(Dir(w), slot1) && Dir(w)[slot1] == Dir(v)[slot1];
    e := DirUnlink(fs, dv, slot1);
    if e != Ok {
      assert false;
    }
    UncountLink(fs, dv, g1, w, slot1);
    HeldInode(fs, g1);
    RenamedFile(v, w, fs.State(), live, g1.ino);
  }

  /** Gives a file a new name in place of an old one. Clearing the old entry cannot fail, so the
      recovery that would undo the new one is never needed. */
  method Rename(fs: SfsFs, dv: SfsVnode, n1: Name, n2: Name, memory: bool) returns (e: Errno)
    requires Ordered(fs, dv)
    modifies fs`disk, fs`freemapdirty, fs`owner, fs`live, fs.freemap.v, fs`vnodes, fs`table
    modifies dv`i, dv`dirty, fs.table.Values`refcount, fs.table.Values`i, fs.table.Values`dirty
    ensures Ordered(fs, dv) && fs.live == old(fs.live) && fs.table == old(fs.table)
    ensures forall i :: i in old(fs.table) ==> old(fs.table[i]).refcount == old(fs.table[i].refcount)
    ensures e == if LookOutcome(old(fs.State()), n1, memory) != Ok then LookOutcome(old(fs.State()), n1, memory)
                 else EntryOutcome(old(fs.State()), n2, |FreeBlocks(old(fs.State()))|)
    ensures e == Ok ==>
              var names := Names(old(fs.State()));
              && n1 in names && n2 !in names
              && Names(fs.State()) == names[n2 := names[n1]] - {n1}
              && forall i :: i in fs.live && i != ROOTDIR_INO ==> SameFile(old(fs.State()), fs.State(), i)
    ensures e != Ok ==> Names(fs.State()) == Names(old(fs.State())) && SameFiles(old(fs.State()), fs.State(), fs.live)
  {
    hide Owned, SameFile, SameFiles, EntryAt, Dir, Names, NameSpace, InodeOf, FreeBlocks, EntryNeed, EntryOutcome,
         SfsFs.State, SfsFs.Sound;
    ghost var u, live := fs.State(), fs.live;
    RefcountsPositive(fs);
    StateFields(fs);
    var g1, slot1;
    e, g1, slot1 := LookOnce(fs, dv, n1, memory);
    StateFields(fs);
    NamesByDir(u, fs.State());
    if e != Ok {
      return;
    }
    ghost var v := fs.State();
    SameFree(u, v);
    SameOutcome(u, v, n2, |FreeBlocks(u)|);
    NamedFile(fs, dv, n1, slot1);
    e := MoveName(fs, dv, g1, slot1, n2);
    ghost var w := fs.State();
    HeldInode(fs, g1);
    Release(fs, dv, g1);
    NamesByDir(w, fs.State());
    SameAround(u, v, w, fs.State(), live);
  }

  lemma SameFree(v: View, w: View)
    requires w.nblocks == v.nblocks && w.marked == v.marked
    ensures FreeBlocks(w) == FreeBlocks(v)
  {
  }

  lemma RenamedFile(v: View, w: View, x: View, live: set<nat>, ino: nat)
    requires OnlyNamesChanged(v, w, live, ino) && OnlyNamesChanged(w, x, live, ino) && ino in live
    requires InodeOf(x, ino).links == InodeOf(v, ino).links
    ensures forall i :: i in live && i != ROOTDIR_INO ==> SameFile(v, x, i)
  {
    hide InodeOf, FileBlock;
    forall i | i in live && i != ROOTDIR_INO
      ensures SameFile(v, x, i)
    {
      if i != ino {
        assert SameFile(v, w, i) && SameFile(w, x, i);
      }
    }
  }

  lemma SameAround(u: View, v: View, w: View, x: View, live: set<nat>)
    requires SameFiles(u, v, live) && SameFiles(w, x, live)
    ensures SameFiles(v, w, live) ==> SameFiles(u, x, live)
    ensures (forall i :: i in live && i != ROOTDIR_INO ==> SameFile(v, w, i)) ==>
              forall i :: i in live && i != ROOTDIR_INO ==> SameFile(u, x, i)
  {
    hide InodeOf, FileBlock;
    forall i | i in live && SameFile(v, w, i)
      ensures SameFile(u, x, i)
    {
      assert SameFile(u, v, i) && SameFile(w, x, i);
    }
  }

  // ---------------------------------------------------------------- reading, writing, truncating

  /** A change of one file's bytes and size keeps the name space. */
  lemma BytesChanged(v: View, w: View, live: set<nat>, ino: nat)
    requires NameSpace(v, live) && ino in live && ino != ROOTDIR_INO
    requires InodeOf(w, ino).typ == InodeOf(v, ino).typ && InodeOf(w, ino).links == InodeOf(v, ino).links
    requires forall i :: i in live && i != ino ==> SameFile(v, w, i)
    ensures NameSpace(w, live) && Names(w) == Names(v)
  {
    hide FileBlock, Dir, Links;
    assert SameFile(v, w, ROOTDIR_INO);
    DirSame(v, w);
  }

  lemma OutcomeKeeps(v: View, w: View, live: set<nat>, ino: nat, size: nat, c: Cursor, mem: seq<Byte>, e: Errno, n: nat)
    requires WriteOutcome(v, w, live, ino, size, c, mem, e, n)
    ensures InodeOf(w, ino).typ == InodeOf(v, ino).typ && InodeOf(w, ino).links == InodeOf(v, ino).links
    ensures forall i :: i in live && i != ino ==> SameFile(v, w, i)
  {
    hide InodeOf, FileBlock;
  }

  lemma OrderedParts(fs: SfsFs, dv: SfsVnode)
    requires Ordered(fs, dv)
    ensures fs.Valid() && NameSpace(fs.State(), fs.live) && fs.Holds(dv) && dv.ino == ROOTDIR_INO
    ensures forall sv :: fs.Holds(sv) && sv != dv ==> sv.ino != dv.ino
  {
  }

  lemma OrderedWhole(fs: SfsFs, dv: SfsVnode)
    requires fs.Valid() && NameSpace(fs.State(), fs.live) && fs.Holds(dv) && dv.ino == ROOTDIR_INO
    ensures Ordered(fs, dv)
  {
  }

  /** Writing to a file. Directories cannot be written to. */
  method Write(fs: SfsFs, dv: SfsVnode, sv: SfsVnode, uio: Uio) returns (e: Errno, ghost n: nat)
    requires Ordered(fs, dv) && fs.Holds(sv) && sv != dv && Ready(uio) && Apart(fs, uio) && uio.rw.Write?
    modifies fs`disk, fs`freemapdirty, fs`owner, fs.freemap.v, sv`i, sv`dirty
    modifies uio`iov, uio`resid, uio`offset, uio.space
    ensures Ordered(fs, dv) && Names(fs.State()) == Names(old(fs.State()))
    ensures uio.space[..] == old(uio.space[..]) && Ready(uio)
    ensures n <= old(uio.resid) && CursorOf(uio) == Ahead(old(CursorOf(uio)), n)
    ensures WriteOutcome(old(fs.State()), fs.State(), fs.live, sv.ino, old(sv.i.size), old(CursorOf(uio)), uio.space[..], e, n)
  {
    hide *;
    OrderedParts(fs, dv);
    ghost var v := fs.State();
    HeldInode(fs, sv);
    HeldIsLive(fs, sv);
    e, n := Io(fs, sv, uio);
    OutcomeKeeps(v, fs.State(), fs.live, sv.ino, old(sv.i.size), old(CursorOf(uio)), uio.space[..], e, n);
    BytesChanged(v, fs.State(), fs.live, sv.ino);
    OrderedWhole(fs, dv);
  }

  /** Truncating a file, with the name space around it. */
  method Truncate(fs: SfsFs, dv: SfsVnode, sv: SfsVnode, len: nat)
    requires Ordered(fs, dv) && fs.Holds(sv) && sv != dv
    modifies fs`disk, fs`freemapdirty, fs`owner, fs.freemap.v, sv`i, sv`dirty
    ensures Ordered(fs, dv) && Names(fs.State()) == Names(old(fs.State()))
    ensures sv.i.size == len % WORD_LIMIT
    ensures forall i :: i in fs.live && i != sv.ino ==> SameFile(old(fs.State()), fs.State(), i)
    ensures forall p: nat :: Raw(fs.State(), sv.ino, p)
                             == if Cut(BlockLength(len), p / BLOCKSIZE) then 0 else Raw(old(fs.State()), sv.ino, p)
  {
    hide Owned, SameFile, Slot, Dir, Names, NameSpace, InodeOf, Links, FileBlock, Cut, BlockLength, Released, DropsIndirect,
         SfsFs.State, SfsFs.Sound;
    ghost var v := fs.State();
    HeldInode(fs, sv);
    HeldIsLive(fs, sv);
    Itrunc(fs, sv, len);
    HeldInode(fs, sv);
    BytesChanged(v, fs.State(), fs.live, sv.ino);
  }
}
