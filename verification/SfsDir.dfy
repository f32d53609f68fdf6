/** Directory operations (sfs_dir.c) on the volume's only directory. */
module SfsDir {
  import opened SfsLayout
  import opened SfsState
  import opened SfsFiles
  import opened SfsNames
  import opened SfsVolume
  import opened SfsBalloc
  import opened SfsBmap
  import opened SfsIo
  import opened SfsInode

  /** The volume is consistent, and dv is the cached root directory. */
  ghost predicate Ordered(fs: SfsFs, dv: SfsVnode)
    reads fs, fs.freemap.v, fs.table.Values
  {
    fs.Valid() && NameSpace(fs.State(), fs.live) && fs.Holds(dv) && dv.ino == ROOTDIR_INO
  }

  lemma EntryPosition(slot: nat)
    ensures slot * DIRENTSIZE % BLOCKSIZE + DIRENTSIZE <= BLOCKSIZE
    ensures slot * DIRENTSIZE < MAXFILEBYTES <==> (slot + 1) * DIRENTSIZE <= MAXFILEBYTES
  {
    var q, r := slot / 8, slot % 8;
    assert slot * DIRENTSIZE == q * BLOCKSIZE + r * DIRENTSIZE;
  }

  /** Where no block is mapped there are only unused entries. */
  lemma UnmappedIsUnused(v: View, slot: nat)
    requires Slot(v, ROOTDIR_INO, slot * DIRENTSIZE / BLOCKSIZE) == 0
    ensures EntryAt(v, slot).ino == NOINO
  {
    hide Slot, CString;
    var pos := slot * DIRENTSIZE;
    var k := pos / BLOCKSIZE;
    EntryPosition(slot);
    ContentsInBlock(v, ROOTDIR_INO, k, pos % BLOCKSIZE, DIRENTSIZE);
    assert Contents(v, ROOTDIR_INO, pos, DIRENTSIZE) == ZeroBlock()[pos % BLOCKSIZE..pos % BLOCKSIZE + DIRENTSIZE];
  }

  method ReadDir(fs: SfsFs, dv: SfsVnode, slot: nat) returns (e: Errno, sd: Dirent)
    requires Ordered(fs, dv) && slot < |Dir(fs.State())|
    modifies fs`disk, fs`freemapdirty, fs`owner, fs.freemap.v, dv`i, dv`dirty
    ensures fs.Valid() && fs.State() == old(fs.State()) && fs.owner == old(fs.owner)
    ensures e == Ok && sd == Dir(fs.State())[slot]
  {
    hide Owned, SfsFs.State, SfsFs.Sound, Contents, DecodeDirent, InodeOf;
    EntryPosition(slot);
    var actualpos := slot * DIRENTSIZE;
    var bytes;
    e, bytes := MetaRead(fs, dv, actualpos, DIRENTSIZE);
    sd := DecodeDirent(bytes);
  }

  /** Every slot of a directory of the largest size is used. */
  ghost predicate DirFull(v: View) {
    |Dir(v)| == 1144 && forall s :: 0 <= s < 1144 ==> Used(Dir(v), s)
  }

  /** The last unused slot among the first n, or -1. */
  function LastUnused(d: seq<Dirent>, n: nat): int
    requires n <= |d|
  {
    if n == 0 then -1 else if d[n - 1].ino == NOINO then n - 1 else LastUnused(d, n - 1)
  }

  /** Where a new entry goes: into the last unused slot, or behind all others. */
  function TargetSlot(d: seq<Dirent>): nat {
    if LastUnused(d, |d|) >= 0 then LastUnused(d, |d|) else |d|
  }

  lemma {:induction false} LastUnusedIs(d: seq<Dirent>, n: nat)
    requires n <= |d|
    ensures -1 <= LastUnused(d, n) < n && (LastUnused(d, n) >= 0 ==> !Used(d, LastUnused(d, n)))
    ensures forall s :: LastUnused(d, n) < s < n ==> Used(d, s)
  {
    if n > 0 {
      LastUnusedIs(d, n - 1);
    }
  }

  lemma DirSmall(v: View, live: set<nat>)
    requires NameSpace(v, live)
    ensures |Dir(v)| <= 1144
  {
    hide InodeOf, EntryAt, Links;
  }

  lemma TargetFacts(v: View)
    requires |Dir(v)| <= 1144
    ensures TargetSlot(Dir(v)) <= |Dir(v)| && !Used(Dir(v), TargetSlot(Dir(v)))
    ensures TargetSlot(Dir(v)) == 1144 <==> DirFull(v)
  {
    hide Dir;
    LastUnusedIs(Dir(v), |Dir(v)|);
  }

  /** How many free blocks it takes to add an entry. */
  ghost function EntryNeed(v: View): nat {
    Need(v, ROOTDIR_INO, TargetSlot(Dir(v)) * DIRENTSIZE / BLOCKSIZE)
  }

  /** What adding an entry for a name comes to when so many blocks are free. */
  ghost function EntryOutcome(v: View, name: Name, free: nat): Errno {
    if name in Names(v) then EEXIST
    else if |name| + 1 > NAMELEN then ENAMETOOLONG
    else if DirFull(v) then EFBIG
    else if free < EntryNeed(v) then ENOSPC
    else Ok
  }

  /** What loading the file of a name comes to. */
  ghost function LookOutcome(v: View, name: Name, memory: bool): Errno {
    if name !in Names(v) then ENOENT
    else if Names(v)[name] !in v.loaded && !memory then ENOMEM
    else Ok
  }

  /** The number of entries, used or not; a size that is no multiple of the entry size panics. */
  method NEntries(fs: SfsFs, dv: SfsVnode) returns (n: nat)
    requires Ordered(fs, dv)
    ensures n == |Dir(fs.State())| <= 1144
  {
    hide Owned, SfsFs.State, SfsFs.Sound, EntryAt, Links;
    HeldInode(fs, dv);
    assert dv.i.typ == TYPE_DIR;
    assert dv.i.size % DIRENTSIZE == 0;
    n := dv.i.size / DIRENTSIZE;
  }

  /** Looks a name up, and reports the last unused slot seen, or -1. Seeing the name twice is
      asserted against. */
  method FindName(fs: SfsFs, dv: SfsVnode, name: Name) returns (e: Errno, ino: nat, slot: nat, emptyslot: int)
    requires Ordered(fs, dv)
    modifies fs`disk, fs`freemapdirty, fs`owner, fs.freemap.v, dv`i, dv`dirty
    ensures fs.Valid() && fs.State() == old(fs.State()) && fs.owner == old(fs.owner)
    ensures e == if name in Names(fs.State()) then Ok else ENOENT
    ensures e == Ok ==> Used(Dir(fs.State()), slot) && Dir(fs.State())[slot] == Dirent(ino, name)
    ensures emptyslot == LastUnused(Dir(fs.State()), |Dir(fs.State())|)
  {
    hide Owned, SfsFs.State, SfsFs.Valid, NamesOf, InodeOf, Dir, Links, DecodeDirent, EntryAt;
    ghost var v := fs.State();
    ghost var d := Dir(v);
    var nentries := NEntries(fs, dv);
    var found := false;
    ino, slot, emptyslot := 0, 0, -1;
    for i := 0 to nentries
      invariant fs.Valid() && fs.State() == v && fs.Holds(dv) && fs.owner == old(fs.owner)
      invariant emptyslot == LastUnused(d, i)
      invariant found ==> slot < i && Used(d, slot) && d[slot] == Dirent(ino, name)
      invariant !found ==> forall s :: 0 <= s < i && Used(d, s) ==> d[s].name != name
    {
      var result, tsd := ReadDir(fs, dv, i);
      if tsd.ino == NOINO {
        emptyslot := i;
      } else {
        assert Used(d, i);
        if tsd.name == name {
          assert !found;
          found := true;
          slot, ino := i, tsd.ino;
        }
      }
    }
    e := if found then Ok else ENOENT;
  }

  /** One entry of the directory has been overwritten, or added at the end; no other file changed. */
  ghost predicate EntryWritten(v: View, w: View, live: set<nat>, slot: nat, e: Dirent) {
    && slot <= |Dir(v)| && Dir(w) == Put(Dir(v), slot, e)
    && InodeOf(w, ROOTDIR_INO).typ == InodeOf(v, ROOTDIR_INO).typ && InodeOf(w, ROOTDIR_INO).links == InodeOf(v, ROOTDIR_INO).links
    && InodeOf(w, ROOTDIR_INO).size % DIRENTSIZE == 0 && InodeOf(w, ROOTDIR_INO).size <= MAXFILEBYTES
    && forall i :: i in live && i != ROOTDIR_INO ==> SameFile(v, w, i)
  }

  lemma EntryWrittenBy(v: View, w: View, live: set<nat>, slot: nat, e: Dirent)
    requires NameSpace(v, live) && slot <= |Dir(v)| && slot * DIRENTSIZE < MAXFILEBYTES
    requires e.ino < WORD_LIMIT && |e.name| < NAMELEN
    requires FileExtended(v, w, live, ROOTDIR_INO, slot * DIRENTSIZE, EncodeDirent(e),
                          Max(InodeOf(v, ROOTDIR_INO).size, slot * DIRENTSIZE + DIRENTSIZE))
    ensures EntryWritten(v, w, live, slot, e)
  {
    hide InodeOf, EncodeDirent, Raw, Dir;
    EntryPosition(slot);
    DirWritten(v, w, live, slot, e);
  }

  method WriteDir(fs: SfsFs, dv: SfsVnode, slot: nat, sd: Dirent) returns (e: Errno)
    requires Ordered(fs, dv) && slot <= |Dir(fs.State())|
    requires sd.ino < WORD_LIMIT && |sd.name| < NAMELEN
    modifies fs`disk, fs`freemapdirty, fs`owner, fs.freemap.v, dv`i, dv`dirty
    ensures fs.Valid()
    ensures e == Ok || e == EFBIG || e == ENOSPC
    ensures e == EFBIG <==> slot == 1144
    ensures e == ENOSPC <==> |FreeBlocks(old(fs.State()))| < Need(old(fs.State()), ROOTDIR_INO, slot * DIRENTSIZE / BLOCKSIZE)
    ensures Used(Dir(old(fs.State())), slot) ==>
              e == Ok && fs.owner == old(fs.owner) && fs.State().marked == old(fs.State()).marked
    ensures if e == Ok then EntryWritten(old(fs.State()), fs.State(), fs.live, slot, sd)
            else SameFiles(old(fs.State()), fs.State(), fs.live)
  {
    hide Owned, Slot, SameFiles, SfsFs.State, SfsFs.Sound, FileExtended, EncodeDirent, EntryAt, EntryWritten, Links, FreeBlocks;
    ghost var v := fs.State();
    HeldInode(fs, dv);
    EntryPosition(slot);
    var actualpos := slot * DIRENTSIZE;
    e := MetaWrite(fs, dv, actualpos, EncodeDirent(sd));
    if e == Ok {
      EntryWrittenBy(v, fs.State(), fs.live, slot, sd);
    }
    if Slot(v, ROOTDIR_INO, actualpos / BLOCKSIZE) == 0 {
      UnmappedIsUnused(v, slot);
    }
  }

  /** Adds an entry, in the last unused slot or at the end. */
  method DirLink(fs: SfsFs, dv: SfsVnode, name: Name, ino: nat) returns (e: Errno, slot: nat)
    requires Ordered(fs, dv) && ino != NOINO && ino < WORD_LIMIT
    modifies fs`disk, fs`freemapdirty, fs`owner, fs.freemap.v, dv`i, dv`dirty
    ensures fs.Valid()
    ensures e == EntryOutcome(old(fs.State()), name, |FreeBlocks(old(fs.State()))|)
    ensures if e == Ok
            then name !in Names(old(fs.State())) && slot == TargetSlot(Dir(old(fs.State())))
                 && EntryWritten(old(fs.State()), fs.State(), fs.live, slot, Dirent(ino, name))
            else SameFiles(old(fs.State()), fs.State(), fs.live)
  {
    hide Owned, SameFiles, SfsFs.State, SfsFs.Valid, EntryWritten, EntryAt, Dir, Names, InodeOf, Links, LastUnused, FreeBlocks, Need, DirFull;
    slot := 0;
    DirSmall(fs.State(), fs.live);
    TargetFacts(fs.State());
    SameFilesReflexive(fs.State(), fs.live);
    var result, _, _, emptyslot := FindName(fs, dv, name);
    if result == Ok {
      return EEXIST, slot;
    }
    if |name| + 1 > NAMELEN {
      return ENAMETOOLONG, slot;
    }
    if emptyslot < 0 {
      emptyslot := NEntries(fs, dv);
    }
    slot := emptyslot;
    e := WriteDir(fs, dv, emptyslot, Dirent(ino, name));
    StateFields(fs);
  }

  /** Clears an entry. An entry that was in use lies in a mapped block, so this cannot fail. */
  method DirUnlink(fs: SfsFs, dv: SfsVnode, slot: nat) returns (e: Errno)
    requires Ordered(fs, dv) && Used(Dir(fs.State()), slot)
    modifies fs`disk, fs`freemapdirty, fs`owner, fs.freemap.v, dv`i, dv`dirty
    ensures fs.Valid() && e == Ok && fs.owner == old(fs.owner) && fs.State().marked == old(fs.State()).marked
    ensures EntryWritten(old(fs.State()), fs.State(), fs.live, slot, Dirent(NOINO, []))
  {
    hide Owned, SfsFs.State, SfsFs.Valid, EntryWritten, EntryAt, Dir, InodeOf, Links;
    e := WriteDir(fs, dv, slot, Dirent(NOINO, []));
  }

  lemma NamedSlot(v: View, live: set<nat>, slot: nat)
    requires NameSpace(v, live) && Used(Dir(v), slot)
    ensures Dir(v)[slot].name in Names(v) && Names(v)[Dir(v)[slot].name] == Dir(v)[slot].ino
    ensures Dir(v)[slot].ino in live && Dir(v)[slot].ino != ROOTDIR_INO
  {
    hide Dir, Links, InodeOf;
  }

  lemma SameNeed(v: View, w: View)
    requires Dir(w) == Dir(v) && InodeOf(w, ROOTDIR_INO) == InodeOf(v, ROOTDIR_INO)
    requires forall k: nat :: Slot(w, ROOTDIR_INO, k) == Slot(v, ROOTDIR_INO, k)
    ensures EntryNeed(w) == EntryNeed(v)
  {
    hide Dir, InodeOf, Slot;
  }

  /** Looks a name up and loads the file it leads to. A name without links behind it panics. */
  method LookOnce(fs: SfsFs, dv: SfsVnode, name: Name, memory: bool) returns (e: Errno, sv: SfsVnode?, slot: nat)
    requires Ordered(fs, dv)
    modifies fs`disk, fs`freemapdirty, fs`owner, fs.freemap.v, dv`i, dv`dirty
    modifies fs`vnodes, fs`table, fs.table.Values`refcount
    ensures e == LookOutcome(old(fs.State()), name, memory)
    ensures fs.State().marked == old(fs.State()).marked && fs.owner == old(fs.owner)
    ensures EntryNeed(fs.State()) == EntryNeed(old(fs.State()))
    ensures e != Ok ==> fs.table == old(fs.table)
    ensures forall i :: i in old(fs.table) && (e != Ok || old(fs.table[i]) != sv) ==> old(fs.table[i]).refcount == old(fs.table[i].refcount)
    ensures e == Ok ==>
              && sv != null && fs.Holds(sv) && sv != dv && sv.i.links > 0 && sv.i.typ == TYPE_FILE
              && var ino := sv.ino;
              && Used(Dir(fs.State()), slot) && Dir(fs.State())[slot] == Dirent(ino, name)
              && fs.table == old(fs.table)[ino := sv]
              && (ino in old(fs.table) ==> sv == old(fs.table[ino]) && sv.refcount == old(fs.table[ino].refcount) + 1)
              && (ino !in old(fs.table) ==> fresh(sv) && sv.refcount == 1)
    ensures Ordered(fs, dv) && SameFiles(old(fs.State()), fs.State(), fs.live)
    ensures Dir(fs.State()) == Dir(old(fs.State()))
  {
    hide Owned, SameFile, SameFiles, SfsFs.State, SfsFs.Valid, EntryAt, Dir, Names, InodeOf, Links;
    ghost var v := fs.State();
    TableIsLoaded(fs);
    SameFilesReflexive(v, fs.live);
    sv := null;
    var ino, emptyslot;
    e, ino, slot, emptyslot := FindName(fs, dv, name);
    if e != Ok {
      return;
    }
    NamedHasLinks(v, fs.live, slot);
    NamedSlot(v, fs.live, slot);
    HeldInode(fs, dv);
    e, sv := LoadVnode(fs, ino, TYPE_INVAL, memory);
    NameSpaceSame(v, fs.State(), fs.live, fs.live);
    HeldInode(fs, dv);
    StateFields(fs);
    SameNeed(v, fs.State());
    if e != Ok {
      return;
    }
    HeldInode(fs, sv);
    NamedHasLinks(fs.State(), fs.live, slot);
    assert sv.i.links != 0;
  }
}
