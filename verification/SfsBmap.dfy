/** Block mapping and truncation (sfs_bmap.c). */
module SfsBmap {
  import opened Lib
  import opened Bitmaps
  import opened SfsLayout
  import opened SfsState
  import opened SfsSteps
  import opened SfsVolume
  import opened SfsBalloc

  lemma DirectSlot(v: View, ino: nat, k: nat)
    requires k < NDIRECT
    ensures Slot(v, ino, k) == InodeOf(v, ino).direct[k]
  {
  }

  lemma SameFilesReflexive(v: View, live: set<nat>)
    ensures SameFiles(v, v, live)
  {
  }

  /** The panics about blocks out of range or marked free cannot fire for a mapped block. */
  lemma MappedIsMarked(fs: SfsFs, sv: SfsVnode, k: nat)
    requires fs.Valid() && fs.Holds(sv) && k < MAXFILEBLOCKS && Slot(fs.State(), sv.ino, k) != 0
    ensures Slot(fs.State(), sv.ino, k) < fs.nblocks && Slot(fs.State(), sv.ino, k) in fs.freemap.Marked()
  {
    hide Slot;
    HeldInode(fs, sv);
    FileBlocksOwned(fs.State(), fs.owner, fs.live, sv.ino);
  }

  /** How many free blocks it takes to have block k of a file mapped: one for itself if it is not,
      and one more if there is no indirect block to record it in. */
  ghost function Need(v: View, ino: nat, k: nat): nat {
    if k >= MAXFILEBLOCKS || Slot(v, ino, k) != 0 then 0
    else if k < NDIRECT || InodeOf(v, ino).indirect != 0 then 1
    else 2
  }

  /** What mapping block k of a file costs, and that no other block of the file is mapped or unmapped. */
  ghost predicate Mapped(v: View, v': View, ino: nat, k: nat) {
    && |FreeBlocks(v')| + Need(v, ino, k) == |FreeBlocks(v)|
    && (forall j: nat :: j != k ==> Slot(v', ino, j) == Slot(v, ino, j))
    && (InodeOf(v', ino).indirect != 0 <==> InodeOf(v, ino).indirect != 0 || k >= NDIRECT)
  }

  method BmapDirect(fs: SfsFs, sv: SfsVnode, k: nat, doalloc: bool) returns (e: Errno, diskblock: nat)
    requires fs.Valid() && fs.Holds(sv) && k < NDIRECT
    modifies fs`disk, fs`freemapdirty, fs`owner, fs.freemap.v, sv`i, sv`dirty
    ensures fs.Valid()
    ensures SameFiles(old(fs.State()), fs.State(), fs.live)
    ensures e == Ok || e == ENOSPC
    ensures e == Ok ==> diskblock == Slot(fs.State(), sv.ino, k) && (doalloc ==> diskblock != 0)
    ensures e == ENOSPC <==> doalloc && |FreeBlocks(old(fs.State()))| < Need(old(fs.State()), sv.ino, k)
    ensures e == Ok && doalloc ==> Mapped(old(fs.State()), fs.State(), sv.ino, k)
    ensures e == ENOSPC || !doalloc || Slot(old(fs.State()), sv.ino, k) != 0 ==>
              fs.State() == old(fs.State()) && fs.owner == old(fs.owner)
  {
    hide Owned, SameFile, Slot, InodeOf, SfsFs.State, SfsFs.Loaded, SfsFs.TableValid, SfsFs.Synced, Bitmap.Valid, Bitmap.Marked;
    ghost var v := fs.State();
    NoneFree(v);
    StateFields(fs);
    HeldInode(fs, sv);
    DirectSlot(v, sv.ino, k);
    SameFilesReflexive(v, fs.live);
    var block := sv.i.direct[k];
    if block == 0 && doalloc {
      var r := Balloc(fs);
      if r.NoSpace? {
        return ENOSPC, 0;
      }
      block := r.index;
      SetInode(fs, sv, sv.i.(direct := sv.i.direct[k := block]));
      AttachDirect(v, fs.owner, fs.live, sv.ino, k, block, sv.i);
      OneLessFree(v, fs.State(), block);
      fs.owner := fs.owner[block := DataBlock(sv.ino, k)];
    }
    HeldInode(fs, sv);
    DirectSlot(fs.State(), sv.ino, k);
    if block != 0 {
      MappedIsMarked(fs, sv, k);
      var used := Bused(fs, block);
      assert used;
    }
    return Ok, block;
  }

  lemma IndirectSlot(v: View, ino: nat, k: nat)
    requires NDIRECT <= k < MAXFILEBLOCKS
    ensures InodeOf(v, ino).indirect == 0 ==> Slot(v, ino, k) == 0
    ensures 0 < InodeOf(v, ino).indirect < |v.disk| ==>
              Slot(v, ino, k) == WordAt(v.disk[InodeOf(v, ino).indirect], k - NDIRECT)
  {
  }

  lemma SameFilesTransitive(u: View, v: View, w: View, live: set<nat>)
    requires SameFiles(u, v, live) && SameFiles(v, w, live)
    ensures SameFiles(u, w, live)
  {
    hide InodeOf, FileBlock;
  }

  /** One word of a block of words. */
  lemma WordOfBuffer(w: seq<nat>, j: nat)
    requires AreWords(w) && j < DBPERIDB
    ensures WordAt(BlockOfWords(w), j) == w[j]
  {
    hide WordAt, BlockOfWords;
    WordsRoundTrip(w);
    assert WordsOfBlock(BlockOfWords(w))[j] == w[j];
  }

  /** The indirect block a file has, or, when allocating, gets: afterwards idbuf holds its entries. */
  method GetIndirect(fs: SfsFs, sv: SfsVnode) returns (e: Errno, idbuf: seq<nat>)
    requires fs.Valid() && fs.Holds(sv)
    modifies fs`disk, fs`freemapdirty, fs`owner, fs.freemap.v, sv`i, sv`dirty
    ensures fs.Valid() && AreWords(idbuf)
    ensures SameFiles(old(fs.State()), fs.State(), fs.live)
    ensures forall k: nat :: Slot(fs.State(), sv.ino, k) == Slot(old(fs.State()), sv.ino, k)
    ensures e == Ok || e == ENOSPC
    ensures e == Ok ==> 0 < sv.i.indirect < |fs.disk| && idbuf == WordsOfBlock(fs.disk[sv.i.indirect])
    ensures e == ENOSPC <==> old(sv.i.indirect) == 0 && |FreeBlocks(old(fs.State()))| == 0
    ensures e == Ok && old(sv.i.indirect) == 0 ==> |FreeBlocks(fs.State())| + 1 == |FreeBlocks(old(fs.State()))|
    ensures e == ENOSPC || old(sv.i.indirect) != 0 ==> fs.State() == old(fs.State()) && fs.owner == old(fs.owner)
  {
    hide Owned, SameFile, Slot, InodeOf, WordAt, SfsFs.State, SfsFs.Loaded, SfsFs.TableValid, SfsFs.Synced, Bitmap.Valid, Bitmap.Marked;
    ghost var v := fs.State();
    NoneFree(v);
    StateFields(fs);
    HeldInode(fs, sv);
    SameFilesReflexive(v, fs.live);
    var idblock := sv.i.indirect;
    idbuf := seq(DBPERIDB, _ => 0);
    if idblock == 0 {
      var r := Balloc(fs);
      if r.NoSpace? {
        return ENOSPC, idbuf;
      }
      idblock := r.index;
      SetInode(fs, sv, sv.i.(indirect := idblock));
      AttachIndirect(v, fs.owner, fs.live, sv.ino, idblock, sv.i);
      fs.owner := fs.owner[idblock := IndirectBlock(sv.ino)];
      HeldInode(fs, sv);
      ZeroBlockWords();
      assert idbuf == WordsOfBlock(ZeroBlock());
      assert fs.State().disk == WithAllocated(v, idblock).disk;
      OneLessFree(v, fs.State(), idblock);
    } else {
      IndirectOnDisk(fs, sv);
      var data := ReadBlock(fs, idblock);
      idbuf := WordsOfBlock(data);
    }
    e := Ok;
  }

  lemma IndirectOnDisk(fs: SfsFs, sv: SfsVnode)
    requires fs.Valid() && fs.Holds(sv) && sv.i.indirect != 0
    ensures sv.i.indirect < fs.nblocks <= |fs.disk| && IsData(fs, sv.i.indirect)
  {
    hide Slot;
    HeldInode(fs, sv);
    FileBlocksOwned(fs.State(), fs.owner, fs.live, sv.ino);
    OwnedIsData(fs, sv.i.indirect);
  }

  /** Allocates a block for an entry of the indirect block that is zero. */
  method AddEntry(fs: SfsFs, sv: SfsVnode, k: nat, words: seq<nat>) returns (e: Errno, block: nat)
    requires fs.Valid() && fs.Holds(sv) && NDIRECT <= k < MAXFILEBLOCKS && 0 < sv.i.indirect < |fs.disk|
    requires words == WordsOfBlock(fs.disk[sv.i.indirect]) && words[k - NDIRECT] == 0
    modifies fs`disk, fs`freemapdirty, fs`owner, fs.freemap.v
    ensures fs.Valid() && SameFiles(old(fs.State()), fs.State(), fs.live)
    ensures e == if |FreeBlocks(old(fs.State()))| == 0 then ENOSPC else Ok
    ensures e == ENOSPC ==> fs.State() == old(fs.State())
    ensures e == Ok ==> block == Slot(fs.State(), sv.ino, k) && block != 0
    ensures e == Ok ==> |FreeBlocks(fs.State())| + 1 == |FreeBlocks(old(fs.State()))|
    ensures e == Ok ==> forall j: nat :: j != k ==> Slot(fs.State(), sv.ino, j) == Slot(old(fs.State()), sv.ino, j)
  {
    hide Owned, SameFile, Slot, InodeOf, WordAt, SfsFs.State, SfsFs.Loaded, SfsFs.TableValid, SfsFs.Synced, Bitmap.Valid, Bitmap.Marked;
    ghost var v := fs.State();
    NoneFree(v);
    StateFields(fs);
    SameFilesReflexive(v, fs.live);
    HeldInode(fs, sv);
    IndirectOnDisk(fs, sv);
    IndirectSlot(v, sv.ino, k);
    var idblock, idoff := sv.i.indirect, k - NDIRECT;
    var r := Balloc(fs);
    if r.NoSpace? {
      return ENOSPC, 0;
    }
    block := r.index;
    var idbuf := words[idoff := block];
    WriteData(fs, idblock, BlockOfWords(idbuf));
    forall j | 0 <= j < DBPERIDB
      ensures WordAt(BlockOfWords(idbuf), j) == if j == idoff then block else IndirectWord(v, idblock, j)
    {
      WordOfBuffer(idbuf, j);
    }
    AttachIndirectEntry(v, fs.owner, fs.live, sv.ino, k, block, BlockOfWords(idbuf));
    OneLessFree(v, fs.State(), block);
    fs.owner := fs.owner[block := DataBlock(sv.ino, k)];
    e := Ok;
  }

  method BmapIndirect(fs: SfsFs, sv: SfsVnode, k: nat, doalloc: bool) returns (e: Errno, diskblock: nat)
    requires fs.Valid() && fs.Holds(sv) && NDIRECT <= k < MAXFILEBLOCKS
    modifies fs`disk, fs`freemapdirty, fs`owner, fs.freemap.v, sv`i, sv`dirty
    ensures fs.Valid()
    ensures SameFiles(old(fs.State()), fs.State(), fs.live)
    ensures e == Ok || e == ENOSPC
    ensures e == Ok ==> diskblock == Slot(fs.State(), sv.ino, k) && (doalloc ==> diskblock != 0)
    ensures e == ENOSPC <==> doalloc && |FreeBlocks(old(fs.State()))| < Need(old(fs.State()), sv.ino, k)
    ensures e == Ok && doalloc ==> Mapped(old(fs.State()), fs.State(), sv.ino, k)
    ensures e == ENOSPC ==> |FreeBlocks(fs.State())| == 0
    ensures !doalloc || Slot(old(fs.State()), sv.ino, k) != 0 ==> fs.State() == old(fs.State()) && fs.owner == old(fs.owner)
  {
    hide Owned, SameFile, Slot, InodeOf, WordAt, SfsFs.State, SfsFs.Loaded, SfsFs.TableValid, SfsFs.Synced, Bitmap.Valid, Bitmap.Marked;
    HeldInode(fs, sv);
    SameFilesReflexive(fs.State(), fs.live);
    IndirectSlot(fs.State(), sv.ino, k);
    NoneFree(fs.State());
    if sv.i.indirect == 0 && !doalloc {
      return Ok, 0;
    }
    ghost var before := fs.State();
    var idbuf;
    e, idbuf := GetIndirect(fs, sv);
    if e != Ok {
      return e, 0;
    }
    ghost var v := fs.State();
    NoneFree(v);
    StateFields(fs);
    HeldInode(fs, sv);
    IndirectOnDisk(fs, sv);
    IndirectSlot(v, sv.ino, k);
    var block := idbuf[k - NDIRECT];
    if block == 0 && doalloc {
      e, block := AddEntry(fs, sv, k, idbuf);
      if e != Ok {
        return e, 0;
      }
      SameFilesTransitive(before, v, fs.State(), fs.live);
      HeldInode(fs, sv);
    }
    if block != 0 {
      MappedIsMarked(fs, sv, k);
      var used := Bused(fs, block);
      assert used;
    }
    return Ok, block;
  }

  /** Finds the disk block behind a block of a file, allocating it, and the indirect block it
      is recorded in, if asked to. Allocation is invisible in every file's contents. */
  method Bmap(fs: SfsFs, sv: SfsVnode, fileblock: nat, doalloc: bool) returns (e: Errno, diskblock: nat)
    requires fs.Valid() && fs.Holds(sv)
    modifies fs`disk, fs`freemapdirty, fs`owner, fs.freemap.v, sv`i, sv`dirty
    ensures fs.Valid()
    ensures SameFiles(old(fs.State()), fs.State(), fs.live)
    ensures e == Ok || e == ENOSPC || e == EFBIG
    ensures e == EFBIG <==> fileblock >= MAXFILEBLOCKS
    ensures e == Ok ==> diskblock == Slot(fs.State(), sv.ino, fileblock) && (doalloc ==> diskblock != 0)
    ensures e == ENOSPC <==> doalloc && |FreeBlocks(old(fs.State()))| < Need(old(fs.State()), sv.ino, fileblock)
    ensures e == ENOSPC ==> forall b: nat :: b < fs.nblocks ==> b in fs.State().marked
    ensures e == Ok && doalloc ==> Mapped(old(fs.State()), fs.State(), sv.ino, fileblock)
    ensures e == EFBIG || !doalloc || Slot(old(fs.State()), sv.ino, fileblock) != 0 ==>
              fs.State() == old(fs.State()) && fs.owner == old(fs.owner)
  {
    hide Owned, SameFile, Slot, SfsFs.State, SfsFs.Sound, FreeBlocks;
    if fileblock < NDIRECT {
      e, diskblock := BmapDirect(fs, sv, fileblock, doalloc);
      NoneFree(fs.State());
      StateFields(fs);
      return;
    }
    SameFilesReflexive(fs.State(), fs.live);
    var idnum := (fileblock - NDIRECT) / DBPERIDB;
    if idnum >= NINDIRECT {
      return EFBIG, 0;
    }
    e, diskblock := BmapIndirect(fs, sv, fileblock, doalloc);
    NoneFree(fs.State());
    StateFields(fs);
  }

  // ---------------------------------------------------------------- truncation

  const HIGHBLOCK: nat := NDIRECT + DBPERIDB - 1

  /** The slots truncation to blocklen blocks unmaps: direct ones from blocklen on, but in the
      indirect block only those strictly beyond it. */
  predicate Cut(blocklen: nat, k: nat) {
    if k < NDIRECT then blocklen <= k else blocklen < k < MAXFILEBLOCKS
  }

  ghost function CutBelow(blocklen: nat, limit: nat): set<nat> {
    set k: nat | k < limit && Cut(blocklen, k)
  }

  /** The next slot's block is still marked when its turn comes, and releasing it extends the
      released set by it. */
  lemma ReleaseNext(v: View, owner: map<nat, Owner>, live: set<nat>, ino: nat, blocklen: nat, k: nat)
    requires Owned(v, owner, live) && ino in live && k < MAXFILEBLOCKS
    ensures var done := Released(v, ino, CutBelow(blocklen, k), false);
            var next := Released(v, ino, CutBelow(blocklen, k + 1), false);
            if Cut(blocklen, k) && Slot(v, ino, k) != 0 then
              && Slot(v, ino, k) < v.nblocks && Slot(v, ino, k) in v.marked - done
              && next == done + {Slot(v, ino, k)}
            else next == done
  {
    hide Slot, Cut;
    FileBlocksOwned(v, owner, live, ino);
    var cut, cut' := CutBelow(blocklen, k), CutBelow(blocklen, k + 1);
    assert cut' == if Cut(blocklen, k) then cut + {k} else cut;
    var done := Released(v, ino, cut, false);
    forall m | m in cut && Slot(v, ino, m) != 0
      ensures Slot(v, ino, m) != Slot(v, ino, k)
    {
      assert owner[Slot(v, ino, m)] == DataBlock(ino, m);
    }
  }

  /** Part one: the direct blocks past the limit are freed and their slots cleared. */
  method FreeDirect(fs: SfsFs, sv: SfsVnode, blocklen: nat)
    requires fs.Valid() && fs.Holds(sv)
    modifies fs`freemapdirty, fs.freemap.v, sv`i, sv`dirty
    ensures fs.Sound()
    ensures sv.i == old(sv.i).(direct := sv.i.direct)
    ensures forall k :: 0 <= k < NDIRECT ==> sv.i.direct[k] == if Cut(blocklen, k) then 0 else old(sv.i.direct)[k]
    ensures var v := old(fs.State());
            fs.State() == WithInode(v, sv.ino, sv.i).(marked := v.marked - Released(v, sv.ino, CutBelow(blocklen, NDIRECT), false))
  {
    hide Owned, Slot, InodeOf, Released, SfsFs.State, SfsFs.Loaded, SfsFs.TableValid, SfsFs.Synced, Bitmap.Valid, Bitmap.Marked;
    ghost var v := fs.State();
    HeldInode(fs, sv);
    HeldIsLive(fs, sv);
    ReleasedNothing(v, sv.ino, blocklen);
    assert v == WithInode(v, sv.ino, sv.i).(marked := v.marked - {});
    for i := 0 to NDIRECT
      invariant fs.Sound()
      invariant sv.i == old(sv.i).(direct := sv.i.direct)
      invariant forall k :: 0 <= k < NDIRECT ==>
                  sv.i.direct[k] == if k < i && Cut(blocklen, k) then 0 else old(sv.i.direct)[k]
      invariant fs.State() == WithInode(v, sv.ino, sv.i).(marked := v.marked - Released(v, sv.ino, CutBelow(blocklen, i), false))
    {
      var block := sv.i.direct[i];
      ReleaseNext(v, fs.owner, fs.live, sv.ino, blocklen, i);
      DirectSlot(v, sv.ino, i);
      if i >= blocklen && block != 0 {
        HeldInode(fs, sv);
        Bfree(fs, block);
        SetInode(fs, sv, sv.i.(direct := sv.i.direct[i := 0]));
      }
    }
  }

  lemma ReleasedNothing(v: View, ino: nat, blocklen: nat)
    ensures Released(v, ino, CutBelow(blocklen, 0), false) == {}
  {
  }

  /** The indirect block outlives its entries, and can be released on top of them. */
  lemma ReleaseIndirect(v: View, owner: map<nat, Owner>, live: set<nat>, ino: nat, blocklen: nat)
    requires Owned(v, owner, live) && ino in live && InodeOf(v, ino).indirect != 0
    ensures var done := Released(v, ino, CutBelow(blocklen, MAXFILEBLOCKS), false);
            && InodeOf(v, ino).indirect < v.nblocks
            && InodeOf(v, ino).indirect in v.marked - done
            && Released(v, ino, CutBelow(blocklen, MAXFILEBLOCKS), true) == done + {InodeOf(v, ino).indirect}
  {
    hide Slot, Cut;
    FileBlocksOwned(v, owner, live, ino);
  }

  /** Frees the blocks of the indirect entries past the limit and clears those entries in idbuf. */
  method FreeEntries(fs: SfsFs, words: seq<nat>, blocklen: nat, ghost v: View, ghost ino: nat, ghost d: Inode)
    returns (idbuf: seq<nat>, hasnonzero: bool, iddirty: bool)
    requires fs.Sound() && Owned(v, fs.owner, fs.live) && ino in fs.live
    requires 0 < InodeOf(v, ino).indirect < |v.disk|
    requires words == WordsOfBlock(v.disk[InodeOf(v, ino).indirect])
    requires fs.State() == WithInode(v, ino, d).(marked := v.marked - Released(v, ino, CutBelow(blocklen, NDIRECT), false))
    modifies fs`freemapdirty, fs.freemap.v
    ensures fs.Sound() && AreWords(idbuf)
    ensures forall i :: 0 <= i < DBPERIDB ==>
              idbuf[i] == if Cut(blocklen, NDIRECT + i) then 0 else Slot(v, ino, NDIRECT + i)
    ensures hasnonzero <==> exists i :: 0 <= i < DBPERIDB && idbuf[i] != 0
    ensures !iddirty ==> idbuf == words
    ensures fs.State() == WithInode(v, ino, d).(marked := v.marked - Released(v, ino, CutBelow(blocklen, MAXFILEBLOCKS), false))
  {
    hide Owned, Slot, InodeOf, WordAt, Released, SfsFs.State, SfsFs.Loaded, SfsFs.TableValid, SfsFs.Synced, Bitmap.Valid, Bitmap.Marked;
    idbuf, hasnonzero, iddirty := words, false, false;
    for j := 0 to DBPERIDB
      invariant fs.Sound() && |idbuf| == DBPERIDB
      invariant forall i :: 0 <= i < DBPERIDB ==>
                  idbuf[i] == if i < j && Cut(blocklen, NDIRECT + i) then 0 else words[i]
      invariant hasnonzero <==> exists i :: 0 <= i < j && idbuf[i] != 0
      invariant !iddirty ==> idbuf == words
      invariant fs.State() == WithInode(v, ino, d).(marked := v.marked - Released(v, ino, CutBelow(blocklen, NDIRECT + j), false))
    {
      ReleaseNext(v, fs.owner, fs.live, ino, blocklen, NDIRECT + j);
      IndirectSlot(v, ino, NDIRECT + j);
      StateFields(fs);
      assert words[j] == Slot(v, ino, NDIRECT + j);
      if blocklen < NDIRECT + j && idbuf[j] != 0 {
        Bfree(fs, idbuf[j]);
        idbuf := idbuf[j := 0];
        iddirty := true;
      }
      if idbuf[j] != 0 {
        hasnonzero := true;
      }
    }
    forall i | 0 <= i < DBPERIDB
      ensures words[i] == Slot(v, ino, NDIRECT + i)
    {
      IndirectSlot(v, ino, NDIRECT + i);
    }
  }

  /** When the limit lies beyond the indirect block, or there is none, no entry is cut. */
  lemma NoEntriesCut(v: View, ino: nat, blocklen: nat)
    requires blocklen >= HIGHBLOCK || InodeOf(v, ino).indirect == 0
    ensures Released(v, ino, CutBelow(blocklen, MAXFILEBLOCKS), false) == Released(v, ino, CutBelow(blocklen, NDIRECT), false)
    ensures InodeOf(v, ino).indirect == 0 ==> forall k: nat :: NDIRECT <= k < MAXFILEBLOCKS ==> Slot(v, ino, k) == 0
    ensures 0 < InodeOf(v, ino).indirect < |v.disk| ==> forall j :: 0 <= j < DBPERIDB ==>
              WordAt(v.disk[InodeOf(v, ino).indirect], j) == if Cut(blocklen, NDIRECT + j) then 0 else Slot(v, ino, NDIRECT + j)
  {
  }

  /** Part two: the indirect entries past the limit. The indirect block is freed if nothing is
      left in it, and otherwise rewritten if it changed. */
  method FreeIndirect(fs: SfsFs, sv: SfsVnode, blocklen: nat, ghost v: View) returns (ghost dropped: bool)
    requires fs.Sound() && fs.Holds(sv) && Owned(v, fs.owner, fs.live) && sv.ino in v.loaded
    requires 0 < sv.i.indirect < |v.disk| && IsData(fs, sv.i.indirect)
    requires sv.i == v.loaded[sv.ino].(direct := sv.i.direct)
    requires fs.State() == WithInode(v, sv.ino, sv.i).(marked := v.marked - Released(v, sv.ino, CutBelow(blocklen, NDIRECT), false))
    modifies fs`disk, fs`freemapdirty, fs.freemap.v, sv`i, sv`dirty
    ensures fs.Sound()
    ensures sv.i == old(sv.i).(indirect := if dropped then 0 else old(sv.i.indirect))
    ensures fs.State() == WithInode(v, sv.ino, sv.i).(disk := fs.disk,
                            marked := v.marked - Released(v, sv.ino, CutBelow(blocklen, MAXFILEBLOCKS), dropped))
    ensures |fs.disk| == |v.disk| && forall b: nat :: b < |v.disk| && b != old(sv.i.indirect) ==> fs.disk[b] == v.disk[b]
    ensures dropped <==> forall k: nat :: NDIRECT <= k < MAXFILEBLOCKS && !Cut(blocklen, k) ==> Slot(v, sv.ino, k) == 0
    ensures !dropped ==> forall j :: 0 <= j < DBPERIDB ==>
              WordAt(fs.disk[old(sv.i.indirect)], j) == if Cut(blocklen, NDIRECT + j) then 0 else Slot(v, sv.ino, NDIRECT + j)
  {
    hide Owned, Slot, WordAt, Released, Cut, SfsFs.State, SfsFs.Loaded, SfsFs.TableValid, SfsFs.Synced, Bitmap.Valid, Bitmap.Marked;
    ghost var d := sv.i;
    var idblock := sv.i.indirect;
    StateFields(fs);
    LoadedIsLive(v, fs.owner, fs.live, sv.ino);
    var data := ReadBlock(fs, idblock);
    var words := WordsOfBlock(data);
    var idbuf, hasnonzero, iddirty := FreeEntries(fs, words, blocklen, v, sv.ino, d);
    dropped := !hasnonzero;
    StateFields(fs);
    NothingLeft(v, sv.ino, blocklen, idbuf);
    if !hasnonzero {
      ReleaseIndirect(v, fs.owner, fs.live, sv.ino, blocklen);
      Bfree(fs, idblock);
      SetInode(fs, sv, sv.i.(indirect := 0));
    } else {
      if iddirty {
        WriteData(fs, idblock, BlockOfWords(idbuf));
      }
      StateFields(fs);
      forall j | 0 <= j < DBPERIDB
        ensures WordAt(fs.disk[idblock], j) == idbuf[j]
      {
        WordOfBuffer(idbuf, j);
        assert WordsOfBlock(data)[j] == WordAt(data, j);
      }
    }
    StateFields(fs);
  }

  lemma NothingLeft(v: View, ino: nat, blocklen: nat, idbuf: seq<nat>)
    requires AreWords(idbuf)
    requires forall i :: 0 <= i < DBPERIDB ==> idbuf[i] == if Cut(blocklen, NDIRECT + i) then 0 else Slot(v, ino, NDIRECT + i)
    ensures (forall i :: 0 <= i < DBPERIDB ==> idbuf[i] == 0)
       <==> forall k: nat :: NDIRECT <= k < MAXFILEBLOCKS && !Cut(blocklen, k) ==> Slot(v, ino, k) == 0
  {
    hide Slot, Cut;
    if forall i :: 0 <= i < DBPERIDB ==> idbuf[i] == 0 {
      forall k: nat | NDIRECT <= k < MAXFILEBLOCKS && !Cut(blocklen, k)
        ensures Slot(v, ino, k) == 0
      {
        assert idbuf[k - NDIRECT] == 0;
      }
    }
  }

  /** The two parts of truncation, seen on pointers and entries; dropped says whether the
      indirect block went too. */
  ghost predicate PointersCut(v: View, v': View, ino: nat, blocklen: nat, dropped: bool) {
    && ino in v.loaded && ino in v'.loaded && |v'.disk| == |v.disk| && v.loaded[ino].indirect < |v.disk|
    && (forall k :: 0 <= k < NDIRECT ==>
          v'.loaded[ino].direct[k] == if Cut(blocklen, k) then 0 else v.loaded[ino].direct[k])
    && v'.loaded[ino].indirect == (if dropped then 0 else v.loaded[ino].indirect)
    && (dropped || v.loaded[ino].indirect == 0 ==>
          forall k: nat :: NDIRECT <= k < MAXFILEBLOCKS && !Cut(blocklen, k) ==> Slot(v, ino, k) == 0)
    && (!dropped && v.loaded[ino].indirect != 0 ==> forall j :: 0 <= j < DBPERIDB ==>
          WordAt(v'.disk[v.loaded[ino].indirect], j) == if Cut(blocklen, NDIRECT + j) then 0 else Slot(v, ino, NDIRECT + j))
  }

  /** Together they cut exactly the slots past the limit. */
  lemma SlotsCut(v: View, v': View, ino: nat, blocklen: nat, dropped: bool)
    requires PointersCut(v, v', ino, blocklen, dropped)
    ensures forall k: nat :: Slot(v', ino, k) == if Cut(blocklen, k) then 0 else Slot(v, ino, k)
  {
    hide WordAt, DecodeInode, Slot;
    forall k: nat
      ensures Slot(v', ino, k) == if Cut(blocklen, k) then 0 else Slot(v, ino, k)
    {
      if k < NDIRECT {
        DirectSlot(v, ino, k);
        DirectSlot(v', ino, k);
      } else if k < MAXFILEBLOCKS {
        IndirectSlot(v, ino, k);
        IndirectSlot(v', ino, k);
        assert NDIRECT + (k - NDIRECT) == k;
      } else {
        NoSlot(v, ino, k);
        NoSlot(v', ino, k);
      }
    }
  }

  /** What truncation makes of the whole volume, once the new inode d has its size as well. */
  lemma TruncatedFile(v: View, u: View, owner: map<nat, Owner>, live: set<nat>, ino: nat, blocklen: nat, dropped: bool, d: Inode)
    requires Owned(v, owner, live) && PointersCut(v, u, ino, blocklen, dropped)
    requires u == v.(disk := u.disk, loaded := v.loaded[ino := u.loaded[ino]],
                     marked := v.marked - Released(v, ino, CutBelow(blocklen, MAXFILEBLOCKS), dropped))
    requires forall b: nat :: b < |v.disk| && b != v.loaded[ino].indirect ==> u.disk[b] == v.disk[b]
    requires v.loaded[ino].indirect == 0 ==> u.disk == v.disk
    requires d.direct == u.loaded[ino].direct && d.indirect == u.loaded[ino].indirect
    ensures var w := WithInode(u, ino, d);
            && Owned(w, owner - Released(v, ino, CutBelow(blocklen, MAXFILEBLOCKS), dropped), live)
            && (forall i :: i in live && i != ino ==> SameFile(v, w, i))
            && (forall k: nat :: Slot(w, ino, k) == if Cut(blocklen, k) then 0 else Slot(v, ino, k))
            && (forall k: nat :: FileBlock(w, ino, k) == if Cut(blocklen, k) then ZeroBlock() else FileBlock(v, ino, k))
  {
    hide WordAt, DecodeInode, Slot, Owned, Released, Cut, FileBlock;
    SlotsCut(v, u, ino, blocklen, dropped);
    LoadedIsLive(v, owner, live, ino);
    var cut := CutBelow(blocklen, MAXFILEBLOCKS);
    forall k: nat
      ensures k in cut <==> Cut(blocklen, k)
    {
      CutLimit(blocklen, k);
    }
    SameKeys(v, owner, live, ino, u.loaded[ino]);
    CutSlots(v, u, owner, live, ino, cut, dropped);
    ChangeAttributes(u, owner - Released(v, ino, cut, dropped), live, ino, d);
  }

  lemma SameKeys(v: View, owner: map<nat, Owner>, live: set<nat>, ino: nat, d: Inode)
    requires Owned(v, owner, live) && ino in v.loaded
    ensures v.loaded[ino := d].Keys <= live
  {
  }

  lemma CutLimit(blocklen: nat, k: nat)
    ensures Cut(blocklen, k) ==> k < MAXFILEBLOCKS
  {
  }

  lemma NoSlot(v: View, ino: nat, k: nat)
    requires k >= MAXFILEBLOCKS
    ensures Slot(v, ino, k) == 0
  {
  }

  /** The length in blocks, rounded up, as the 32-bit count the code keeps it in. */
  function BlockLength(len: nat): nat {
    DivRoundUp(len, BLOCKSIZE) % WORD_LIMIT
  }

  /** What truncation to len makes of a file: the slots past the limit are unmapped, the others kept. */
  ghost predicate Shortened(v: View, v': View, ino: nat, len: nat) {
    && InodeOf(v', ino).size == len % WORD_LIMIT
    && forall k: nat :: Slot(v', ino, k) == if Cut(BlockLength(len), k) then 0 else Slot(v, ino, k)
  }

  /** What it is asked to: the file is len bytes long, has no block that begins at len or later, and
      keeps the others. */
  ghost predicate ShortenedAsAsked(v: View, v': View, ino: nat, len: nat) {
    && InodeOf(v', ino).size == len
    && (forall k: nat :: k * BLOCKSIZE >= len ==> Slot(v', ino, k) == 0)
    && (forall k: nat :: k * BLOCKSIZE < len ==> Slot(v', ino, k) == Slot(v, ino, k))
  }

  /** It does so exactly for lengths of 32 bits, unless the first block to go is recorded in the
      indirect block: the bound test there is off by one. */
  lemma TruncationReachesTheEnd(v: View, v': View, ino: nat, len: nat)
    requires Shortened(v, v', ino, len)
    ensures ShortenedAsAsked(v, v', ino, len)
       <==> len < WORD_LIMIT && (BlockLength(len) < NDIRECT || Slot(v, ino, BlockLength(len)) == 0)
  {
    hide Slot, InodeOf;
    var blocklen := DivRoundUp(len, BLOCKSIZE);
    assert forall k: nat :: k * BLOCKSIZE >= len <==> k >= blocklen;
    if len < WORD_LIMIT {
      assert BlockLength(len) == blocklen;
      forall k: nat
        ensures k >= MAXFILEBLOCKS ==> Slot(v, ino, k) == 0
      {
        if k >= MAXFILEBLOCKS {
          NoSlot(v, ino, k);
        }
      }
      assert Slot(v', ino, blocklen) == if Cut(blocklen, blocklen) then 0 else Slot(v, ino, blocklen);
    }
  }

  /** The indirect block is looked at, and no entry in it survives. */
  ghost predicate DropsIndirect(v: View, ino: nat, blocklen: nat) {
    && InodeOf(v, ino).indirect != 0 && blocklen < HIGHBLOCK
    && forall k: nat :: NDIRECT <= k < MAXFILEBLOCKS && !Cut(blocklen, k) ==> Slot(v, ino, k) == 0
  }

  /** Both parts. */
  method CutPointers(fs: SfsFs, sv: SfsVnode, blocklen: nat) returns (ghost dropped: bool)
    requires fs.Valid() && fs.Holds(sv)
    modifies fs`disk, fs`freemapdirty, fs.freemap.v, sv`i, sv`dirty
    ensures fs.Sound() && PointersCut(old(fs.State()), fs.State(), sv.ino, blocklen, dropped)
    ensures var v, u := old(fs.State()), fs.State();
            && u == v.(disk := u.disk, loaded := v.loaded[sv.ino := sv.i],
                       marked := v.marked - Released(v, sv.ino, CutBelow(blocklen, MAXFILEBLOCKS), dropped))
            && (forall b: nat :: b < |v.disk| && b != old(sv.i.indirect) ==> u.disk[b] == v.disk[b])
            && (old(sv.i.indirect) == 0 ==> u.disk == v.disk)
    ensures sv.i == old(sv.i).(direct := sv.i.direct, indirect := if dropped then 0 else old(sv.i.indirect))
    ensures dropped <==> DropsIndirect(old(fs.State()), sv.ino, blocklen)
  {
    hide Owned, Slot, WordAt, Released, Cut, SfsFs.State, SfsFs.Loaded, SfsFs.TableValid, SfsFs.Synced, Bitmap.Valid, Bitmap.Marked;
    ghost var v := fs.State();
    HeldInode(fs, sv);
    HeldIsLive(fs, sv);
    FileBlocksOwned(v, fs.owner, fs.live, sv.ino);
    if sv.i.indirect != 0 {
      IndirectOnDisk(fs, sv);
    }
    FreeDirect(fs, sv, blocklen);
    dropped := false;
    StateFields(fs);
    if blocklen < HIGHBLOCK && sv.i.indirect != 0 {
      dropped := FreeIndirect(fs, sv, blocklen, v);
    } else {
      NoEntriesCut(v, sv.ino, blocklen);
    }
    HeldInode(fs, sv);
  }

  /** Cuts the file's slots past the limit, releases exactly their blocks, and sets the size. */
  method Itrunc(fs: SfsFs, sv: SfsVnode, len: nat)
    requires fs.Valid() && fs.Holds(sv)
    modifies fs`disk, fs`freemapdirty, fs`owner, fs.freemap.v, sv`i, sv`dirty
    ensures fs.Valid() && sv.dirty
    ensures var v, v', blocklen := old(fs.State()), fs.State(), BlockLength(len);
            && Shortened(v, v', sv.ino, len)
            && (forall k: nat :: FileBlock(v', sv.ino, k) == if Cut(blocklen, k) then ZeroBlock() else FileBlock(v, sv.ino, k))
            && (forall i :: i in fs.live && i != sv.ino ==> SameFile(v, v', i))
            && v'.marked == v.marked - Released(v, sv.ino, CutBelow(blocklen, MAXFILEBLOCKS), DropsIndirect(v, sv.ino, blocklen))
            && sv.i == old(sv.i).(size := len % WORD_LIMIT, direct := sv.i.direct,
                                  indirect := if DropsIndirect(v, sv.ino, blocklen) then 0 else old(sv.i.indirect))
  {
    hide Owned, Slot, FileBlock, WordAt, Released, Cut, CutBelow, PointersCut, DropsIndirect, InodeOf, BlockLength,
         SfsFs.State, SfsFs.Sound;
    var blocklen := BlockLength(len);
    ghost var v := fs.State();
    HeldInode(fs, sv);
    ghost var dropped := CutPointers(fs, sv, blocklen);
    ghost var u := fs.State();
    HeldInode(fs, sv);
    SetInode(fs, sv, sv.i.(size := len % WORD_LIMIT));
    TruncatedFile(v, u, fs.owner, fs.live, sv.ino, blocklen, dropped, sv.i);
    fs.owner := fs.owner - Released(v, sv.ino, CutBelow(blocklen, MAXFILEBLOCKS), dropped);
    HeldInode(fs, sv);
  }
}
