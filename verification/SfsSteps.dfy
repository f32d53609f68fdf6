/** The elementary changes SFS makes to a volume, and why each keeps the block ownership. */
module SfsSteps {
  import opened SfsLayout
  import opened SfsState

  function WithInode(v: View, ino: nat, d: Inode): View {
    v.(loaded := v.loaded[ino := d])
  }

  function WithBlock(v: View, b: nat, data: Block): View
    requires b < |v.disk|
  {
    v.(disk := v.disk[b := data])
  }

  /** sfs_balloc: a free block is marked and cleared. */
  function WithAllocated(v: View, b: nat): View
    requires b < |v.disk|
  {
    v.(disk := v.disk[b := ZeroBlock()], marked := v.marked + {b})
  }

  /** A block that sfs_balloc may hand out. */
  ghost predicate Free(v: View, b: nat) {
    b < v.nblocks && b !in v.marked
  }

  lemma FreeIsUnowned(v: View, owner: map<nat, Owner>, live: set<nat>, b: nat)
    requires Owned(v, owner, live) && Free(v, b)
    ensures b != 0 && b !in owner && b !in live
  {
    assert Place(v, SuperBlock) == 0;
    assert Place(v, InodeBlock(b)) == b;
  }

  /** A change confined to unowned blocks and to one file's cached inode touches no other file. */
  lemma OtherFilesUntouched(v: View, v': View, owner: map<nat, Owner>, live: set<nat>, ino: nat)
    requires Owned(v, owner, live) && |v'.disk| == |v.disk|
    requires v.loaded - {ino} == v'.loaded - {ino}
    requires forall b :: b in owner && !OwnedByFile(owner[b], ino) ==> v'.disk[b] == v.disk[b]
    ensures forall i :: i in live && i != ino ==> InodeOf(v', i) == InodeOf(v, i) && SameFile(v, v', i)
    ensures forall i, k: nat :: i in live && i != ino ==> Slot(v', i, k) == Slot(v, i, k)
  {
    forall i | i in live && i != ino
      ensures InodeOf(v', i) == InodeOf(v, i) && SameFile(v, v', i)
      ensures forall k: nat :: Slot(v', i, k) == Slot(v, i, k)
    {
      assert i in v.loaded <==> i in v.loaded - {ino};
      assert i in v'.loaded <==> i in v'.loaded - {ino};
      UntouchedFile(v, v', owner, live, i);
    }
  }

  // ---------------------------------------------------------------- how ownership can change

  ghost predicate SameShape(v: View, v': View, live: set<nat>) {
    v'.nblocks == v.nblocks && |v'.disk| == |v.disk| && v'.loaded.Keys <= live
  }

  lemma SamePlaces(v: View, v': View, owner: map<nat, Owner>, live: set<nat>)
    requires Owned(v, owner, live) && SameShape(v, v', live) && v'.marked == v.marked
    requires forall p :: Proper(v.nblocks, live, p) ==> Place(v', p) == Place(v, p)
    ensures Owned(v', owner, live)
  {
  }

  /** One owner that had no block gets a free one. */
  lemma OneMoreOwner(v: View, v': View, owner: map<nat, Owner>, live: set<nat>, o: Owner, b: nat)
    requires Owned(v, owner, live) && SameShape(v, v', live) && Free(v, b)
    requires v'.marked == v.marked + {b}
    requires Proper(v.nblocks, live, o) && !Occupies(v, o) && Place(v', o) == b
    requires forall p :: Proper(v.nblocks, live, p) && p != o ==> Place(v', p) == Place(v, p)
    ensures Owned(v', owner[b := o], live)
  {
    FreeIsUnowned(v, owner, live, b);
    assert Place(v, SuperBlock) == 0;
  }

  /** Some owners lose their blocks, and exactly those blocks are unmarked. */
  lemma FewerOwners(v: View, v': View, owner: map<nat, Owner>, live: set<nat>, gone: set<nat>)
    requires Owned(v, owner, live) && SameShape(v, v', live)
    requires gone <= owner.Keys && v'.marked == v.marked - gone
    requires forall p :: Proper(v.nblocks, live, p) ==>
               Place(v', p) == if Place(v, p) in gone then 0 else Place(v, p)
    requires forall b :: b in gone ==> owner[b].DataBlock? || owner[b].IndirectBlock?
    ensures Owned(v', owner - gone, live)
  {
    forall p | Proper(v.nblocks, live, p) && Occupies(v', p)
      ensures Place(v', p) in owner - gone && (owner - gone)[Place(v', p)] == p
    {
      assert Occupies(v, p);
    }
  }

  // ---------------------------------------------------------------- attaching blocks

  /** A new block becomes direct block k of a loaded file. */
  lemma AttachDirect(v: View, owner: map<nat, Owner>, live: set<nat>, ino: nat, k: nat, b: nat, d: Inode)
    requires Owned(v, owner, live) && ino in v.loaded && Free(v, b)
    requires k < NDIRECT && v.loaded[ino].direct[k] == 0
    requires d == v.loaded[ino].(direct := v.loaded[ino].direct[k := b])
    ensures var v' := WithInode(WithAllocated(v, b), ino, d);
            && Owned(v', owner[b := DataBlock(ino, k)], live)
            && SameFiles(v, v', live)
            && Slot(v', ino, k) == b && b != 0
            && forall m: nat :: m != k ==> Slot(v', ino, m) == Slot(v, ino, m)
  {
    hide WordAt, DecodeInode;
    var v' := WithInode(WithAllocated(v, b), ino, d);
    FreeIsUnowned(v, owner, live, b);
    FileBlocksOwned(v, owner, live, ino);
    OtherFilesUntouched(v, v', owner, live, ino);
    forall m: nat
      ensures Slot(v', ino, m) == (if m == k then b else Slot(v, ino, m))
      ensures FileBlock(v', ino, m) == FileBlock(v, ino, m)
    {
    }
    forall p | Proper(v.nblocks, live, p) && p != DataBlock(ino, k)
      ensures Place(v', p) == Place(v, p)
    {
    }
    OneMoreOwner(v, v', owner, live, DataBlock(ino, k), b);
  }

  /** A new block becomes the indirect block of a loaded file; being clear, it maps nothing. */
  lemma AttachIndirect(v: View, owner: map<nat, Owner>, live: set<nat>, ino: nat, b: nat, d: Inode)
    requires Owned(v, owner, live) && ino in v.loaded && Free(v, b)
    requires v.loaded[ino].indirect == 0
    requires d == v.loaded[ino].(indirect := b)
    ensures var v' := WithInode(WithAllocated(v, b), ino, d);
            && b != 0 && Owned(v', owner[b := IndirectBlock(ino)], live)
            && SameFiles(v, v', live)
            && forall m: nat :: Slot(v', ino, m) == Slot(v, ino, m)
  {
    hide WordAt, DecodeInode;
    var v' := WithInode(WithAllocated(v, b), ino, d);
    FreeIsUnowned(v, owner, live, b);
    FileBlocksOwned(v, owner, live, ino);
    OtherFilesUntouched(v, v', owner, live, ino);
    ZeroBlockWords();
    forall m: nat
      ensures Slot(v', ino, m) == Slot(v, ino, m)
      ensures FileBlock(v', ino, m) == FileBlock(v, ino, m)
    {
    }
    forall p | Proper(v.nblocks, live, p) && p != IndirectBlock(ino)
      ensures Place(v', p) == Place(v, p)
    {
    }
    OneMoreOwner(v, v', owner, live, IndirectBlock(ino), b);
  }

  /** A new block's number goes into entry k - NDIRECT of a loaded file's indirect block. */
  lemma AttachIndirectEntry(v: View, owner: map<nat, Owner>, live: set<nat>, ino: nat, k: nat, b: nat, entries: Block)
    requires Owned(v, owner, live) && ino in v.loaded && Free(v, b)
    requires NDIRECT <= k < MAXFILEBLOCKS && v.loaded[ino].indirect != 0 && Slot(v, ino, k) == 0
    requires WordAt(entries, k - NDIRECT) == b
    requires forall j :: 0 <= j < DBPERIDB && j != k - NDIRECT ==>
               WordAt(entries, j) == IndirectWord(v, v.loaded[ino].indirect, j)
    ensures v.loaded[ino].indirect < |v.disk|
    ensures var v' := WithBlock(WithAllocated(v, b), v.loaded[ino].indirect, entries);
            && Owned(v', owner[b := DataBlock(ino, k)], live)
            && SameFiles(v, v', live)
            && Slot(v', ino, k) == b && b != 0
            && forall m: nat :: m != k ==> Slot(v', ino, m) == Slot(v, ino, m)
  {
    hide WordAt, DecodeInode;
    FreeIsUnowned(v, owner, live, b);
    FileBlocksOwned(v, owner, live, ino);
    var v' := WithBlock(WithAllocated(v, b), v.loaded[ino].indirect, entries);
    OtherFilesUntouched(v, v', owner, live, ino);
    forall m: nat
      ensures Slot(v', ino, m) == (if m == k then b else Slot(v, ino, m))
      ensures FileBlock(v', ino, m) == FileBlock(v, ino, m)
    {
    }
    forall p | Proper(v.nblocks, live, p) && p != DataBlock(ino, k)
      ensures Place(v', p) == Place(v, p)
    {
    }
    OneMoreOwner(v, v', owner, live, DataBlock(ino, k), b);
  }

  // ---------------------------------------------------------------- changing contents

  /** Overwriting a mapped block of a file changes that block of that file and nothing else. */
  lemma WriteMapped(v: View, owner: map<nat, Owner>, live: set<nat>, ino: nat, k: nat, data: Block)
    requires Owned(v, owner, live) && ino in live && Slot(v, ino, k) != 0
    ensures Slot(v, ino, k) < |v.disk|
    ensures var v' := WithBlock(v, Slot(v, ino, k), data);
            && Owned(v', owner, live)
            && (forall i :: i in live ==> InodeOf(v', i) == InodeOf(v, i))
            && (forall i, m: nat :: i in live ==> Slot(v', i, m) == Slot(v, i, m))
            && FileBlock(v', ino, k) == data
            && forall i, m: nat :: i in live && (i != ino || m != k) ==> FileBlock(v', i, m) == FileBlock(v, i, m)
  {
    hide WordAt, DecodeInode;
    FileBlocksOwned(v, owner, live, ino);
    var v' := WithBlock(v, Slot(v, ino, k), data);
    OtherFilesUntouched(v, v', owner, live, ino);
    forall m: nat
      ensures Slot(v', ino, m) == Slot(v, ino, m)
      ensures m != k ==> FileBlock(v', ino, m) == FileBlock(v, ino, m)
    {
    }
    forall p | Proper(v.nblocks, live, p)
      ensures Place(v', p) == Place(v, p)
    {
    }
    SamePlaces(v, v', owner, live);
  }

  /** Changing fields of a cached inode other than its block pointers changes no contents. */
  lemma ChangeAttributes(v: View, owner: map<nat, Owner>, live: set<nat>, ino: nat, d: Inode)
    requires Owned(v, owner, live) && ino in v.loaded
    requires d.direct == v.loaded[ino].direct && d.indirect == v.loaded[ino].indirect
    ensures var v' := WithInode(v, ino, d);
            && Owned(v', owner, live)
            && (forall i :: i in live && i != ino ==> InodeOf(v', i) == InodeOf(v, i))
            && (forall i, m: nat :: i in live ==> Slot(v', i, m) == Slot(v, i, m))
            && forall i, m: nat :: i in live ==> FileBlock(v', i, m) == FileBlock(v, i, m)
  {
    hide WordAt, DecodeInode;
    var v' := WithInode(v, ino, d);
    OtherFilesUntouched(v, v', owner, live, ino);
    forall m: nat
      ensures Slot(v', ino, m) == Slot(v, ino, m)
      ensures FileBlock(v', ino, m) == FileBlock(v, ino, m)
    {
    }
    forall p | Proper(v.nblocks, live, p)
      ensures Place(v', p) == Place(v, p)
    {
    }
    SamePlaces(v, v', owner, live);
  }

  /** The blocks behind the slots in cut, and the indirect block if it goes too. */
  ghost function Released(v: View, ino: nat, cut: set<nat>, dropIndirect: bool): set<nat> {
    (set k | k in cut && Slot(v, ino, k) != 0 :: Slot(v, ino, k))
    + (if dropIndirect && InodeOf(v, ino).indirect != 0 then {InodeOf(v, ino).indirect} else {})
  }

  /** Unmapping slots of a loaded file and unmarking their blocks keeps the rest of the file
      and every other file. */
  lemma CutSlots(v: View, v': View, owner: map<nat, Owner>, live: set<nat>, ino: nat, cut: set<nat>, dropIndirect: bool)
    requires Owned(v, owner, live) && SameShape(v, v', live) && ino in v.loaded
    requires forall k :: k in cut ==> k < MAXFILEBLOCKS
    requires ino in v'.loaded && v'.loaded == v.loaded[ino := v'.loaded[ino]]
    requires forall b: nat :: b < |v.disk| && b != InodeOf(v, ino).indirect ==> v'.disk[b] == v.disk[b]
    requires InodeOf(v, ino).indirect == 0 ==> v'.disk == v.disk
    requires InodeOf(v', ino).indirect == if dropIndirect then 0 else InodeOf(v, ino).indirect
    requires forall k: nat :: Slot(v', ino, k) == if k in cut then 0 else Slot(v, ino, k)
    requires v'.marked == v.marked - Released(v, ino, cut, dropIndirect)
    ensures Released(v, ino, cut, dropIndirect) <= owner.Keys
    ensures Owned(v', owner - Released(v, ino, cut, dropIndirect), live)
    ensures forall i :: i in live && i != ino ==> SameFile(v, v', i)
    ensures forall k: nat :: FileBlock(v', ino, k) == if k in cut then ZeroBlock() else FileBlock(v, ino, k)
  {
    hide WordAt, DecodeInode;
    var gone := Released(v, ino, cut, dropIndirect);
    FileBlocksOwned(v, owner, live, ino);
    OtherFilesUntouched(v, v', owner, live, ino);
    assert gone <= owner.Keys;
    forall p | Proper(v.nblocks, live, p)
      ensures Place(v', p) == if Place(v, p) in gone then 0 else Place(v, p)
    {
      CutPlace(v, owner, live, ino, cut, dropIndirect, p);
    }
    FewerOwners(v, v', owner, live, gone);
  }

  /** Which owners lose their block when slots are cut. */
  lemma CutPlace(v: View, owner: map<nat, Owner>, live: set<nat>, ino: nat, cut: set<nat>, dropIndirect: bool, p: Owner)
    requires Owned(v, owner, live) && ino in live && Proper(v.nblocks, live, p)
    requires forall k :: k in cut ==> k < MAXFILEBLOCKS
    ensures Place(v, p) in Released(v, ino, cut, dropIndirect) <==>
              && Place(v, p) != 0
              && ((p.DataBlock? && p.ino == ino && p.k in cut) || (dropIndirect && p == IndirectBlock(ino)))
  {
    hide WordAt, DecodeInode, Slot;
    FileBlocksOwned(v, owner, live, ino);
  }

  // ---------------------------------------------------------------- inode lifecycle

  /** A free block, once marked and cleared, can serve as the inode of a new empty file. */
  lemma Birth(v: View, owner: map<nat, Owner>, live: set<nat>, b: nat)
    requires Owned(v, owner, live) && Free(v, b)
    ensures var v' := WithAllocated(v, b);
            && b !in live && b != 0 && b !in v.loaded
            && Owned(v', owner[b := InodeBlock(b)], live + {b})
            && SameFiles(v, v', live)
            && InodeOf(v', b) == DecodeInode(ZeroBlock())
            && (forall k: nat :: Slot(v', b, k) == 0)
            && (forall i :: i in live ==> InodeOf(v', i) == InodeOf(v, i))
            && forall i, k: nat :: i in live ==> Slot(v', i, k) == Slot(v, i, k)
  {
    hide WordAt, DecodeInode, FileBlock;
    FreeIsUnowned(v, owner, live, b);
    var v' := WithAllocated(v, b);
    ZeroInode();
    OtherFilesUntouched(v, v', owner, live, b);
    var owner', live' := owner[b := InodeBlock(b)], live + {b};
    forall p | Proper(v.nblocks, live, p)
      ensures Place(v', p) == Place(v, p)
    {
    }
    assert Place(v, SuperBlock) == 0;
    assert Recorded(v', owner', live');
    assert Genuine(v', owner', live');
  }

  /** An inode that maps nothing can be given up: its block is unmarked, its cached copy dropped. */
  lemma Death(v: View, owner: map<nat, Owner>, live: set<nat>, ino: nat)
    requires Owned(v, owner, live) && ino in live
    requires InodeOf(v, ino).indirect == 0 && forall k: nat :: Slot(v, ino, k) == 0
    ensures var v' := v.(marked := v.marked - {ino}, loaded := v.loaded - {ino});
            && Owned(v', owner - {ino}, live - {ino})
            && SameFiles(v, v', live - {ino})
  {
    hide WordAt, DecodeInode;
    var v' := v.(marked := v.marked - {ino}, loaded := v.loaded - {ino});
    var owner', live' := owner - {ino}, live - {ino};
    FileBlocksOwned(v, owner, live, ino);
    OtherFilesUntouched(v, v', owner, live, ino);
    forall p | Proper(v.nblocks, live', p)
      ensures Place(v', p) == Place(v, p) && Proper(v.nblocks, live, p) && p != InodeBlock(ino)
    {
    }
    assert Place(v, SuperBlock) == 0;
    forall b | b in owner'
      ensures Proper(v.nblocks, live', owner[b])
    {
      assert owner[b] != InodeBlock(ino);
    }
    assert Recorded(v', owner', live');
    assert Genuine(v', owner', live');
  }

  /** Loading an inode that is not in memory, or dropping a clean copy of it, changes nothing. */
  lemma LoadOrDrop(v: View, v': View, owner: map<nat, Owner>, live: set<nat>, ino: nat)
    requires Owned(v, owner, live) && ino in live
    requires v' == v.(loaded := v'.loaded) && v'.loaded - {ino} == v.loaded - {ino}
    requires InodeOf(v', ino) == InodeOf(v, ino)
    ensures Owned(v', owner, live)
    ensures forall i :: i in live ==> InodeOf(v', i) == InodeOf(v, i)
    ensures forall i, k: nat :: i in live ==> Slot(v', i, k) == Slot(v, i, k)
    ensures SameFiles(v, v', live)
  {
    hide WordAt, DecodeInode;
    OtherFilesUntouched(v, v', owner, live, ino);
    forall p | Proper(v.nblocks, live, p)
      ensures Place(v', p) == Place(v, p)
    {
    }
    forall i | i in v'.loaded
      ensures i in live
    {
      assert i == ino || i in v.loaded - {ino};
    }
    SamePlaces(v, v', owner, live);
  }

  /** Writing a cached inode to its block changes no file. */
  lemma WriteInode(v: View, owner: map<nat, Owner>, live: set<nat>, ino: nat, data: Block)
    requires Owned(v, owner, live) && ino in v.loaded
    ensures ino < |v.disk|
    ensures var v' := WithBlock(v, ino, data);
            && Owned(v', owner, live)
            && (forall i :: i in live ==> InodeOf(v', i) == InodeOf(v, i))
            && (forall i, k: nat :: i in live ==> Slot(v', i, k) == Slot(v, i, k))
            && SameFiles(v, v', live)
  {
    hide WordAt, DecodeInode;
    FileBlocksOwned(v, owner, live, ino);
    var v' := WithBlock(v, ino, data);
    OtherFilesUntouched(v, v', owner, live, ino);
    forall k: nat
      ensures Slot(v', ino, k) == Slot(v, ino, k) && FileBlock(v', ino, k) == FileBlock(v, ino, k)
    {
    }
    forall p | Proper(v.nblocks, live, p)
      ensures Place(v', p) == Place(v, p)
    {
    }
    SamePlaces(v, v', owner, live);
  }
}
