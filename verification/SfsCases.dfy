/** One volume at which truncation and writing do less than they should (sfs_bmap.c:244-283,
    sfs_bmap.c:55-56, sfs_io.c:295-345). */
module SfsCases {
  import opened Uios
  import opened SfsLayout
  import opened SfsState
  import opened SfsFiles
  import opened SfsNames
  import opened SfsVolume
  import opened SfsBmap
  import opened SfsIo

  const FILE_INO: nat := 3

  function RootInode(): Inode {
    Dinode(0, TYPE_DIR, 1, seq(NDIRECT, _ => 0), 0, seq(NWASTE, _ => 0))
  }

  /** A file whose first block is block 6, and whose block 15 is recorded in the indirect block 4. */
  function FileInode(size: nat): Inode
    requires size < WORD_LIMIT
  {
    Dinode(size, TYPE_FILE, 0, seq(NDIRECT, k => if k == 0 then 6 else 0), 4, seq(NWASTE, _ => 0))
  }

  function Entries(): (w: seq<nat>)
    ensures AreWords(w)
  {
    seq(DBPERIDB, j => if j == 0 then 5 else 0)
  }

  function SmallDisk(first: Block): seq<Block> {
    [ZeroBlock(), ZeroBlock(), ZeroBlock(), ZeroBlock(), BlockOfWords(Entries()), ZeroBlock(), first, ZeroBlock()]
  }

  /** All but the last of the eight blocks are in use. */
  predicate SmallMark(b: nat) {
    b != 7
  }

  /** A volume of eight blocks with an empty root directory, and a file that is open and has no name
      left; first is what the file's first block holds. */
  ghost function Small(size: nat, first: Block): View
    requires size < WORD_LIMIT
  {
    View(8, SmallDisk(first), set b: nat | b < BITSPERBLOCK && SmallMark(b), map[ROOTDIR_INO := RootInode(), FILE_INO := FileInode(size)])
  }

  function SmallOwners(): map<nat, Owner> {
    map[0 := SuperBlock, 1 := InodeBlock(ROOTDIR_INO), 2 := FreemapBlock(0), 3 := InodeBlock(FILE_INO),
        4 := IndirectBlock(FILE_INO), 5 := DataBlock(FILE_INO, 15), 6 := DataBlock(FILE_INO, 0)]
  }

  lemma SmallSlots(size: nat, first: Block)
    requires size < WORD_LIMIT
    ensures var v := Small(size, first);
            && InodeOf(v, ROOTDIR_INO) == RootInode() && InodeOf(v, FILE_INO) == FileInode(size)
            && (forall k: nat :: Slot(v, ROOTDIR_INO, k) == 0)
            && forall k: nat :: Slot(v, FILE_INO, k) == if k == 0 then 6 else if k == 15 then 5 else 0
  {
    hide WordAt, BlockOfWords;
    var v := Small(size, first);
    forall k: nat
      ensures Slot(v, FILE_INO, k) == if k == 0 then 6 else if k == 15 then 5 else 0
    {
      if NDIRECT <= k < MAXFILEBLOCKS {
        WordOfBuffer(Entries(), k - NDIRECT);
      }
    }
  }

  lemma SmallIsConsistent(size: nat, first: Block)
    requires size < WORD_LIMIT
    ensures var v, live := Small(size, first), {ROOTDIR_INO, FILE_INO};
            Owned(v, SmallOwners(), live) && NameSpace(v, live)
  {
    hide WordAt, BlockOfWords, EntryAt, Slot, InodeOf;
    var v, live := Small(size, first), {ROOTDIR_INO, FILE_INO};
    SmallSlots(size, first);
    assert FreemapBlocks(8) == 1;
    assert Dir(v) == [];
    SmallOwned(v);
  }

  lemma SmallOwned(v: View)
    requires v.nblocks == 8 && |v.disk| == 8 && v.loaded.Keys == {ROOTDIR_INO, FILE_INO} && FreemapBlocks(8) == 1
    requires forall b: nat :: b in v.marked <==> b < BITSPERBLOCK && SmallMark(b)
    requires InodeOf(v, ROOTDIR_INO).indirect == 0 && InodeOf(v, FILE_INO).indirect == 4
    requires forall k: nat :: Slot(v, ROOTDIR_INO, k) == 0
    requires forall k: nat :: Slot(v, FILE_INO, k) == if k == 0 then 6 else if k == 15 then 5 else 0
    ensures Owned(v, SmallOwners(), {ROOTDIR_INO, FILE_INO})
  {
    hide Slot, InodeOf;
    var owner, live := SmallOwners(), {ROOTDIR_INO, FILE_INO};
    forall o | Proper(v.nblocks, live, o) && Occupies(v, o)
      ensures Place(v, o) in owner && owner[Place(v, o)] == o
    {
    }
    forall b | b in owner
      ensures b < v.nblocks && Proper(v.nblocks, live, owner[b]) && Place(v, owner[b]) == b
    {
    }
  }

  /** Whatever truncation to fifteen blocks makes of it, block 15 of the file stays mapped. */
  lemma TruncationFallsShort(v': View, first: Block)
    requires Shortened(Small(16 * BLOCKSIZE, first), v', FILE_INO, 15 * BLOCKSIZE)
    ensures !ShortenedAsAsked(Small(16 * BLOCKSIZE, first), v', FILE_INO, 15 * BLOCKSIZE) && Slot(v', FILE_INO, 15) == 5
  {
    hide Slot, InodeOf;
    SmallSlots(16 * BLOCKSIZE, first);
    assert BlockLength(15 * BLOCKSIZE) == 15;
    assert !Cut(15, 15);
    TruncationReachesTheEnd(Small(16 * BLOCKSIZE, first), v', FILE_INO, 15 * BLOCKSIZE);
  }

  /** Whatever a successful write of one byte at offset 2^41 makes of it, the byte is at the beginning of
      the file, and is not to be found where it was to go. */
  lemma WriteGoesAstray(v': View, n: nat)
    requires WriteOutcome(Small(0, ZeroBlock()), v', {ROOTDIR_INO, FILE_INO}, FILE_INO, 0, Cursor(1, POSITION_LIMIT, [0]), [1], Ok, n)
    ensures Raw(v', FILE_INO, POSITION_LIMIT) == 0 && Raw(v', FILE_INO, 0) == 1 && Raw(Small(0, ZeroBlock()), FILE_INO, 0) == 0
  {
    hide WordAt, BlockOfWords, Slot, InodeOf;
    var v := Small(0, ZeroBlock());
    SmallSlots(0, ZeroBlock());
    assert [0][..1] == [0] && Gather([1], [0]) == [1];
    assert Raw(v, FILE_INO, POSITION_LIMIT) == 0 by {
      assert POSITION_LIMIT / BLOCKSIZE > 15;
    }
  }

  /** There is such an outcome. */
  lemma AstrayOutcome()
    ensures var v, v' := Small(0, ZeroBlock()), Small(1, ZeroBlock()[0 := 1]);
            WriteOutcome(v, v', {ROOTDIR_INO, FILE_INO}, FILE_INO, 0, Cursor(1, POSITION_LIMIT, [0]), [1], Ok, 1)
  {
    hide WordAt, BlockOfWords, Slot, InodeOf;
    var v, v' := Small(0, ZeroBlock()), Small(1, ZeroBlock()[0 := 1]);
    SmallSlots(0, ZeroBlock());
    SmallSlots(1, ZeroBlock()[0 := 1]);
    forall k: nat
      ensures FileBlock(v', FILE_INO, k) == if k == 0 then ZeroBlock()[0 := 1] else FileBlock(v, FILE_INO, k)
    {
    }
    forall k: nat
      ensures FileBlock(v', ROOTDIR_INO, k) == FileBlock(v, ROOTDIR_INO, k)
    {
    }
    forall p: nat
      ensures Raw(v', FILE_INO, p) == if p == 0 then 1 else Raw(v, FILE_INO, p)
    {
      assert p / BLOCKSIZE == 0 && p % BLOCKSIZE == 0 ==> p == 0;
    }
    assert Gather([1], [0]) == [1];
    assert [0][..1] == [0];
    assert SameFile(v, v', ROOTDIR_INO);
    assert FileExtended(v, v', {ROOTDIR_INO, FILE_INO}, FILE_INO, 0, [1], 1);
  }
}
