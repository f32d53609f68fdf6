/** The state of a mounted SFS volume as a value, and who owns each of its blocks.

    A view joins the disk with what the kernel caches above it: the free-block map and the
    inodes loaded into vnodes. Every statement about files reads inodes through the cache. */
module SfsState {
  import opened Lib
  import opened SfsLayout

  type Inode = d: Dinode | FitsDisk(d) witness DecodeInode(ZeroBlock())

  datatype View = View(nblocks: nat, disk: seq<Block>, marked: set<nat>, loaded: map<nat, Inode>)

  /** What a block is used for. */
  datatype Owner =
    | SuperBlock
    | FreemapBlock(j: nat)
    | InodeBlock(ino: nat)
    | IndirectBlock(ino: nat)
    | DataBlock(ino: nat, k: nat)

  function FreemapBlocks(nblocks: nat): nat {
    DivRoundUp(nblocks, BITSPERBLOCK)
  }

  /** The inode as the kernel sees it: the cached copy if there is one, else its disk block. */
  function InodeOf(v: View, ino: nat): Inode {
    if ino in v.loaded then v.loaded[ino]
    else if ino < |v.disk| then DecodeInode(v.disk[ino])
    else DecodeInode(ZeroBlock())
  }

  function IndirectWord(v: View, block: nat, j: nat): nat
    requires j < DBPERIDB
  {
    if block < |v.disk| then WordAt(v.disk[block], j) else 0
  }

  /** The disk block behind block k of a file; 0 when there is none. */
  function Slot(v: View, ino: nat, k: nat): nat {
    if k < NDIRECT then InodeOf(v, ino).direct[k]
    else if k < MAXFILEBLOCKS && InodeOf(v, ino).indirect != 0 then
      IndirectWord(v, InodeOf(v, ino).indirect, k - NDIRECT)
    else 0
  }

  /** The contents of block k of a file: zeros where nothing is mapped. */
  function FileBlock(v: View, ino: nat, k: nat): Block {
    BlockAt(v, Slot(v, ino, k))
  }

  function BlockAt(v: View, s: nat): Block {
    if s == 0 || s >= |v.disk| then ZeroBlock() else v.disk[s]
  }

  /** The raw contents of a file, which do not depend on its size. */
  function Raw(v: View, ino: nat, pos: nat): Byte {
    FileBlock(v, ino, pos / BLOCKSIZE)[pos % BLOCKSIZE]
  }

  // ---------------------------------------------------------------- ownership

  /** The block an owner occupies; 0 when it occupies none (or is the superblock). */
  function Place(v: View, o: Owner): nat {
    match o
    case SuperBlock => SUPER_BLOCK
    case FreemapBlock(j) => FREEMAP_START + j
    case InodeBlock(ino) => ino
    case IndirectBlock(ino) => InodeOf(v, ino).indirect
    case DataBlock(ino, k) => Slot(v, ino, k)
  }

  predicate Proper(nblocks: nat, live: set<nat>, o: Owner) {
    match o
    case SuperBlock => true
    case FreemapBlock(j) => j < FreemapBlocks(nblocks)
    case InodeBlock(ino) => ino in live
    case IndirectBlock(ino) => ino in live
    case DataBlock(ino, k) => ino in live && k < MAXFILEBLOCKS
  }

  /** The superblock is block 0; for every other owner 0 stands for no block. */
  predicate Occupies(v: View, o: Owner) {
    o.SuperBlock? || Place(v, o) != 0
  }

  /** Every owner that occupies a block is recorded as that block's owner. */
  ghost predicate Recorded(v: View, owner: map<nat, Owner>, live: set<nat>) {
    forall o :: Proper(v.nblocks, live, o) && Occupies(v, o) ==> Place(v, o) in owner && owner[Place(v, o)] == o
  }

  /** Every recorded owner is a real one and occupies the block it is recorded for. */
  ghost predicate Genuine(v: View, owner: map<nat, Owner>, live: set<nat>) {
    forall b :: b in owner ==> b < v.nblocks && Proper(v.nblocks, live, owner[b]) && Place(v, owner[b]) == b
  }

  /** The free map marks the owned blocks, and the numbers past the end of the volume. */
  ghost predicate MarksOwned(v: View, owner: map<nat, Owner>) {
    forall b: nat :: b in v.marked <==> b in owner || v.nblocks <= b < BITSPERBLOCK * FreemapBlocks(v.nblocks)
  }

  ghost predicate Owned(v: View, owner: map<nat, Owner>, live: set<nat>) {
    && 0 < v.nblocks <= |v.disk| && 0 !in live
    && v.loaded.Keys <= live
    && Recorded(v, owner, live)
    && Genuine(v, owner, live)
    && MarksOwned(v, owner)
  }

  /** What the bookkeeping is for: no two owners share a block, every owned block is on the
      volume, and the marked blocks of the volume are exactly the owned ones. */
  lemma NoTwoOwners(v: View, owner: map<nat, Owner>, live: set<nat>)
    requires Owned(v, owner, live)
    ensures forall o, p | Proper(v.nblocks, live, o) && Proper(v.nblocks, live, p) && Occupies(v, o) && Occupies(v, p) ::
              o != p ==> Place(v, o) != Place(v, p)
    ensures forall o :: Proper(v.nblocks, live, o) && Occupies(v, o) ==> Place(v, o) < v.nblocks
    ensures forall b: nat :: b < v.nblocks ==>
              (b in v.marked <==> exists o :: Proper(v.nblocks, live, o) && Occupies(v, o) && Place(v, o) == b)
  {
    forall b: nat | b < v.nblocks
      ensures b in v.marked <==> exists o :: Proper(v.nblocks, live, o) && Occupies(v, o) && Place(v, o) == b
    {
      if b in v.marked {
        assert Proper(v.nblocks, live, owner[b]) && Place(v, owner[b]) == b;
        if b == 0 {
          assert Place(v, SuperBlock) == 0;
        }
      }
    }
  }

  /** The bookkeeping read for one file. */
  lemma FileBlocksOwned(v: View, owner: map<nat, Owner>, live: set<nat>, ino: nat)
    requires Owned(v, owner, live) && ino in live
    ensures ino in owner && owner[ino] == InodeBlock(ino)
    ensures InodeOf(v, ino).indirect != 0 ==>
              && InodeOf(v, ino).indirect in owner
              && owner[InodeOf(v, ino).indirect] == IndirectBlock(ino)
    ensures forall k: nat :: k < MAXFILEBLOCKS && Slot(v, ino, k) != 0 ==>
              Slot(v, ino, k) in owner && owner[Slot(v, ino, k)] == DataBlock(ino, k)
    ensures forall k: nat :: Slot(v, ino, k) < v.nblocks
  {
    assert Place(v, InodeBlock(ino)) == ino;
    assert Place(v, IndirectBlock(ino)) == InodeOf(v, ino).indirect;
    forall k: nat | k < MAXFILEBLOCKS && Slot(v, ino, k) != 0
      ensures Slot(v, ino, k) in owner && owner[Slot(v, ino, k)] == DataBlock(ino, k)
    {
      assert Place(v, DataBlock(ino, k)) == Slot(v, ino, k);
    }
  }

  lemma LoadedIsLive(v: View, owner: map<nat, Owner>, live: set<nat>, ino: nat)
    requires Owned(v, owner, live) && ino in v.loaded
    ensures ino in live && 0 < ino < v.nblocks <= |v.disk|
  {
    FileBlocksOwned(v, owner, live, ino);
  }

  // ---------------------------------------------------------------- what stays the same

  /** Two views agree about one file: its attributes and every byte of its raw contents. */
  ghost predicate SameFile(v: View, v': View, ino: nat) {
    && InodeOf(v, ino).size == InodeOf(v', ino).size
    && InodeOf(v, ino).typ == InodeOf(v', ino).typ
    && InodeOf(v, ino).links == InodeOf(v', ino).links
    && forall k: nat :: FileBlock(v, ino, k) == FileBlock(v', ino, k)
  }

  ghost predicate SameFiles(v: View, v': View, live: set<nat>) {
    forall ino :: ino in live ==> SameFile(v, v', ino)
  }

  ghost predicate OwnedByFile(o: Owner, ino: nat) {
    match o
    case InodeBlock(i) => i == ino
    case IndirectBlock(i) => i == ino
    case DataBlock(i, _) => i == ino
    case _ => false
  }

  /** A file whose blocks and cached inode a step leaves alone keeps all its slots. */
  lemma UntouchedFile(v: View, v': View, owner: map<nat, Owner>, live: set<nat>, ino: nat)
    requires Owned(v, owner, live) && ino in live
    requires |v'.disk| == |v.disk|
    requires ino in v.loaded <==> ino in v'.loaded
    requires ino in v.loaded ==> v'.loaded[ino] == v.loaded[ino]
    requires forall b :: b in owner && OwnedByFile(owner[b], ino) ==> v'.disk[b] == v.disk[b]
    ensures InodeOf(v', ino) == InodeOf(v, ino)
    ensures forall k: nat :: Slot(v', ino, k) == Slot(v, ino, k)
    ensures SameFile(v, v', ino)
  {
    hide WordAt, DecodeInode;
    FileBlocksOwned(v, owner, live, ino);
    assert InodeOf(v', ino) == InodeOf(v, ino);
    forall k: nat
      ensures Slot(v', ino, k) == Slot(v, ino, k) && FileBlock(v', ino, k) == FileBlock(v, ino, k)
    {
    }
  }
}
