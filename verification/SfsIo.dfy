/** File-level I/O (sfs_io.c:120-389): byte ranges over blocks. */
module SfsIo {
  import opened Lib
  import opened Uios
  import opened Bitmaps
  import opened SfsLayout
  import opened SfsState
  import opened SfsSteps
  import opened SfsFiles
  import opened SfsVolume
  import opened SfsBalloc
  import opened SfsBmap
  import opened SfsSpace

  /** Where a uio stands. */
  datatype Cursor = Cursor(resid: nat, offset: nat, todo: seq<nat>)

  ghost function CursorOf(uio: Uio): Cursor
    reads uio`resid, uio`offset, uio`iov
  {
    Cursor(uio.resid, uio.offset, uio.Todo())
  }

  ghost function Ahead(c: Cursor, n: nat): Cursor
    requires n <= c.resid && n <= |c.todo|
  {
    Cursor(c.resid - n, c.offset + n, c.todo[n..])
  }

  /** Residue within the buffers, which is what keeps uiomove from panicking. */
  ghost predicate Ready(uio: Uio)
    reads uio
  {
    uio.Valid() && uio.resid <= |uio.Todo()|
  }

  /** The file position an offset is taken for. */
  function Position(offset: nat): nat {
    offset % POSITION_LIMIT
  }

  function FileBlockOf(offset: nat): nat {
    offset / BLOCKSIZE % WORD_LIMIT
  }

  lemma PositionParts(offset: nat)
    ensures Position(offset) == FileBlockOf(offset) * BLOCKSIZE + offset % BLOCKSIZE
    ensures Position(offset) >= MAXFILEBYTES <==> FileBlockOf(offset) >= MAXFILEBLOCKS
  {
    var q := offset / BLOCKSIZE;
    assert offset == (q / WORD_LIMIT) * POSITION_LIMIT + (FileBlockOf(offset) * BLOCKSIZE + offset % BLOCKSIZE);
  }

  /** Moves len bytes between the uio and part of a block-sized buffer that holds data. */
  method MoveWithinBlock(uio: Uio, data: Block, skip: nat, len: nat) returns (after: Block)
    requires Ready(uio) && len <= uio.resid && skip + len <= BLOCKSIZE
    modifies uio`iov, uio`resid, uio`offset, uio.space
    ensures Ready(uio) && CursorOf(uio) == Ahead(old(CursorOf(uio)), len)
    ensures InSpace(old(uio.Todo())[..len], uio.space.Length)
    ensures uio.rw.Read? ==> uio.space[..] == Scatter(old(uio.space[..]), old(uio.Todo())[..len], data[skip..skip + len])
    ensures uio.rw.Write? ==> uio.space[..] == old(uio.space[..])
    ensures uio.rw.Write? ==> after == Splice(data, skip, Gather(old(uio.space[..]), old(uio.Todo())[..len]))
  {
    hide Fits, Span, Splice, Scatter, Gather;
    var buf := new Byte[BLOCKSIZE](i requires 0 <= i < BLOCKSIZE => data[i]);
    assert buf[..] == data;
    FitsAtTheEnds(uio.iov, len, uio.resid);
    var r := uio.Move(buf, skip, len);
    after := buf[..];
  }

  /** The blocks of the volume that are free, and those that a file maps. */
  ghost predicate SameMap(v: View, w: View, ino: nat) {
    && w.nblocks == v.nblocks && w.marked == v.marked && InodeOf(w, ino).indirect == InodeOf(v, ino).indirect
    && forall k: nat :: Slot(w, ino, k) == Slot(v, ino, k)
  }

  lemma MappedThen(u: View, v: View, w: View, ino: nat, k: nat)
    requires Mapped(u, v, ino, k) && SameMap(v, w, ino)
    ensures Mapped(u, w, ino, k)
  {
    hide Slot, InodeOf, Need;
    assert FreeBlocks(w) == FreeBlocks(v);
  }

  /** Writing a whole block that belongs to a file. */
  method WriteFileBlock(fs: SfsFs, sv: SfsVnode, ghost k: nat, diskblock: nat, ghost skip: nat, ghost data: seq<Byte>, whole: Block)
    requires fs.Valid() && fs.Holds(sv) && k < MAXFILEBLOCKS
    requires diskblock == Slot(fs.State(), sv.ino, k) != 0
    requires skip + |data| <= BLOCKSIZE && whole == Splice(FileBlock(fs.State(), sv.ino, k), skip, data)
    modifies fs`disk
    ensures fs.Valid() && fs.State().marked == old(fs.State()).marked && SameMap(old(fs.State()), fs.State(), sv.ino)
    ensures FileWritten(old(fs.State()), fs.State(), fs.live, sv.ino, k * BLOCKSIZE + skip, data)
  {
    hide Owned, Slot, FileBlock, Splice, SfsFs.State, SfsFs.Loaded, SfsFs.TableValid, SfsFs.Synced, Bitmap.Valid, Bitmap.Marked;
    ghost var v := fs.State();
    HeldIsLive(fs, sv);
    FileBlocksOwned(v, fs.owner, fs.live, sv.ino);
    OwnedIsData(fs, diskblock);
    StateFields(fs);
    WriteData(fs, diskblock, whole);
    WriteMapped(v, fs.owner, fs.live, sv.ino, k, whole);
    BlockWritten(v, fs.State(), fs.live, sv.ino, k, skip, data);
  }

  /** Reading the block behind a mapped slot. */
  lemma MappedContents(fs: SfsFs, sv: SfsVnode, k: nat)
    requires fs.Valid() && fs.Holds(sv) && k < MAXFILEBLOCKS && Slot(fs.State(), sv.ino, k) != 0
    ensures Slot(fs.State(), sv.ino, k) < fs.nblocks <= |fs.disk| && fs.nblocks <= MAXBLOCKS
    ensures fs.disk[Slot(fs.State(), sv.ino, k)] == FileBlock(fs.State(), sv.ino, k)
  {
    hide Slot, Owned;
    HeldIsLive(fs, sv);
    MappedIsMarked(fs, sv, k);
  }

  lemma UnmappedContents(v: View, ino: nat, k: nat)
    requires Slot(v, ino, k) == 0
    ensures FileBlock(v, ino, k) == ZeroBlock()
  {
    hide Slot;
  }

  /** The free map is not part of the memory being moved to or from. */
  ghost predicate Apart(fs: SfsFs, uio: Uio) {
    fs.freemap.v as object != uio.space as object
  }

  /** Moves a piece of block k of a file, through a buffer that holds the whole block. */
  method MovePiece(fs: SfsFs, sv: SfsVnode, uio: Uio, ghost k: nat, diskblock: nat, skip: nat, len: nat)
    requires fs.Valid() && fs.Holds(sv) && k < MAXFILEBLOCKS && diskblock == Slot(fs.State(), sv.ino, k)
    requires Ready(uio) && Apart(fs, uio) && len <= uio.resid && skip + len <= BLOCKSIZE
    requires uio.rw.Write? ==> diskblock != 0
    modifies fs`disk, uio`iov, uio`resid, uio`offset, uio.space
    ensures fs.Valid() && Ready(uio) && CursorOf(uio) == Ahead(old(CursorOf(uio)), len)
    ensures SameMap(old(fs.State()), fs.State(), sv.ino)
    ensures Transferred(uio.rw, old(fs.State()), fs.State(), fs.live, sv.ino, k * BLOCKSIZE + skip,
                        old(uio.Todo()), len, old(uio.space[..]), uio.space[..])
  {
    hide Owned, SameFile, Slot, FileBlock, Fits, Span, Splice, Scatter, Gather, FileWritten, Contents,
         SfsFs.State, SfsFs.Valid;
    ghost var v, todo, mem := fs.State(), uio.Todo(), uio.space[..];
    var iobuf;
    if diskblock == 0 {
      UnmappedContents(v, sv.ino, k);
      iobuf := ZeroBlock();
    } else {
      MappedContents(fs, sv, k);
      iobuf := ReadBlock(fs, diskblock);
    }
    ContentsInBlock(v, sv.ino, k, skip, len);
    iobuf := MoveWithinBlock(uio, iobuf, skip, len);
    if uio.rw.Write? {
      WriteFileBlock(fs, sv, k, diskblock, skip, Gather(mem, todo[..len]), iobuf);
    }
  }

  /** Reads or writes a piece of one block, mapping the block if it is written to. */
  method PartialIo(fs: SfsFs, sv: SfsVnode, uio: Uio, skipstart: nat, len: nat) returns (e: Errno)
    requires fs.Valid() && fs.Holds(sv)
    requires Ready(uio) && Apart(fs, uio) && len <= uio.resid
    requires skipstart + len <= BLOCKSIZE && uio.offset % BLOCKSIZE == skipstart
    modifies fs`disk, fs`freemapdirty, fs`owner, fs.freemap.v, sv`i, sv`dirty
    modifies uio`iov, uio`resid, uio`offset, uio.space
    ensures fs.Valid() && Ready(uio)
    ensures e == Ok || e == ENOSPC || e == EFBIG
    ensures e == EFBIG <==> Position(old(uio.offset)) >= MAXFILEBYTES
    ensures e == ENOSPC <==>
              && uio.rw.Write?
              && |FreeBlocks(old(fs.State()))| < Need(old(fs.State()), sv.ino, Position(old(uio.offset)) / BLOCKSIZE)
    ensures e == ENOSPC ==> forall b: nat :: b < fs.nblocks ==> b in fs.State().marked
    ensures e == Ok && uio.rw.Write? ==> Mapped(old(fs.State()), fs.State(), sv.ino, Position(old(uio.offset)) / BLOCKSIZE)
    ensures var n := if e == Ok then len else 0;
            && CursorOf(uio) == Ahead(old(CursorOf(uio)), n)
            && Transferred(uio.rw, old(fs.State()), fs.State(), fs.live, sv.ino, Position(old(uio.offset)),
                           old(uio.Todo()), n, old(uio.space[..]), uio.space[..])
  {
    hide Owned, SameFile, Slot, FileBlock, Fits, Span, Splice, Scatter, Gather, FileWritten, Contents,
         InSpace, SfsFs.State, SfsFs.Valid;
    var doalloc := uio.rw.Write?;
    ghost var u, todo, mem := fs.State(), uio.Todo(), uio.space[..];
    ghost var pos := Position(uio.offset);
    HeldIsLive(fs, sv);
    PositionParts(uio.offset);
    var fileblock := FileBlockOf(uio.offset);
    var diskblock;
    e, diskblock := Bmap(fs, sv, fileblock, doalloc);
    ghost var v := fs.State();
    NothingTransferred(uio.rw, u, v, fs.live, sv.ino, pos, todo, mem);
    if e != Ok {
      return;
    }
    MovePiece(fs, sv, uio, fileblock, diskblock, skipstart, len);
    if uio.rw.Write? {
      MappedThen(u, v, fs.State(), sv.ino, fileblock);
    }
    assert todo[0..] == todo;
    TransferredTwice(uio.rw, u, v, fs.State(), fs.live, sv.ino, pos, todo, 0, len, mem, mem, uio.space[..]);
  }

  /** The device transfers one sector between the disk and the uio; here the sector is one a
      file's block k is mapped to. Asking for anything but a whole sector panics. */
  method RwBlock(fs: SfsFs, sv: SfsVnode, uio: Uio, ghost k: nat)
    requires fs.Valid() && fs.Holds(sv) && k < MAXFILEBLOCKS && Slot(fs.State(), sv.ino, k) != 0
    requires Ready(uio) && Apart(fs, uio) && uio.resid == BLOCKSIZE && uio.offset == Slot(fs.State(), sv.ino, k) * BLOCKSIZE
    modifies fs`disk, uio`iov, uio`resid, uio`offset, uio.space
    ensures fs.Valid() && Ready(uio) && CursorOf(uio) == Ahead(old(CursorOf(uio)), BLOCKSIZE)
    ensures SameMap(old(fs.State()), fs.State(), sv.ino)
    ensures Transferred(uio.rw, old(fs.State()), fs.State(), fs.live, sv.ino, k * BLOCKSIZE,
                        old(uio.Todo()), BLOCKSIZE, old(uio.space[..]), uio.space[..])
  {
    hide Owned, SameFile, Slot, FileBlock, Fits, Span, Splice, Scatter, Gather, FileWritten, Contents,
         SfsFs.State, SfsFs.Sound;
    ghost var v, todo, mem := fs.State(), uio.Todo(), uio.space[..];
    var sector := uio.offset / BLOCKSIZE;
    MappedContents(fs, sv, k);
    ContentsInBlock(v, sv.ino, k, 0, BLOCKSIZE);
    var buffer := if uio.rw.Read? then fs.disk[sector] else ZeroBlock();
    WholeBlock(fs.disk[sector]);
    buffer := MoveWithinBlock(uio, buffer, 0, BLOCKSIZE);
    if uio.rw.Write? {
      ghost var data := Gather(mem, todo[..BLOCKSIZE]);
      SpliceAll(ZeroBlock(), FileBlock(v, sv.ino, k), data);
      WriteFileBlock(fs, sv, k, sector, 0, data, buffer);
    }
  }

  lemma WholeBlock(b: Block)
    ensures b[0..BLOCKSIZE] == b
  {
  }

  lemma SpliceAll(b: Block, c: Block, data: seq<Byte>)
    requires |data| == BLOCKSIZE
    ensures Splice(b, 0, data) == Splice(c, 0, data)
  {
  }

  /** The uio is pointed at the sector for the transfer and set back afterwards. */
  method RwMapped(fs: SfsFs, sv: SfsVnode, uio: Uio, ghost k: nat, diskblock: nat)
    requires fs.Valid() && fs.Holds(sv) && k < MAXFILEBLOCKS && diskblock == Slot(fs.State(), sv.ino, k) != 0
    requires Ready(uio) && Apart(fs, uio) && BLOCKSIZE <= uio.resid
    modifies fs`disk, uio`iov, uio`resid, uio`offset, uio.space
    ensures fs.Valid() && Ready(uio) && CursorOf(uio) == Ahead(old(CursorOf(uio)), BLOCKSIZE)
    ensures SameMap(old(fs.State()), fs.State(), sv.ino)
    ensures Transferred(uio.rw, old(fs.State()), fs.State(), fs.live, sv.ino, k * BLOCKSIZE,
                        old(uio.Todo()), BLOCKSIZE, old(uio.space[..]), uio.space[..])
  {
    hide Owned, SameFile, Slot, FileBlock, Fits, Span, Splice, Scatter, Gather, FileWritten, Contents, Transferred,
         InSpace, SfsFs.State, SfsFs.Valid;
    MappedContents(fs, sv, k);
    var saveoff, diskoff := uio.offset, diskblock * BLOCKSIZE % WORD_LIMIT;
    uio.offset := diskoff;
    var saveres, diskres := uio.resid, BLOCKSIZE;
    uio.resid := diskres;
    RwBlock(fs, sv, uio, k);
    uio.offset := uio.offset - diskoff + saveoff;
    uio.resid := uio.resid - diskres + saveres;
  }

  /** One whole block at an aligned offset, directly between the device and the caller. */
  method BlockIo(fs: SfsFs, sv: SfsVnode, uio: Uio) returns (e: Errno)
    requires fs.Valid() && fs.Holds(sv)
    requires Ready(uio) && Apart(fs, uio) && BLOCKSIZE <= uio.resid && uio.offset % BLOCKSIZE == 0
    modifies fs`disk, fs`freemapdirty, fs`owner, fs.freemap.v, sv`i, sv`dirty
    modifies uio`iov, uio`resid, uio`offset, uio.space
    ensures fs.Valid() && Ready(uio)
    ensures e == Ok || e == ENOSPC || e == EFBIG
    ensures e == EFBIG <==> Position(old(uio.offset)) >= MAXFILEBYTES
    ensures e == ENOSPC <==>
              && uio.rw.Write?
              && |FreeBlocks(old(fs.State()))| < Need(old(fs.State()), sv.ino, Position(old(uio.offset)) / BLOCKSIZE)
    ensures e == ENOSPC ==> forall b: nat :: b < fs.nblocks ==> b in fs.State().marked
    ensures e == Ok && uio.rw.Write? ==> Mapped(old(fs.State()), fs.State(), sv.ino, Position(old(uio.offset)) / BLOCKSIZE)
    ensures var n := if e == Ok then BLOCKSIZE else 0;
            && CursorOf(uio) == Ahead(old(CursorOf(uio)), n)
            && Transferred(uio.rw, old(fs.State()), fs.State(), fs.live, sv.ino, Position(old(uio.offset)),
                           old(uio.Todo()), n, old(uio.space[..]), uio.space[..])
  {
    hide Owned, SameFile, Slot, FileBlock, Fits, Span, Splice, Scatter, Gather, FileWritten, Contents, Transferred,
         InSpace, SfsFs.State, SfsFs.Valid;
    ghost var u, todo, mem := fs.State(), uio.Todo(), uio.space[..];
    ghost var pos := Position(uio.offset);
    HeldIsLive(fs, sv);
    PositionParts(uio.offset);
    var fileblock := FileBlockOf(uio.offset);
    var diskblock;
    e, diskblock := Bmap(fs, sv, fileblock, uio.rw.Write?);
    ghost var v := fs.State();
    NothingTransferred(uio.rw, u, v, fs.live, sv.ino, pos, todo, mem);
    if e != Ok {
      return;
    }
    if diskblock == 0 {
      assert uio.rw.Read?;
      HoleContents(v, sv.ino, fileblock);
      ZerosFitWithin(uio.iov, BLOCKSIZE, uio.resid);
      var moved := uio.MoveZeros(BLOCKSIZE);
      TransferredRead(v, fs.live, sv.ino, pos, todo, BLOCKSIZE, mem, uio.space[..]);
      return;
    }
    RwMapped(fs, sv, uio, fileblock, diskblock);
    if uio.rw.Write? {
      MappedThen(u, v, fs.State(), sv.ino, fileblock);
    }
    assert todo[0..] == todo;
    TransferredTwice(uio.rw, u, v, fs.State(), fs.live, sv.ino, pos, todo, 0, BLOCKSIZE, mem, mem, uio.space[..]);
  }

  lemma HoleContents(v: View, ino: nat, k: nat)
    requires Slot(v, ino, k) == 0
    ensures Contents(v, ino, k * BLOCKSIZE, BLOCKSIZE) == seq(BLOCKSIZE, _ => 0)
  {
    UnmappedContents(v, ino, k);
    ContentsInBlock(v, ino, k, 0, BLOCKSIZE);
    WholeBlock(ZeroBlock());
  }

  lemma TransferredRead(v: View, live: set<nat>, ino: nat, pos: nat, todo: seq<nat>, n: nat, mem: seq<Byte>, mem': seq<Byte>)
    requires n <= |todo| && InSpace(todo, |mem|)
    requires mem' == Scatter(mem, todo[..n], Contents(v, ino, pos, n))
    ensures Transferred(Read, v, v, live, ino, pos, todo, n, mem, mem')
  {
  }

  // ---------------------------------------------------------------- whole regions

  /** How far a transfer that started with the uio at c, the volume as u and the memory as mem has come. */
  ghost predicate Underway(fs: SfsFs, sv: SfsVnode, uio: Uio, c: Cursor, u: View, mem: seq<Byte>, n: nat)
    reads fs, fs.freemap.v, fs.table.Values, uio, uio.space
  {
    && fs.Valid() && fs.Holds(sv) && Ready(uio)
    && n <= c.resid && n <= |c.todo| && CursorOf(uio) == Ahead(c, n)
    && (n > 0 ==> Position(c.offset) + n <= MAXFILEBYTES)
    && Transferred(uio.rw, u, fs.State(), fs.live, sv.ino, Position(c.offset), c.todo, n, mem, uio.space[..])
  }

  /** After n bytes that stayed within the largest file, the next ones go right behind them. */
  lemma PositionAhead(offset: nat, n: nat)
    requires n > 0 ==> Position(offset) + n <= MAXFILEBYTES
    ensures Position(offset + n) == Position(offset) + n
  {
    var q := offset / POSITION_LIMIT;
    assert offset + n == q * POSITION_LIMIT + (Position(offset) + n);
  }

  lemma Onward(rw: Direction, u: View, v: View, w: View, live: set<nat>, ino: nat, c: Cursor, n: nat, m: nat,
               mem: seq<Byte>, mem': seq<Byte>, mem'': seq<Byte>)
    requires n + m <= |c.todo| && n + m <= c.resid && |mem'| == |mem|
    requires n > 0 ==> Position(c.offset) + n <= MAXFILEBYTES
    requires Transferred(rw, u, v, live, ino, Position(c.offset), c.todo, n, mem, mem')
    requires Transferred(rw, v, w, live, ino, Position(c.offset + n), c.todo[n..], m, mem', mem'')
    ensures Transferred(rw, u, w, live, ino, Position(c.offset), c.todo, n + m, mem, mem'')
    ensures Ahead(Ahead(c, n), m) == Ahead(c, n + m)
    ensures Position(c.offset + n) == Position(c.offset) + n
  {
    hide Transferred, Position;
    PositionAhead(c.offset, n);
    TransferredTwice(rw, u, v, w, live, ino, Position(c.offset), c.todo, n, m, mem, mem', mem'');
  }

  /** An aligned block boundary below the file limit leaves room for a whole block. */
  lemma RoomForBlock(offset: nat, skip: nat, len: nat)
    requires offset % BLOCKSIZE == skip && skip + len <= BLOCKSIZE && Position(offset) < MAXFILEBYTES
    ensures Position(offset) + len <= MAXFILEBYTES
  {
    PositionParts(offset);
  }

  /** At the beginning of block k of the file, having paid for the blocks before. */
  ghost predicate Paid(fs: SfsFs, sv: SfsVnode, uio: Uio, c: Cursor, u: View, k: nat)
    reads fs`disk, fs`table, fs.freemap.v, fs.table.Values, uio
  {
    uio.rw.Write? ==> Spent(u, fs.State(), sv.ino, Position(c.offset) / BLOCKSIZE, k)
  }

  /** Where a region that could not be moved as a whole ended. */
  ghost predicate Refused(rw: Direction, c: Cursor, u: View, ino: nat, e: Errno, k: nat) {
    var a := Position(c.offset) / BLOCKSIZE;
    && (rw.Write? ==> a <= k && NeedAll(u, ino, a, k) <= |FreeBlocks(u)|)
    && ((e == EFBIG && k >= MAXFILEBLOCKS) || (e == ENOSPC && rw.Write? && RunsOutAt(u, ino, a, k)))
  }

  method MoveBlock(fs: SfsFs, sv: SfsVnode, uio: Uio, ghost c: Cursor, ghost u: View, ghost mem: seq<Byte>, ghost n: nat, ghost k: nat)
    returns (e: Errno, ghost m: nat)
    requires Underway(fs, sv, uio, c, u, mem, n) && Apart(fs, uio) && |mem| == uio.space.Length
    requires uio.offset % BLOCKSIZE == 0 && BLOCKSIZE <= uio.resid
    requires k == Position(uio.offset) / BLOCKSIZE && Paid(fs, sv, uio, c, u, k)
    modifies fs`disk, fs`freemapdirty, fs`owner, fs.freemap.v, sv`i, sv`dirty
    modifies uio`iov, uio`resid, uio`offset, uio.space
    ensures Underway(fs, sv, uio, c, u, mem, m) && m == n + if e == Ok then BLOCKSIZE else 0
    ensures uio.offset == old(uio.offset) + (m - n) && uio.resid == old(uio.resid) - (m - n)
    ensures e == Ok || e == ENOSPC || e == EFBIG
    ensures e == EFBIG ==> Position(c.offset) + m >= MAXFILEBYTES
    ensures e == ENOSPC ==> uio.rw.Write? && forall b: nat :: b < fs.nblocks ==> b in fs.State().marked
    ensures if e == Ok then k < MAXFILEBLOCKS && k + 1 == Position(uio.offset) / BLOCKSIZE && Paid(fs, sv, uio, c, u, k + 1)
            else Refused(uio.rw, c, u, sv.ino, e, k)
  {
    hide Owned, SameFile, Slot, FileBlock, Fits, Span, Splice, Scatter, Gather, FileWritten, Contents, Transferred, Position,
         InSpace, FreeBlocks, Need, NeedAll, Mapped, Spent, RunsOutAt, SfsFs.State, SfsFs.Valid;
    ghost var v, mem' := fs.State(), uio.space[..];
    e := BlockIo(fs, sv, uio);
    m := n + if e == Ok then BLOCKSIZE else 0;
    Onward(uio.rw, u, v, fs.State(), fs.live, sv.ino, c, n, m - n, mem, mem', uio.space[..]);
    PositionBlock(c.offset + n);
    if uio.rw.Write? {
      RunsOut(u, v, sv.ino, Position(c.offset) / BLOCKSIZE, k);
    }
    if e == Ok {
      RoomForBlock(c.offset + n, 0, BLOCKSIZE);
      PositionAhead(c.offset, m);
      if uio.rw.Write? {
        SpentNext(u, v, fs.State(), sv.ino, Position(c.offset) / BLOCKSIZE, k);
      }
    }
  }

  lemma PositionBlock(offset: nat)
    ensures Position(offset) >= MAXFILEBYTES <==> Position(offset) / BLOCKSIZE >= MAXFILEBLOCKS
    ensures Position(offset) % BLOCKSIZE == offset % BLOCKSIZE
  {
    PositionParts(offset);
  }

  /** The whole blocks in the middle of a region. */
  method MoveBlocks(fs: SfsFs, sv: SfsVnode, uio: Uio, nblocks: nat, ghost c: Cursor, ghost u: View, ghost mem: seq<Byte>, ghost n: nat,
                    ghost k: nat)
    returns (e: Errno, ghost m: nat, ghost l: nat)
    requires Underway(fs, sv, uio, c, u, mem, n) && Apart(fs, uio) && |mem| == uio.space.Length
    requires uio.offset % BLOCKSIZE == 0 && nblocks * BLOCKSIZE <= uio.resid
    requires k == Position(uio.offset) / BLOCKSIZE && Paid(fs, sv, uio, c, u, k)
    modifies fs`disk, fs`freemapdirty, fs`owner, fs.freemap.v, sv`i, sv`dirty
    modifies uio`iov, uio`resid, uio`offset, uio.space
    ensures Underway(fs, sv, uio, c, u, mem, m) && n <= m <= n + nblocks * BLOCKSIZE
    ensures e == Ok || e == ENOSPC || e == EFBIG
    ensures if e == Ok then m == n + nblocks * BLOCKSIZE else m < n + nblocks * BLOCKSIZE
    ensures e == EFBIG ==> Position(c.offset) + m >= MAXFILEBYTES
    ensures e == ENOSPC ==> uio.rw.Write? && forall b: nat :: b < fs.nblocks ==> b in fs.State().marked
    ensures l == Position(uio.offset) / BLOCKSIZE && (l == k || l <= MAXFILEBLOCKS) && uio.offset % BLOCKSIZE == 0
    ensures if e == Ok then l == k + nblocks && Paid(fs, sv, uio, c, u, l)
            else k <= l < k + nblocks && Refused(uio.rw, c, u, sv.ino, e, l)
  {
    hide Underway, Position, Paid, Refused, SfsFs.State;
    m, l := n, k;
    for i := 0 to nblocks
      invariant Underway(fs, sv, uio, c, u, mem, m) && m == n + i * BLOCKSIZE
      invariant uio.offset % BLOCKSIZE == 0 && (nblocks - i) * BLOCKSIZE <= uio.resid
      invariant l == k + i == Position(uio.offset) / BLOCKSIZE && Paid(fs, sv, uio, c, u, l) && (l == k || l <= MAXFILEBLOCKS)
    {
      e, m := MoveBlock(fs, sv, uio, c, u, mem, m, l);
      if e != Ok {
        return;
      }
      l := l + 1;
    }
    e := Ok;
  }

  /** A partial block at either end of a region. */
  method MovePartial(fs: SfsFs, sv: SfsVnode, uio: Uio, skip: nat, len: nat, ghost c: Cursor, ghost u: View, ghost mem: seq<Byte>, ghost n: nat,
                     ghost k: nat)
    returns (e: Errno, ghost m: nat)
    requires Underway(fs, sv, uio, c, u, mem, n) && Apart(fs, uio) && |mem| == uio.space.Length
    requires uio.offset % BLOCKSIZE == skip && skip + len <= BLOCKSIZE && len <= uio.resid
    requires k == Position(uio.offset) / BLOCKSIZE && Paid(fs, sv, uio, c, u, k)
    modifies fs`disk, fs`freemapdirty, fs`owner, fs.freemap.v, sv`i, sv`dirty
    modifies uio`iov, uio`resid, uio`offset, uio.space
    ensures Underway(fs, sv, uio, c, u, mem, m) && m == n + if e == Ok then len else 0
    ensures e == Ok || e == ENOSPC || e == EFBIG
    ensures e == EFBIG ==> Position(c.offset) + m >= MAXFILEBYTES
    ensures e == ENOSPC ==> uio.rw.Write? && forall b: nat :: b < fs.nblocks ==> b in fs.State().marked
    ensures if e == Ok then k < MAXFILEBLOCKS && Paid(fs, sv, uio, c, u, k + 1) else Refused(uio.rw, c, u, sv.ino, e, k)
  {
    hide Owned, SameFile, Slot, FileBlock, Fits, Span, Splice, Scatter, Gather, FileWritten, Contents, Transferred, Position,
         InSpace, FreeBlocks, Need, NeedAll, Mapped, Spent, RunsOutAt, SfsFs.State, SfsFs.Valid;
    ghost var v, mem' := fs.State(), uio.space[..];
    e := PartialIo(fs, sv, uio, skip, len);
    m := n + if e == Ok then len else 0;
    Onward(uio.rw, u, v, fs.State(), fs.live, sv.ino, c, n, m - n, mem, mem', uio.space[..]);
    PositionBlock(c.offset + n);
    if uio.rw.Write? {
      RunsOut(u, v, sv.ino, Position(c.offset) / BLOCKSIZE, k);
    }
    if e == Ok {
      RoomForBlock(c.offset + n, skip, len);
      if uio.rw.Write? {
        SpentNext(u, v, fs.State(), sv.ino, Position(c.offset) / BLOCKSIZE, k);
      }
    }
  }

  lemma NothingPaid(fs: SfsFs, sv: SfsVnode, uio: Uio)
    ensures Paid(fs, sv, uio, CursorOf(uio), fs.State(), Position(uio.offset) / BLOCKSIZE)
  {
    hide Position, Spent, SfsFs.State;
    NothingSpent(fs.State(), sv.ino, Position(uio.offset) / BLOCKSIZE);
  }

  /** How a write ends is decided by the volume as it was: at the first block that cannot be had. */
  ghost predicate WriteStops(v: View, ino: nat, pos: nat, resid: nat, e: Errno, n: nat) {
    && e == WriteError(v, ino, pos, resid)
    && (e != Ok && n > 0 ==> (pos + n) % BLOCKSIZE == 0)
    && (e == ENOSPC ==> RunsOutAt(v, ino, pos / BLOCKSIZE, (pos + n) / BLOCKSIZE))
  }

  lemma StoppedAt(rw: Direction, c: Cursor, u: View, ino: nat, e: Errno, n: nat, k: nat)
    requires Refused(rw, c, u, ino, e, k) && k == (Position(c.offset) + n) / BLOCKSIZE
    requires k == Position(c.offset) / BLOCKSIZE || k <= MAXFILEBLOCKS
    requires k < DivRoundUp(Position(c.offset) + c.resid, BLOCKSIZE)
    requires n > 0 ==> (Position(c.offset) + n) % BLOCKSIZE == 0
    ensures rw.Write? ==> WriteStops(u, ino, Position(c.offset), c.resid, e, n)
  {
    hide Position, NeedAll, FreeBlocks, WriteError, RunsOutAt;
    if rw.Write? {
      WriteStopped(u, ino, Position(c.offset), c.resid, k);
    }
  }

  lemma WentThrough(fs: SfsFs, sv: SfsVnode, uio: Uio, c: Cursor, u: View, k: nat)
    requires Paid(fs, sv, uio, c, u, k) && k == DivRoundUp(Position(c.offset) + c.resid, BLOCKSIZE)
    requires k == Position(c.offset) / BLOCKSIZE || k <= MAXFILEBLOCKS
    ensures forall n :: uio.rw.Write? ==> WriteStops(u, sv.ino, Position(c.offset), c.resid, Ok, n)
  {
    hide Position, Spent, WriteError, SfsFs.State;
    if uio.rw.Write? {
      WriteDone(u, fs.State(), sv.ino, Position(c.offset), c.resid, k);
    }
  }

  lemma UnderwayMeans(fs: SfsFs, sv: SfsVnode, uio: Uio, c: Cursor, u: View, mem: seq<Byte>, n: nat)
    requires Underway(fs, sv, uio, c, u, mem, n)
    ensures uio.resid + n == c.resid && uio.offset == c.offset + n && Position(uio.offset) == Position(c.offset) + n
  {
    hide Transferred, Position, SfsFs.State, SfsFs.Valid;
    PositionAhead(c.offset, n);
  }

  /** The block behind the last one that a region touches. */
  lemma LastBlock(pos: nat, resid: nat, k: nat)
    requires pos + resid <= k * BLOCKSIZE < pos + resid + BLOCKSIZE
    ensures k == DivRoundUp(pos + resid, BLOCKSIZE)
  {
    var r := DivRoundUp(pos + resid, BLOCKSIZE);
    assert r > 0 ==> (r - 1) * BLOCKSIZE < pos + resid;
  }

  /** The rest of a region, from the beginning of a block on: whole blocks, then a partial one. */
  method MoveAligned(fs: SfsFs, sv: SfsVnode, uio: Uio, ghost c: Cursor, ghost u: View, ghost mem: seq<Byte>, ghost n0: nat, ghost k0: nat)
    returns (e: Errno, ghost n: nat)
    requires Underway(fs, sv, uio, c, u, mem, n0) && Apart(fs, uio) && |mem| == uio.space.Length
    requires uio.offset % BLOCKSIZE == 0 && uio.resid > 0
    requires k0 == Position(uio.offset) / BLOCKSIZE && Paid(fs, sv, uio, c, u, k0)
    requires k0 == Position(c.offset) / BLOCKSIZE || k0 <= MAXFILEBLOCKS
    modifies fs`disk, fs`freemapdirty, fs`owner, fs.freemap.v, sv`i, sv`dirty
    modifies uio`iov, uio`resid, uio`offset, uio.space
    ensures Underway(fs, sv, uio, c, u, mem, n)
    ensures e == Ok || e == ENOSPC || e == EFBIG
    ensures if e == Ok then n == c.resid else n < c.resid
    ensures e == EFBIG ==> Position(c.offset) + n >= MAXFILEBYTES
    ensures e == ENOSPC ==> uio.rw.Write? && forall b: nat :: b < fs.nblocks ==> b in fs.State().marked
    ensures uio.rw.Write? ==> WriteStops(u, sv.ino, Position(c.offset), c.resid, e, n)
  {
    hide Underway, Position, Paid, Refused, WriteStops, SfsFs.State;
    ghost var k;
    UnderwayMeans(fs, sv, uio, c, u, mem, n0);
    PositionBlock(uio.offset);
    var nblocks := uio.resid / BLOCKSIZE;
    e, n, k := MoveBlocks(fs, sv, uio, nblocks, c, u, mem, n0, k0);
    UnderwayMeans(fs, sv, uio, c, u, mem, n);
    PositionBlock(uio.offset);
    if e != Ok {
      Before(Position(c.offset), c.resid, n, k);
      StoppedAt(uio.rw, c, u, sv.ino, e, n, k);
      return;
    }
    assert uio.resid < BLOCKSIZE;
    if uio.resid > 0 {
      Before(Position(c.offset), c.resid, n, k);
      e, n := MovePartial(fs, sv, uio, 0, uio.resid, c, u, mem, n, k);
      UnderwayMeans(fs, sv, uio, c, u, mem, n);
      if e != Ok {
        StoppedAt(uio.rw, c, u, sv.ino, e, n, k);
        return;
      }
      k := k + 1;
    }
    LastBlock(Position(c.offset), c.resid, k);
    WentThrough(fs, sv, uio, c, u, k);
  }

  lemma Before(pos: nat, resid: nat, n: nat, k: nat)
    requires n < resid && k == (pos + n) / BLOCKSIZE
    ensures k < DivRoundUp(pos + resid, BLOCKSIZE)
  {
    var r := DivRoundUp(pos + resid, BLOCKSIZE);
    assert r * BLOCKSIZE >= pos + resid;
  }

  /** A whole region: a partial block up to the first boundary, whole blocks, a partial block. */
  method MoveRange(fs: SfsFs, sv: SfsVnode, uio: Uio) returns (e: Errno, ghost n: nat)
    requires fs.Valid() && fs.Holds(sv) && Ready(uio) && Apart(fs, uio)
    modifies fs`disk, fs`freemapdirty, fs`owner, fs.freemap.v, sv`i, sv`dirty
    modifies uio`iov, uio`resid, uio`offset, uio.space
    ensures Underway(fs, sv, uio, old(CursorOf(uio)), old(fs.State()), old(uio.space[..]), n)
    ensures e == Ok || e == ENOSPC || e == EFBIG
    ensures if e == Ok then n == old(uio.resid) else n < old(uio.resid) || old(uio.resid) == 0
    ensures e == EFBIG ==> Position(old(uio.offset)) + n >= MAXFILEBYTES
    ensures e == ENOSPC ==> uio.rw.Write? && forall b: nat :: b < fs.nblocks ==> b in fs.State().marked
    ensures uio.rw.Write? ==> WriteStops(old(fs.State()), sv.ino, Position(old(uio.offset)), old(uio.resid), e, n)
  {
    hide Owned, SameFile, SameFiles, Slot, FileBlock, Fits, Span, Splice, Scatter, Gather, FileWritten, Contents, Transferred, Position,
         InSpace, Paid, Refused, WriteStops, SfsFs.State, SfsFs.Valid;
    ghost var c, u, mem := CursorOf(uio), fs.State(), uio.space[..];
    n := 0;
    ghost var k := Position(c.offset) / BLOCKSIZE;
    NothingPaid(fs, sv, uio);
    PositionBlock(c.offset);
    HeldIsLive(fs, sv);
    SameFilesReflexive(u, fs.live);
    NothingTransferred(uio.rw, u, u, fs.live, sv.ino, Position(c.offset), c.todo, mem);
    var blkoff := uio.offset % BLOCKSIZE;
    if blkoff != 0 {
      var len := Min(BLOCKSIZE - blkoff, uio.resid);
      e, n := MovePartial(fs, sv, uio, blkoff, len, c, u, mem, n, k);
      if e != Ok {
        StoppedAt(uio.rw, c, u, sv.ino, e, n, k);
        return;
      }
      k := k + 1;
    }
    if uio.resid == 0 {
      LastBlock(Position(c.offset), c.resid, k);
      WentThrough(fs, sv, uio, c, u, k);
      return Ok, n;
    }
    PositionAhead(c.offset, n);
    e, n := MoveAligned(fs, sv, uio, c, u, mem, n, k);
  }

  /** The number of bytes a read at offset may return. */
  function Readable(size: nat, offset: nat, resid: nat): nat {
    if offset >= size then 0 else Min(resid, size - offset)
  }

  /** Success returns exactly the bytes up to the end of the file; failure returns a prefix,
      up to the largest position a file can map. */
  ghost predicate ReadOutcome(v: View, ino: nat, size: nat, c: Cursor, mem: seq<Byte>, e: Errno, n: nat, mem': seq<Byte>) {
    var want := Readable(size, c.offset, c.resid);
    && n <= want && n <= |c.todo| && InSpace(c.todo[..n], |mem|)
    && mem' == Scatter(mem, c.todo[..n], Contents(v, ino, c.offset, n))
    && (want > 0 ==> (e == Ok <==> c.offset + want <= MAXFILEBYTES))
    && (c.offset >= size ==> e == Ok) && (n > 0 ==> c.offset + n <= MAXFILEBYTES)
    && (e == Ok ==> n == want)
    && (e != Ok ==> e == EFBIG && c.offset + n >= MAXFILEBYTES)
  }

  /** Success writes the whole request; failure a prefix, up to the largest position a file
      can map, or until the volume is full; which of them is decided by what the request needs
      and the volume has. Only this file changes, only in those bytes, and
      its size grows to the end of the transfer, which the size field keeps in 32 bits. */
  ghost predicate WriteOutcome(v: View, v': View, live: set<nat>, ino: nat, size: nat, c: Cursor, mem: seq<Byte>, e: Errno, n: nat) {
    var pos, end := Position(c.offset), c.offset + n;
    && n <= c.resid && n <= |c.todo| && InSpace(c.todo[..n], |mem|)
    && FileExtended(v, v', live, ino, pos, Gather(mem, c.todo[..n]), if n > 0 && end > size then end % WORD_LIMIT else size)
    && (n > 0 ==> pos + n <= MAXFILEBYTES)
    && (e == Ok ==> n == c.resid)
    && (e != Ok ==> || (e == EFBIG && pos + n >= MAXFILEBYTES)
                    || (e == ENOSPC && forall b: nat :: b < v'.nblocks ==> b in v'.marked))
    && WriteStops(v, ino, pos, c.resid, e, n)
  }

  lemma SmallPosition(offset: nat)
    ensures Position(offset) == offset <==> offset < POSITION_LIMIT
  {
  }

  lemma ReadMeans(v: View, v': View, live: set<nat>, ino: nat, pos: nat, todo: seq<nat>, n: nat, mem: seq<Byte>, mem': seq<Byte>)
    requires Transferred(Read, v, v', live, ino, pos, todo, n, mem, mem')
    ensures n <= |todo| && InSpace(todo[..n], |mem|)
    ensures v' == v && mem' == Scatter(mem, todo[..n], Contents(v, ino, pos, n))
  {
  }

  lemma WriteMeans(v: View, v': View, live: set<nat>, ino: nat, pos: nat, todo: seq<nat>, n: nat, mem: seq<Byte>, mem': seq<Byte>)
    requires Transferred(Write, v, v', live, ino, pos, todo, n, mem, mem')
    ensures n <= |todo| && InSpace(todo[..n], |mem|)
    ensures mem' == mem && FileWritten(v, v', live, ino, pos, Gather(mem, todo[..n]))
    ensures FileExtended(v, v', live, ino, pos, Gather(mem, todo[..n]), InodeOf(v, ino).size)
  {
  }

  /** sfs_io when reading: the part of the request beyond the end of the file is set aside
      and given back at the end. */
  method ReadRegion(fs: SfsFs, sv: SfsVnode, uio: Uio) returns (e: Errno, ghost n: nat)
    requires fs.Valid() && fs.Holds(sv) && Ready(uio) && Apart(fs, uio) && uio.rw.Read?
    modifies fs`disk, fs`freemapdirty, fs`owner, fs.freemap.v, sv`i, sv`dirty
    modifies uio`iov, uio`resid, uio`offset, uio.space
    ensures fs.Valid() && Ready(uio) && fs.State() == old(fs.State())
    ensures n <= old(uio.resid) && CursorOf(uio) == Ahead(old(CursorOf(uio)), n)
    ensures ReadOutcome(old(fs.State()), sv.ino, old(sv.i.size), old(CursorOf(uio)), old(uio.space[..]), e, n, uio.space[..])
  {
    hide Owned, SameFile, SameFiles, Slot, FileBlock, Fits, Span, Splice, Scatter, Gather, FileWritten, FileExtended, Contents,
         Transferred, Position, SfsFs.State, SfsFs.Sound;
    var extraresid := 0;
    ghost var u, mem, todo := fs.State(), uio.space[..], uio.Todo();
    HeldIsLive(fs, sv);
    SmallPosition(uio.offset);
    SameFilesReflexive(u, fs.live);
    var size, endpos := sv.i.size, uio.offset + uio.resid;
    if uio.offset >= size {
      NothingTransferred(Read, u, u, fs.live, sv.ino, uio.offset, todo, mem);
      ReadMeans(u, u, fs.live, sv.ino, uio.offset, todo, 0, mem, mem);
      return Ok, 0;
    }
    if endpos > size {
      extraresid := endpos - size;
      assert uio.resid > extraresid;
      uio.resid := uio.resid - extraresid;
    }
    e, n := MoveRange(fs, sv, uio);
    ReadMeans(u, fs.State(), fs.live, sv.ino, old(uio.offset), todo, n, mem, uio.space[..]);
    uio.resid := uio.resid + extraresid;
  }

  /** sfs_io when writing: the size grows to where the transfer ended. The size field has 32 bits. */
  method WriteRegion(fs: SfsFs, sv: SfsVnode, uio: Uio) returns (e: Errno, ghost n: nat)
    requires fs.Valid() && fs.Holds(sv) && Ready(uio) && Apart(fs, uio) && uio.rw.Write?
    modifies fs`disk, fs`freemapdirty, fs`owner, fs.freemap.v, sv`i, sv`dirty
    modifies uio`iov, uio`resid, uio`offset, uio.space
    ensures fs.Valid() && Ready(uio) && uio.space[..] == old(uio.space[..])
    ensures n <= old(uio.resid) && CursorOf(uio) == Ahead(old(CursorOf(uio)), n)
    ensures WriteOutcome(old(fs.State()), fs.State(), fs.live, sv.ino, old(sv.i.size), old(CursorOf(uio)), uio.space[..], e, n)
  {
    hide Owned, SameFile, SameFiles, Slot, FileBlock, Fits, Span, Splice, Scatter, Gather, FileWritten, FileExtended, Contents,
         Transferred, Position, WriteStops, SfsFs.State, SfsFs.Sound;
    var origresid := uio.resid;
    ghost var u, mem, todo := fs.State(), uio.space[..], uio.Todo();
    HeldInode(fs, sv);
    e, n := MoveRange(fs, sv, uio);
    ghost var v := fs.State();
    HeldInode(fs, sv);
    WriteMeans(u, v, fs.live, sv.ino, Position(old(uio.offset)), todo, n, mem, uio.space[..]);
    assert sv.i.size == old(sv.i.size);
    if uio.resid != origresid && uio.offset > sv.i.size {
      SetInode(fs, sv, sv.i.(size := uio.offset % WORD_LIMIT));
      WrittenThenSized(u, v, fs.owner, fs.live, sv.ino, Position(old(uio.offset)), Gather(mem, todo[..n]), sv.i);
    }
  }

  /** Reads or writes a region of a file at the uio's offset; n is the number of bytes moved. */
  method Io(fs: SfsFs, sv: SfsVnode, uio: Uio) returns (e: Errno, ghost n: nat)
    requires fs.Valid() && fs.Holds(sv) && Ready(uio) && Apart(fs, uio)
    modifies fs`disk, fs`freemapdirty, fs`owner, fs.freemap.v, sv`i, sv`dirty
    modifies uio`iov, uio`resid, uio`offset, uio.space
    ensures fs.Valid() && Ready(uio)
    ensures n <= old(uio.resid) && CursorOf(uio) == Ahead(old(CursorOf(uio)), n)
    ensures uio.rw.Read? ==> fs.State() == old(fs.State())
    ensures uio.rw.Read? ==>
              ReadOutcome(old(fs.State()), sv.ino, old(sv.i.size), old(CursorOf(uio)), old(uio.space[..]), e, n, uio.space[..])
    ensures uio.rw.Write? ==> uio.space[..] == old(uio.space[..])
    ensures uio.rw.Write? ==>
              WriteOutcome(old(fs.State()), fs.State(), fs.live, sv.ino, old(sv.i.size), old(CursorOf(uio)), uio.space[..], e, n)
  {
    hide Span, ReadOutcome, WriteOutcome, SfsFs.State, SfsFs.Valid;
    if uio.rw.Read? {
      e, n := ReadRegion(fs, sv, uio);
    } else {
      e, n := WriteRegion(fs, sv, uio);
    }
  }

  /** A write goes to the position asked for if and only if the offset is below 2^41; beyond
      that the 32-bit block number wraps, and the bytes land near the start of the file. */
  lemma WriteLandsWhereAsked(v: View, v': View, live: set<nat>, ino: nat, offset: nat, data: seq<Byte>, size: nat)
    requires FileExtended(v, v', live, ino, Position(offset), data, size)
    requires exists i :: 0 <= i < |data| && data[i] != Raw(v, ino, offset + i)
    requires Position(offset) + |data| <= MAXFILEBYTES
    ensures (forall i :: 0 <= i < |data| ==> Raw(v', ino, offset + i) == data[i]) <==> offset < POSITION_LIMIT
  {
    hide Raw, FileBlock, InodeOf;
    SmallPosition(offset);
  }

  // ---------------------------------------------------------------- metadata

  /** sfs_metaio reading: part of one block of a file, zeros where nothing is mapped. */
  method MetaRead(fs: SfsFs, sv: SfsVnode, pos: nat, len: nat) returns (e: Errno, data: seq<Byte>)
    requires fs.Valid() && fs.Holds(sv)
    requires pos < POSITION_LIMIT && pos % BLOCKSIZE + len <= BLOCKSIZE
    modifies fs`disk, fs`freemapdirty, fs`owner, fs.freemap.v, sv`i, sv`dirty
    ensures fs.Valid() && fs.State() == old(fs.State()) && fs.owner == old(fs.owner)
    ensures e == if pos >= MAXFILEBYTES then EFBIG else Ok
    ensures e == Ok ==> data == Contents(fs.State(), sv.ino, pos, len)
  {
    hide Owned, SameFile, SameFiles, Slot, FileBlock, Contents, SfsFs.State, SfsFs.Sound;
    SmallPosition(pos);
    PositionParts(pos);
    var vnblock, blockoffset := FileBlockOf(pos), pos % BLOCKSIZE;
    data := [];
    var diskblock;
    e, diskblock := Bmap(fs, sv, vnblock, false);
    if e != Ok {
      return;
    }
    ContentsInBlock(fs.State(), sv.ino, vnblock, blockoffset, len);
    if diskblock == 0 {
      UnmappedContents(fs.State(), sv.ino, vnblock);
      return Ok, seq(len, _ => 0);
    }
    MappedContents(fs, sv, vnblock);
    var metaiobuf := ReadBlock(fs, diskblock);
    data := metaiobuf[blockoffset..blockoffset + len];
  }

  /** sfs_metaio writing: replaces part of one block of a file, and extends the file if the
      part ends beyond it. Where a block is already mapped it cannot fail. */
  method MetaWrite(fs: SfsFs, sv: SfsVnode, pos: nat, data: seq<Byte>) returns (e: Errno)
    requires fs.Valid() && fs.Holds(sv)
    requires pos < POSITION_LIMIT && pos % BLOCKSIZE + |data| <= BLOCKSIZE
    modifies fs`disk, fs`freemapdirty, fs`owner, fs.freemap.v, sv`i, sv`dirty
    ensures fs.Valid()
    ensures e == Ok || e == EFBIG || e == ENOSPC
    ensures e == EFBIG <==> pos >= MAXFILEBYTES
    ensures e == ENOSPC <==> |FreeBlocks(old(fs.State()))| < Need(old(fs.State()), sv.ino, pos / BLOCKSIZE)
    ensures e == ENOSPC ==> forall b: nat :: b < fs.nblocks ==> b in fs.State().marked
    ensures Slot(old(fs.State()), sv.ino, pos / BLOCKSIZE) != 0 ==>
              fs.owner == old(fs.owner) && fs.State().marked == old(fs.State()).marked
    ensures e != Ok ==> SameFiles(old(fs.State()), fs.State(), fs.live)
    ensures e == Ok ==>
              FileExtended(old(fs.State()), fs.State(), fs.live, sv.ino, pos, data, Max(old(sv.i.size), pos + |data|))
  {
    hide Owned, SameFile, SameFiles, Slot, FileBlock, FileWritten, FileExtended, Splice, FreeBlocks, Need, Mapped, SameMap,
         SfsFs.State, SfsFs.Sound;
    ghost var u := fs.State();
    SmallPosition(pos);
    PositionParts(pos);
    HeldIsLive(fs, sv);
    HeldInode(fs, sv);
    var vnblock, blockoffset := FileBlockOf(pos), pos % BLOCKSIZE;
    var diskblock;
    e, diskblock := Bmap(fs, sv, vnblock, true);
    if e != Ok {
      return;
    }
    ghost var v := fs.State();
    NothingWritten(u, v, fs.live, sv.ino, pos);
    MappedContents(fs, sv, vnblock);
    var metaiobuf := ReadBlock(fs, diskblock);
    metaiobuf := Splice(metaiobuf, blockoffset, data);
    WriteFileBlock(fs, sv, vnblock, diskblock, blockoffset, data, metaiobuf);
    ghost var w := fs.State();
    WrittenTwice(u, v, w, fs.live, sv.ino, pos, [], data);
    assert [] + data == data;
    SameSize(u, w, fs.live, sv.ino, pos, data);
    HeldInode(fs, sv);
    var endpos := pos + |data|;
    if endpos > sv.i.size {
      SetInode(fs, sv, sv.i.(size := endpos));
      WrittenThenSized(u, w, fs.owner, fs.live, sv.ino, pos, data, sv.i);
    }
  }

  function Max(a: nat, b: nat): nat {
    if a >= b then a else b
  }

  lemma SameSize(v: View, v': View, live: set<nat>, ino: nat, pos: nat, data: seq<Byte>)
    requires FileWritten(v, v', live, ino, pos, data)
    ensures InodeOf(v', ino).size == InodeOf(v, ino).size
    ensures FileExtended(v, v', live, ino, pos, data, InodeOf(v, ino).size)
  {
  }
}
