/** Any sequence of operations on a mounted volume, by programs that open and close its files
    (sfs_vnops.c:97-129, 249-512, vfs/vnode.c:54-87). */
module SfsSession {
  import opened Lib
  import opened Uios
  import opened SfsLayout
  import opened SfsState
  import opened SfsFiles
  import opened SfsNames
  import opened SfsVolume
  import opened SfsBmap
  import opened SfsSpace
  import opened SfsIo
  import opened SfsInode
  import opened SfsDir
  import opened SfsVnops
  import opened SfsFsops
  import opened SfsEmpty
  import opened SfsRoot
  import opened SfsAbstract
  import opened SfsSeen

  /** Holding the root directory once, and one reference for every open file, accounts for all
      references to vnodes. */
  ghost predicate Counted(table: map<nat, SfsVnode>, counts: map<nat, nat>, dv: SfsVnode, files: seq<SfsVnode>) {
    && dv in table.Values && counts.Keys == table.Keys
    && (forall i :: i in table ==> table[i].ino == i && counts[i] == References(table[i], dv, files))
    && forall f :: f in files ==> f != dv && f.ino in table && table[f.ino] == f
  }

  ghost function References(sv: SfsVnode, dv: SfsVnode, files: seq<SfsVnode>): nat {
    multiset(files)[sv] + if sv == dv then 1 else 0
  }

  ghost function Refcounts(fs: SfsFs): map<nat, nat>
    reads fs`table, fs.table.Values
  {
    map i | i in fs.table :: fs.table[i].refcount
  }

  /** The volume and the open files between two operations. */
  ghost predicate Serving(fs: SfsFs, dv: SfsVnode, files: seq<SfsVnode>)
    reads fs, fs.freemap.v, fs.table.Values
  {
    Ordered(fs, dv) && Counted(fs.table, Refcounts(fs), dv, files)
  }

  /** What is in memory is the root directory and the open files, and nothing else. */
  lemma OnlyOpenFiles(fs: SfsFs, dv: SfsVnode, files: seq<SfsVnode>)
    requires Serving(fs, dv, files)
    ensures forall sv :: sv in fs.table.Values <==> sv == dv || sv in files
    ensures forall f :: f in files ==> fs.Holds(f) && f != dv
  {
    hide Ordered;
    assert fs.TableValid() by {
      Tabled(fs, dv);
    }
    forall sv | sv in fs.table.Values
      ensures sv == dv || sv in files
    {
      var i :| i in fs.table && fs.table[i] == sv;
      assert Refcounts(fs)[i] > 0;
    }
  }

  lemma Tabled(fs: SfsFs, dv: SfsVnode)
    requires Ordered(fs, dv)
    ensures fs.TableValid() && fs.Holds(dv) && dv.ino == ROOTDIR_INO
  {
  }

  lemma Opened(table: map<nat, SfsVnode>, counts: map<nat, nat>, counts': map<nat, nat>, dv: SfsVnode, files: seq<SfsVnode>, sv: SfsVnode)
    requires Counted(table, counts, dv, files) && sv != dv
    requires sv.ino in table ==> sv == table[sv.ino]
    requires counts' == counts[sv.ino := if sv.ino in table then counts[sv.ino] + 1 else 1]
    requires dv.ino in table && table[dv.ino] == dv
    ensures Counted(table[sv.ino := sv], counts', dv, files + [sv])
  {
    var table' := table[sv.ino := sv];
    assert table'[dv.ino] == dv;
    forall i | i in table'
      ensures table'[i].ino == i && counts'[i] == References(table'[i], dv, files + [sv])
    {
      assert multiset(files + [sv]) == multiset(files) + multiset{sv};
      if i == sv.ino && i !in table {
        assert sv !in files;
      }
    }
  }

  lemma Closed(table: map<nat, SfsVnode>, counts: map<nat, nat>, table': map<nat, SfsVnode>, counts': map<nat, nat>,
               dv: SfsVnode, files: seq<SfsVnode>, h: nat)
    requires Counted(table, counts, dv, files) && h < |files| && dv.ino in table && table[dv.ino] == dv
    requires var f := files[h];
             && f.ino in counts
             && table' == (if counts[f.ino] == 1 then table - {f.ino} else table) && counts'.Keys == table'.Keys
             && forall i :: i in table' ==> counts'[i] + (if i == f.ino then 1 else 0) == counts[i]
    ensures Counted(table', counts', dv, Without(files, h))
  {
    var f, left := files[h], Without(files, h);
    assert files == files[..h] + [f] + files[h + 1..];
    assert multiset(files) == multiset(left) + multiset{f};
    assert f in files;
    assert dv.ino in table' && table'[dv.ino] == dv;
    forall x | x in left
      ensures x != dv && x.ino in table' && table'[x.ino] == x
    {
      assert x in multiset(left) && x in multiset(files);
      assert x in files;
      assert multiset(files)[x] >= 1;
      if x == f {
        assert multiset(files)[f] >= 2;
      } else {
        assert x.ino != f.ino;
      }
    }
  }

  /** The vnodes in memory were there before or are new. */
  twostate predicate Grew(fs: SfsFs)
    reads fs
  {
    forall sv :: sv in fs.table.Values ==> sv in old(fs.table.Values) || fresh(sv)
  }

  // ---------------------------------------------------------------- what programs see

  function Numbers(files: seq<SfsVnode>): (r: seq<nat>)
    ensures |r| == |files| && forall k :: 0 <= k < |r| ==> r[k] == files[k].ino
  {
    seq(|files|, k requires 0 <= k < |files| => files[k].ino)
  }

  lemma NumbersMore(files: seq<SfsVnode>, sv: SfsVnode)
    ensures Numbers(files + [sv]) == Numbers(files) + [sv.ino]
  {
  }

  lemma NumbersLess(files: seq<SfsVnode>, h: nat)
    requires h < |files|
    ensures Numbers(Without(files, h)) == Without(Numbers(files), h)
  {
  }

  ghost function Now(fs: SfsFs, files: seq<SfsVnode>): Files
    reads fs, fs.freemap.v, fs.table.Values
  {
    Seen(fs.State(), fs.live, Numbers(files))
  }

  lemma OpenNow(fs: SfsFs, files: seq<SfsVnode>)
    ensures Now(fs, files).open == Numbers(files)
  {
  }

  lemma ServingSettled(fs: SfsFs, dv: SfsVnode, files: seq<SfsVnode>)
    requires Serving(fs, dv, files)
    ensures Settled(fs.State(), fs.live, Numbers(files))
  {
    hide NameSpace, Owned, Counted, SfsFs.State, SfsFs.Sound;
    OnlyOpenFiles(fs, dv, files);
    TableIsLoaded(fs);
    ZeroIsNotLive(fs.State(), fs.owner, fs.live);
    TableLive(fs);
    assert fs.TableValid() by {
      Tabled(fs, dv);
    }
    forall h | 0 <= h < |files|
      ensures files[h].ino in fs.live && files[h].ino != ROOTDIR_INO
    {
      assert files[h] in files;
    }
    forall i
      ensures i in fs.table <==> i == ROOTDIR_INO || i in Numbers(files)
    {
      NumberedOpen(fs, dv, files, i);
    }
  }

  lemma NumberedOpen(fs: SfsFs, dv: SfsVnode, files: seq<SfsVnode>, i: nat)
    requires fs.TableValid() && fs.Holds(dv) && dv.ino == ROOTDIR_INO
    requires forall sv :: sv in fs.table.Values <==> sv == dv || sv in files
    ensures i in fs.table <==> i == ROOTDIR_INO || i in Numbers(files)
  {
    if i in fs.table {
      var sv := fs.table[i];
      assert sv in fs.table.Values && sv.ino == i;
      if sv != dv {
        var k :| 0 <= k < |files| && files[k] == sv;
        assert Numbers(files)[k] == i;
      }
    }
    if i in Numbers(files) {
      var k :| 0 <= k < |files| && Numbers(files)[k] == i;
      assert files[k] in files;
    }
  }

  // ---------------------------------------------------------------- the operations

  /** Opens a file, creating it if need be. */
  method OpenVnode(fs: SfsFs, dv: SfsVnode, files: seq<SfsVnode>, op: Op) returns (e: Errno, ino: nat, files': seq<SfsVnode>)
    requires Serving(fs, dv, files) && op.Open?
    modifies fs, fs.freemap.v, fs.table.Values
    ensures Serving(fs, dv, files') && Grew(fs)
    ensures Numbers(files') == if e == Ok then Numbers(files) + [ino] else Numbers(files)
    ensures OpenOutcome(old(fs.State()), fs.State(), old(fs.live), fs.live, op, e, ino)
  {
    hide Ordered, Counted, References, Names, OnlyNamesChanged, SameFiles, CreateOutcome, LookOutcome, Raw, InodeOf, SfsFs.State;
    ghost var table, counts := fs.table, Refcounts(fs);
    Tabled(fs, dv);
    var sv;
    e, sv := Creat(fs, dv, op.name, op.excl, op.memory);
    ino, files' := 0, files;
    if e != Ok {
      assert Refcounts(fs) == counts;
      return;
    }
    assert Refcounts(fs) == counts[sv.ino := if sv.ino in table then counts[sv.ino] + 1 else 1];
    Opened(table, counts, Refcounts(fs), dv, files, sv);
    NumbersMore(files, sv);
    HeldInode(fs, sv);
    Tabled(fs, dv);
    ino, files' := sv.ino, files + [sv];
  }

  method OpenFile(fs: SfsFs, dv: SfsVnode, files: seq<SfsVnode>, op: Op) returns (files': seq<SfsVnode>, answer: Answer)
    requires Serving(fs, dv, files) && op.Open?
    modifies fs, fs.freemap.v, fs.table.Values
    ensures Serving(fs, dv, files') && Grew(fs)
    ensures Performed(old(Now(fs, files)), op, answer, Now(fs, files'))
    ensures Decided(old(fs.State()), Numbers(files), op, answer)
  {
    hide Serving, Settled, Seen, Performed, Decided, OpenOutcome, SfsFs.State;
    ghost var v, live, open := fs.State(), fs.live, Numbers(files);
    ServingSettled(fs, dv, files);
    var e, ino;
    e, ino, files' := OpenVnode(fs, dv, files, op);
    OpenPerformed(v, fs.State(), live, fs.live, open, op, e, ino);
    answer := if e == Ok then Answer(Ok, ino, 0, []) else Done(e);
  }

  /** Closes a file, which takes it off the disk if nothing leads to it any more. */
  method CloseFile(fs: SfsFs, dv: SfsVnode, files: seq<SfsVnode>, h: nat) returns (files': seq<SfsVnode>)
    requires Serving(fs, dv, files) && h < |files|
    modifies fs, fs.freemap.v, fs.table.Values
    ensures Serving(fs, dv, files') && files' == Without(files, h) && Grew(fs)
    ensures Performed(old(Now(fs, files)), Close(h), Done(Ok), Now(fs, files'))
    ensures Decided(old(fs.State()), Numbers(files), Close(h), Done(Ok))
  {
    hide Ordered, Counted, References, Dir, Names, SameFiles, BlocksOf, Without, Settled, Seen, Performed, Decided, InodeOf, SfsFs.State;
    ghost var table, counts, v, live, open := fs.table, Refcounts(fs), fs.State(), fs.live, Numbers(files);
    Tabled(fs, dv);
    OnlyOpenFiles(fs, dv, files);
    ServingSettled(fs, dv, files);
    var f := files[h];
    assert f in files;
    HeldInode(fs, f);
    LastReference(table, counts, dv, files, h);
    Release(fs, dv, f);
    Tabled(fs, dv);
    Closed(table, counts, fs.table, Refcounts(fs), dv, files, h);
    files' := Without(files, h);
    NumbersLess(files, h);
    NamesByDir(v, fs.State());
    ClosePerformed(v, fs.State(), live, fs.live, open, h, counts[f.ino] == 1);
  }

  /** The last reference to a file is given up with the last handle that it is open by. */
  lemma LastReference(table: map<nat, SfsVnode>, counts: map<nat, nat>, dv: SfsVnode, files: seq<SfsVnode>, h: nat)
    requires Counted(table, counts, dv, files) && h < |files| && files[h].ino in counts
    ensures counts[files[h].ino] == 1 <==> files[h].ino !in Without(Numbers(files), h)
  {
    var f, left := files[h], Without(files, h);
    NumbersLess(files, h);
    assert f in files;
    assert files == files[..h] + [f] + files[h + 1..];
    assert multiset(files) == multiset(left) + multiset{f};
    if f in left {
      var k :| 0 <= k < |left| && left[k] == f;
      assert Numbers(left)[k] == f.ino;
    }
    if f.ino in Numbers(left) {
      var k :| 0 <= k < |left| && Numbers(left)[k] == f.ino;
      assert left[k] in multiset(files);
      assert left[k] in files && left[k] == f;
    }
  }

  /** What leaves the table and the reference counts alone leaves the open files open. */
  lemma StillServing(fs: SfsFs, dv: SfsVnode, files: seq<SfsVnode>, counts: map<nat, nat>)
    requires Counted(fs.table, counts, dv, files) && Ordered(fs, dv)
    requires forall i :: i in fs.table && i in counts ==> fs.table[i].refcount == counts[i]
    ensures Serving(fs, dv, files)
  {
    hide Ordered, References;
    assert Refcounts(fs) == counts;
  }

  lemma CountsNow(fs: SfsFs)
    ensures forall i :: i in fs.table ==> i in Refcounts(fs) && Refcounts(fs)[i] == fs.table[i].refcount
  {
  }

  /** Makes a hard link, removes a name, or renames a file. */
  method LinkFile(fs: SfsFs, dv: SfsVnode, files: seq<SfsVnode>, op: Op) returns (answer: Answer)
    requires Serving(fs, dv, files) && op.Hardlink? && op.h < |files|
    modifies fs, fs.freemap.v, fs.table.Values
    ensures Serving(fs, dv, files) && Grew(fs)
    ensures Performed(old(Now(fs, files)), op, answer, Now(fs, files))
    ensures Decided(old(fs.State()), Numbers(files), op, answer)
  {
    hide Ordered, Counted, Names, OnlyNamesChanged, SameFiles, EntryOutcome, Settled, Seen, Performed, Decided, SfsFs.State;
    ghost var counts, v, open := Refcounts(fs), fs.State(), Numbers(files);
    CountsNow(fs);
    OnlyOpenFiles(fs, dv, files);
    ServingSettled(fs, dv, files);
    assert files[op.h] in files;
    var e := Link(fs, dv, op.name, files[op.h]);
    StillServing(fs, dv, files, counts);
    answer := Done(e);
    if e == Ok {
      LinkPerformed(v, fs.State(), fs.live, open, op);
    } else {
      NamesFailed(v, fs.State(), fs.live, open, op);
    }
  }

  method DeleteFile(fs: SfsFs, dv: SfsVnode, files: seq<SfsVnode>, op: Op) returns (answer: Answer)
    requires Serving(fs, dv, files) && op.Delete?
    modifies fs, fs.freemap.v, fs.table.Values
    ensures Serving(fs, dv, files) && Grew(fs)
    ensures Performed(old(Now(fs, files)), op, answer, Now(fs, files))
    ensures Decided(old(fs.State()), Numbers(files), op, answer)
  {
    hide Owned, Counted, Names, NameSpace, OnlyNamesChanged, SameFiles, BlocksOf, Settled, Seen, Performed, Decided, InodeOf,
         SfsFs.State, SfsFs.Sound;
    ghost var counts, v, live, open := Refcounts(fs), fs.State(), fs.live, Numbers(files);
    CountsNow(fs);
    ServingSettled(fs, dv, files);
    TableIsLoaded(fs);
    var e := RemoveName(fs, dv, op.name, op.memory);
    StillServing(fs, dv, files, counts);
    answer := Done(e);
    if e == Ok {
      DeletePerformed(v, fs.State(), live, fs.live, open, op);
    } else {
      NamesFailed(v, fs.State(), fs.live, open, op);
    }
  }

  method MoveFile(fs: SfsFs, dv: SfsVnode, files: seq<SfsVnode>, op: Op) returns (answer: Answer)
    requires Serving(fs, dv, files) && op.Move?
    modifies fs, fs.freemap.v, fs.table.Values
    ensures Serving(fs, dv, files) && Grew(fs)
    ensures Performed(old(Now(fs, files)), op, answer, Now(fs, files))
    ensures Decided(old(fs.State()), Numbers(files), op, answer)
  {
    hide Ordered, Counted, Names, SameFile, SameFiles, LookOutcome, EntryOutcome, Settled, Seen, Performed, Decided, SfsFs.State;
    ghost var counts, v, open := Refcounts(fs), fs.State(), Numbers(files);
    CountsNow(fs);
    OnlyOpenFiles(fs, dv, files);
    ServingSettled(fs, dv, files);
    var e := Rename(fs, dv, op.n1, op.n2, op.memory);
    StillServing(fs, dv, files, counts);
    answer := Done(e);
    if e == Ok {
      MovePerformed(v, fs.State(), fs.live, open, op);
    } else {
      NamesFailed(v, fs.State(), fs.live, open, op);
    }
  }

  method TruncateFile(fs: SfsFs, dv: SfsVnode, files: seq<SfsVnode>, h: nat, len: nat)
    requires Serving(fs, dv, files) && h < |files|
    modifies fs, fs.freemap.v, fs.table.Values
    ensures Serving(fs, dv, files) && Grew(fs)
    ensures Performed(old(Now(fs, files)), Shorten(h, len), Done(Ok), Now(fs, files))
    ensures Decided(old(fs.State()), Numbers(files), Shorten(h, len), Done(Ok))
  {
    hide Ordered, Counted, Names, Raw, SameFile, Cut, BlockLength, Settled, Seen, Performed, Decided, InodeOf, SfsFs.State;
    ghost var counts, v, open := Refcounts(fs), fs.State(), Numbers(files);
    CountsNow(fs);
    OnlyOpenFiles(fs, dv, files);
    ServingSettled(fs, dv, files);
    assert files[h] in files;
    Truncate(fs, dv, files[h], len);
    StillServing(fs, dv, files, counts);
    HeldInode(fs, files[h]);
    ShortenPerformed(v, fs.State(), fs.live, open, h, len);
  }

  method SyncFiles(fs: SfsFs, dv: SfsVnode, files: seq<SfsVnode>)
    requires Serving(fs, dv, files)
    modifies fs, fs.freemap.v, fs.table.Values
    ensures Serving(fs, dv, files) && Grew(fs)
    ensures Performed(old(Now(fs, files)), Flush, Done(Ok), Now(fs, files))
    ensures Decided(old(fs.State()), Numbers(files), Flush, Done(Ok))
  {
    hide Owned, Counted, NameSpace, Names, SameFiles, Mountable, MountedView, AllClean, Settled, Seen, Performed, Decided, SfsFs.State, SfsFs.Sound;
    ghost var v, counts, open := fs.State(), Refcounts(fs), Numbers(files);
    CountsNow(fs);
    ServingSettled(fs, dv, files);
    Sync(fs);
    RootLoaded(v, fs.State(), fs.live);
    StillServing(fs, dv, files, counts);
    FlushPerformed(v, fs.State(), fs.live, open);
  }

  lemma SpanIs(n: nat)
    ensures |Span([Iovec(0, n)])| == n && forall k :: 0 <= k < n ==> Span([Iovec(0, n)])[k] == k
  {
    assert [Iovec(0, n)][1..] == [];
  }

  /** A buffer of the program's, to be filled from a file or written to one. */
  method Buffer(rw: Direction, data: seq<Byte>, pos: nat) returns (uio: Uio)
    requires |data| < SIZE_T_LIMIT
    ensures fresh(uio) && fresh(uio.space) && uio.rw == rw && Ready(uio)
    ensures uio.space[..] == data && CursorOf(uio) == Cursor(|data|, pos, Span([Iovec(0, |data|)]))
  {
    var space := new Byte[|data|](i requires 0 <= i < |data| => data[i]);
    uio := new Uio(rw, space, [Iovec(0, |data|)], |data|, pos);
    SpanIs(|data|);
  }

  lemma {:induction false} ScatterFront(mem: seq<Byte>, addresses: seq<nat>, data: seq<Byte>)
    requires |addresses| == |data| <= |mem| && forall k :: 0 <= k < |addresses| ==> addresses[k] == k
    ensures InSpace(addresses, |mem|) && Scatter(mem, addresses, data) == data + mem[|data|..]
  {
    if data != [] {
      var last := |data| - 1;
      ScatterFront(mem, addresses[..last], data[..last]);
      assert data == data[..last] + [data[last]];
    }
  }

  /** What a read into a buffer of one piece means. */
  lemma ReadInto(v: View, ino: nat, size: nat, c: Cursor, mem: seq<Byte>, e: Errno, n: nat, mem': seq<Byte>)
    requires ReadOutcome(v, ino, size, c, mem, e, n, mem') && c.todo == Span([Iovec(0, |mem|)])
    ensures n <= |mem| == |mem'| && mem'[..n] == Contents(v, ino, c.offset, n)
    ensures var want := Readable(size, c.offset, c.resid);
            && n <= want && (want > 0 ==> (e == Ok <==> c.offset + want <= MAXFILEBYTES)) && (c.offset >= size ==> e == Ok)
            && (e == Ok ==> n == want) && (e != Ok ==> e == EFBIG && c.offset + n >= MAXFILEBYTES)
            && (n > 0 ==> c.offset + n <= MAXFILEBYTES)
  {
    hide Raw;
    SpanIs(|mem|);
    ScatterFront(mem, c.todo[..n], Contents(v, ino, c.offset, n));
  }

  lemma WriteFrom(mem: seq<Byte>, n: nat)
    requires n <= |mem|
    ensures var todo := Span([Iovec(0, |mem|)]);
            n <= |todo| && InSpace(todo[..n], |mem|) && Gather(mem, todo[..n]) == mem[..n]
  {
    SpanIs(|mem|);
  }

  method ReadFile(fs: SfsFs, dv: SfsVnode, files: seq<SfsVnode>, h: nat, pos: nat, n: nat) returns (answer: Answer)
    requires Serving(fs, dv, files) && h < |files| && n < SIZE_T_LIMIT
    modifies fs, fs.freemap.v, fs.table.Values
    ensures Serving(fs, dv, files) && Grew(fs)
    ensures Performed(old(Now(fs, files)), Get(h, pos, n), answer, Now(fs, files)) && answer.Answer?
  {
    hide Owned, Counted, NameSpace, Names, ReadOutcome, WriteOutcome, Settled, Seen, Performed, Decided, InodeOf, Span, SfsFs.State, SfsFs.Sound;
    ghost var counts, v, open := Refcounts(fs), fs.State(), Numbers(files);
    CountsNow(fs);
    OnlyOpenFiles(fs, dv, files);
    ServingSettled(fs, dv, files);
    assert files[h] in files;
    HeldInode(fs, files[h]);
    var uio := Buffer(Read, seq(n, _ => 0), pos);
    ghost var mem, c := uio.space[..], CursorOf(uio);
    var e, moved := Io(fs, files[h], uio);
    ReadInto(v, files[h].ino, InodeOf(v, files[h].ino).size, c, mem, e, moved, uio.space[..]);
    StillServing(fs, dv, files, counts);
    answer := Answer(e, 0, 0, uio.space[..n - uio.resid]);
    ReadPerformed(v, fs.live, open, h, pos, n, e, answer.data);
  }

  method WriteFile(fs: SfsFs, dv: SfsVnode, files: seq<SfsVnode>, op: Op) returns (answer: Answer)
    requires Serving(fs, dv, files) && op.Put? && op.h < |files| && |op.data| < SIZE_T_LIMIT
    modifies fs, fs.freemap.v, fs.table.Values
    ensures Serving(fs, dv, files) && Grew(fs)
    ensures Performed(old(Now(fs, files)), op, answer, Now(fs, files))
    ensures Decided(old(fs.State()), Numbers(files), op, answer)
  {
    hide Ordered, Counted, Names, WriteOutcome, Settled, Seen, Performed, Decided, InodeOf, Span, FileExtended, WriteError, SfsFs.State;
    ghost var counts, v, open := Refcounts(fs), fs.State(), Numbers(files);
    CountsNow(fs);
    OnlyOpenFiles(fs, dv, files);
    ServingSettled(fs, dv, files);
    assert files[op.h] in files;
    HeldInode(fs, files[op.h]);
    var uio := Buffer(Write, op.data, op.pos);
    ghost var c := CursorOf(uio);
    var e, moved := SfsVnops.Write(fs, dv, files[op.h], uio);
    StillServing(fs, dv, files, counts);
    answer := Answer(e, 0, |op.data| - uio.resid, []);
    WroteFrom(v, fs.State(), fs.live, files[op.h].ino, InodeOf(v, files[op.h].ino).size, c, op.data, e, moved);
    WritePerformed(v, fs.State(), fs.live, open, op.h, op.pos, op.data, e, moved);
  }

  /** What a write from a buffer of one piece means. */
  lemma WroteFrom(v: View, w: View, live: set<nat>, ino: nat, size: nat, c: Cursor, mem: seq<Byte>, e: Errno, n: nat)
    requires WriteOutcome(v, w, live, ino, size, c, mem, e, n) && c.todo == Span([Iovec(0, |mem|)]) && c.resid == |mem|
    ensures n <= |mem| && (n > 0 ==> Position(c.offset) + n <= MAXFILEBYTES) && (e == Ok ==> n == |mem|)
    ensures e == Ok || e == ENOSPC || (e == EFBIG && Position(c.offset) + n >= MAXFILEBYTES)
    ensures e == WriteError(v, ino, Position(c.offset), |mem|)
    ensures FileExtended(v, w, live, ino, Position(c.offset), mem[..n],
                         if n > 0 && c.offset + n > size then (c.offset + n) % WORD_LIMIT else size)
  {
    hide FileExtended, WriteError, Position, RunsOutAt;
    WriteFrom(mem, n);
  }

  // ---------------------------------------------------------------- any sequence of them

  lemma RefusalPerformed(fs: SfsFs, dv: SfsVnode, files: seq<SfsVnode>, op: Op)
    requires Serving(fs, dv, files) && !Askable(Now(fs, files), op)
    ensures Performed(Now(fs, files), op, Refused, Now(fs, files))
  {
    hide Serving, Settled, Sensible, Askable, Seen;
    ServingSettled(fs, dv, files);
    SettledSensible(fs.State(), fs.live, Numbers(files));
  }

  /** One operation: what programs see afterwards, and what they are told, is what the operation is for.
      Requests for files that are not open are refused. */
  method Perform(fs: SfsFs, dv: SfsVnode, files: seq<SfsVnode>, op: Op) returns (files': seq<SfsVnode>, answer: Answer)
    requires Serving(fs, dv, files)
    modifies fs, fs.freemap.v, fs.table.Values
    ensures Serving(fs, dv, files') && Grew(fs)
    ensures Performed(old(Now(fs, files)), op, answer, Now(fs, files'))
    ensures answer.Answer? && !op.Get? ==> Decided(old(fs.State()), Numbers(files), op, answer)
  {
    hide Serving, Seen, Performed, Decided, Sensible;
    files', answer := files, Done(Ok);
    OpenNow(fs, files);
    if (op.Close? || op.Hardlink? || op.Get? || op.Put? || op.Shorten?) && op.h >= |files| {
      RefusalPerformed(fs, dv, files, op);
      answer := Refused;
      return;
    }
    if (op.Get? && op.n >= SIZE_T_LIMIT) || (op.Put? && |op.data| >= SIZE_T_LIMIT) {
      RefusalPerformed(fs, dv, files, op);
      answer := Refused;
      return;
    }
    match op {
      case Open(_, _, _) => files', answer := OpenFile(fs, dv, files, op);
      case Close(h) => files' := CloseFile(fs, dv, files, h);
      case Hardlink(_, _) => answer := LinkFile(fs, dv, files, op);
      case Delete(_, _) => answer := DeleteFile(fs, dv, files, op);
      case Move(_, _, _) => answer := MoveFile(fs, dv, files, op);
      case Get(h, pos, n) => answer := ReadFile(fs, dv, files, h, pos, n);
      case Put(_, _, _) => answer := WriteFile(fs, dv, files, op);
      case Shorten(h, len) => TruncateFile(fs, dv, files, h, len);
      case Flush => SyncFiles(fs, dv, files);
    }
  }

  lemma OneMore(a: Files, ops: seq<Op>, answers: seq<Answer>, k: nat, b: Files, r: Answer, c: Files)
    requires k < |ops| && |answers| == k && Outcome(a, ops[..k], answers) == Some(b) && Performed(b, ops[k], r, c)
    ensures Outcome(a, ops[..k + 1], answers + [r]) == Some(c)
  {
    hide Possible, After;
    assert ops[..k + 1][..k] == ops[..k] && (answers + [r])[..k] == answers;
  }

  /** Any sequence of operations does to what programs see what its operations are for, one after the
      other. After it, as before, the volume is consistent, names and link counts agree, and exactly the
      root directory and the open files are in memory, each with as many references as it has been opened. */
  method Serve(fs: SfsFs, dv: SfsVnode, files: seq<SfsVnode>, ops: seq<Op>) returns (files': seq<SfsVnode>, answers: seq<Answer>)
    requires Serving(fs, dv, files)
    modifies fs, fs.freemap.v, fs.table.Values
    ensures Serving(fs, dv, files') && Grew(fs)
    ensures |answers| == |ops| && Outcome(old(Now(fs, files)), ops, answers) == Some(Now(fs, files'))
  {
    hide Serving, Seen, Performed, Outcome;
    files', answers := files, [];
    ghost var a := Now(fs, files);
    NoOperations(a);
    for k := 0 to |ops|
      invariant Serving(fs, dv, files') && Grew(fs)
      invariant |answers| == k && Outcome(a, ops[..k], answers) == Some(Now(fs, files'))
    {
      ghost var b := Now(fs, files');
      var answer;
      files', answer := Perform(fs, dv, files', ops[k]);
      OneMore(a, ops, answers, k, b, answer, Now(fs, files'));
      answers := answers + [answer];
    }
    assert ops[..|ops|] == ops;
  }

  lemma NoOperations(a: Files)
    ensures Outcome(a, [], []) == Some(a)
  {
  }

  /** So it is for a volume that was empty when it was mounted; and then every file has a name or is open. */
  method Session(disk: seq<Block>, ops: seq<Op>, memory: bool)
    returns (e: Errno, fs: SfsFs?, dv: SfsVnode?, files: seq<SfsVnode>, answers: seq<Answer>)
    requires IsEmptyVolume(disk)
    ensures e == if memory then Ok else ENOMEM
    ensures e == Ok ==>
              && fs != null && dv != null && Serving(fs, dv, files)
              && |answers| == |ops| && Outcome(Files(map[], map[], []), ops, answers) == Some(Now(fs, files))
              && NoneLost(Now(fs, files))
  {
    hide IsEmptyVolume, Ordered, Names, Outcome, NoneLost, Sensible;
    files, answers := [], [];
    e, fs, dv := MountEmpty(disk, BLOCKSIZE, memory, memory, memory);
    if e == Ok {
      Tabled(fs, dv);
      ghost var a := Now(fs, files);
      assert a == Files(map[], map[], []);
      NothingLost();
      files, answers := Serve(fs, dv, files, ops);
      OutcomeSensible(a, ops, answers);
    }
  }

  lemma NothingLost()
    ensures Sensible(Files(map[], map[], [])) && NoneLost(Files(map[], map[], []))
  {
  }
}
