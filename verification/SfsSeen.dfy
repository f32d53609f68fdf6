/** A volume as programs see it: what the steps of the file system look like in names, bytes and open
    files. */
module SfsSeen {
  import opened Lib
  import opened SfsLayout
  import opened SfsState
  import opened SfsFiles
  import opened SfsNames
  import opened SfsVolume
  import opened SfsBalloc
  import opened SfsBmap
  import opened SfsSpace
  import opened SfsIo
  import opened SfsDir
  import opened SfsVnops
  import opened SfsAbstract

  ghost function FileOf(v: View, ino: nat): File {
    File(InodeOf(v, ino).size, Contents(v, ino, 0, MAXFILEBYTES))
  }

  /** All that programs can see of a volume on which they have some files open. */
  ghost function Seen(v: View, live: set<nat>, open: seq<nat>): Files {
    Files(Names(v), map ino | ino in live && ino != ROOTDIR_INO :: FileOf(v, ino), open)
  }

  /** No byte is left out. */
  lemma BytesSeen(v: View, ino: nat, p: nat)
    ensures ByteAt(FileOf(v, ino), p) == Raw(v, ino, p)
  {
    hide InodeOf;
    if p >= MAXFILEBYTES {
      assert Slot(v, ino, p / BLOCKSIZE) == 0;
    }
  }

  lemma SameBytesSeen(v: View, w: View, ino: nat)
    requires SameBytes(v, w, ino)
    ensures FileOf(w, ino) == FileOf(v, ino)
  {
    hide FileBlock, InodeOf;
    assert Contents(w, ino, 0, MAXFILEBYTES) == Contents(v, ino, 0, MAXFILEBYTES);
  }

  lemma SameSeen(v: View, w: View, live: set<nat>, open: seq<nat>)
    requires Names(w) == Names(v) && SameFiles(v, w, live)
    ensures Seen(w, live, open) == Seen(v, live, open)
  {
    hide FileBlock, InodeOf, Names, FileOf;
    forall ino | ino in live
      ensures FileOf(w, ino) == FileOf(v, ino)
    {
      assert SameFile(v, w, ino);
      SameBytesSeen(v, w, ino);
    }
  }

  /** Only names have changed, and with them link counts, which programs see as names. */
  lemma NamesSeen(v: View, w: View, live: set<nat>, ino: nat)
    requires OnlyNamesChanged(v, w, live, ino)
    ensures forall i :: i in live && i != ROOTDIR_INO ==> FileOf(w, i) == FileOf(v, i)
  {
    hide FileBlock, InodeOf, FileOf;
    forall i | i in live && i != ROOTDIR_INO
      ensures FileOf(w, i) == FileOf(v, i)
    {
      assert i != ino ==> SameFile(v, w, i);
      SameBytesSeen(v, w, i);
    }
  }

  lemma CreatedSeen(v: View, w: View, live: set<nat>, open: seq<nat>, name: Name, ino: nat)
    requires OnlyNamesChanged(v, w, live, ino) && ino !in live && ino != ROOTDIR_INO
    requires Names(w) == Names(v)[name := ino]
    requires InodeOf(w, ino).size == 0 && forall p: nat :: Raw(w, ino, p) == 0
    ensures var a := Seen(v, live, open);
            Seen(w, live + {ino}, open + [ino]) == Files(a.names[name := ino], a.files[ino := EmptyFile()], open + [ino])
  {
    hide FileOf, Names, OnlyNamesChanged, Raw, InodeOf;
    NamesSeen(v, w, live, ino);
    assert FileOf(w, ino) == EmptyFile() by {
      NothingSeen(w, ino);
    }
  }

  lemma NothingSeen(v: View, ino: nat)
    requires InodeOf(v, ino).size == 0 && forall p: nat :: Raw(v, ino, p) == 0
    ensures FileOf(v, ino) == EmptyFile()
  {
    hide Raw, InodeOf;
    assert Contents(v, ino, 0, MAXFILEBYTES) == EmptyFile().bytes;
  }

  /** A file has links exactly if a name leads to it. */
  lemma LinkedMeansNamed(v: View, live: set<nat>, ino: nat)
    requires NameSpace(v, live) && ino in live && ino != ROOTDIR_INO && NOINO !in live
    ensures InodeOf(v, ino).links > 0 <==> ino in Names(v).Values
  {
    hide InodeOf, Links, Dir;
    LinksBounds(Dir(v), ino);
    if ino in Names(v).Values {
      var name :| name in Names(v) && Names(v)[name] == ino;
      assert exists s :: Used(Dir(v), s) && Dir(v)[s].name == name;
    }
    if s :| 0 <= s < |Dir(v)| && Dir(v)[s].ino == ino {
      assert Used(Dir(v), s);
      assert Dir(v)[s].name in Names(v);
    }
  }

  /** Names lead to files. */
  lemma NamesLead(v: View, live: set<nat>)
    requires NameSpace(v, live)
    ensures forall name :: name in Names(v) ==> Names(v)[name] in live && Names(v)[name] != ROOTDIR_INO
  {
    hide InodeOf, Links, Dir;
    forall name | name in Names(v)
      ensures Names(v)[name] in live && Names(v)[name] != ROOTDIR_INO
    {
      var s :| Used(Dir(v), s) && Dir(v)[s].name == name;
      assert Names(v)[name] == Dir(v)[s].ino;
    }
  }

  lemma SeenSensible(v: View, live: set<nat>, open: seq<nat>)
    requires NameSpace(v, live) && forall h :: 0 <= h < |open| ==> open[h] in live && open[h] != ROOTDIR_INO
    ensures Sensible(Seen(v, live, open))
  {
    hide NameSpace, Names, Contents;
    NamesLead(v, live);
  }

  lemma LinkedSeen(v: View, w: View, live: set<nat>, open: seq<nat>, ino: nat)
    requires OnlyNamesChanged(v, w, live, ino)
    ensures Seen(w, live, open) == Seen(v, live, open).(names := Names(w))
  {
    hide FileOf, Names, OnlyNamesChanged;
    NamesSeen(v, w, live, ino);
  }

  lemma MovedSeen(v: View, w: View, live: set<nat>, open: seq<nat>)
    requires forall i :: i in live && i != ROOTDIR_INO ==> SameFile(v, w, i)
    ensures Seen(w, live, open) == Seen(v, live, open).(names := Names(w))
  {
    hide FileOf, Names, InodeOf, FileBlock;
    forall i | i in live && i != ROOTDIR_INO
      ensures FileOf(w, i) == FileOf(v, i)
    {
      assert SameFile(v, w, i);
      SameBytesSeen(v, w, i);
    }
  }

  /** A file has gone if and only if nobody wants it any more. */
  lemma ForgottenSeen(v: View, w: View, live: set<nat>, live': set<nat>, open: seq<nat>, ino: nat)
    requires forall i :: i in live' && i != ROOTDIR_INO ==> FileOf(w, i) == FileOf(v, i)
    requires live' == (if ino in Names(w).Values || ino in open then live else live - {ino})
    ensures Seen(w, live', open) == Forget(Seen(v, live, open).(names := Names(w)), ino)
  {
    hide FileOf, Names;
  }

  lemma ReleasedSeen(v: View, w: View, live: set<nat>, live': set<nat>, open: seq<nat>, ino: nat, last: bool)
    requires NameSpace(v, live) && NOINO !in live && ino in live && ino != ROOTDIR_INO
    requires Names(w) == Names(v) && SameFiles(v, w, live') && (last <==> ino !in open)
    requires live' == if last && InodeOf(v, ino).links == 0 then live - {ino} else live
    ensures Seen(w, live', open) == Forget(Seen(v, live, open), ino)
  {
    hide FileOf, Names, NameSpace, InodeOf, FileBlock;
    LinkedMeansNamed(v, live, ino);
    forall i | i in live' && i != ROOTDIR_INO
      ensures FileOf(w, i) == FileOf(v, i)
    {
      assert SameFile(v, w, i);
      SameBytesSeen(v, w, i);
    }
    ForgottenSeen(v, w, live, live', open, ino);
  }

  lemma DeletedSeen(v: View, w: View, live: set<nat>, live': set<nat>, open: seq<nat>, name: Name, inTable: bool)
    requires NameSpace(v, live) && NameSpace(w, live') && NOINO !in live && name in Names(v)
    requires Names(w) == Names(v) - {name} && OnlyNamesChanged(v, w, live', Names(v)[name])
    requires inTable <==> Names(v)[name] in open
    requires live' == if InodeOf(v, Names(v)[name]).links == 1 && !inTable then live - {Names(v)[name]} else live
    requires Names(v)[name] in live' ==> InodeOf(w, Names(v)[name]).links + 1 == InodeOf(v, Names(v)[name]).links
    ensures Seen(w, live', open) == Forget(Seen(v, live, open).(names := Names(v) - {name}), Names(v)[name])
  {
    hide FileOf, Names, NameSpace, InodeOf, OnlyNamesChanged;
    var ino := Names(v)[name];
    NamesLead(v, live);
    NamesLead(w, live');
    LinkedMeansNamed(v, live, ino);
    if ino in live' {
      LinkedMeansNamed(w, live', ino);
    }
    NamesSeen(v, w, live', ino);
    ForgottenSeen(v, w, live, live', open, ino);
  }

  lemma WrittenSeen(v: View, w: View, live: set<nat>, open: seq<nat>, h: nat, pos: nat, data: seq<Byte>, end: nat)
    requires h < |open| && open[h] in live && open[h] != ROOTDIR_INO && Names(w) == Names(v)
    requires var size := InodeOf(v, open[h]).size;
             FileExtended(v, w, live, open[h], pos, data, if |data| > 0 && end > size then end % WORD_LIMIT else size)
    ensures Seen(w, live, open) == Rewritten(Seen(v, live, open), h, Overwritten(FileOf(v, open[h]), pos, data, end))
  {
    hide Names, FileBlock, InodeOf, Raw;
    var ino := open[h];
    assert FileOf(w, ino) == Overwritten(FileOf(v, ino), pos, data, end) by {
      assert FileOf(w, ino).bytes == Overwritten(FileOf(v, ino), pos, data, end).bytes;
    }
    OthersSeen(v, w, live, ino);
  }

  lemma OthersSeen(v: View, w: View, live: set<nat>, ino: nat)
    requires forall i :: i in live && i != ino ==> SameFile(v, w, i)
    ensures forall i :: i in live && i != ino ==> FileOf(w, i) == FileOf(v, i)
  {
    hide FileOf, InodeOf, FileBlock;
    forall i | i in live && i != ino
      ensures FileOf(w, i) == FileOf(v, i)
    {
      assert SameFile(v, w, i);
      SameBytesSeen(v, w, i);
    }
  }

  lemma ShortenedSeen(v: View, w: View, live: set<nat>, open: seq<nat>, h: nat, len: nat)
    requires h < |open| && open[h] in live && open[h] != ROOTDIR_INO && Names(w) == Names(v)
    requires forall i :: i in live && i != open[h] ==> SameFile(v, w, i)
    requires InodeOf(w, open[h]).size == len % WORD_LIMIT
    requires forall p: nat :: Raw(w, open[h], p) == if Cut(BlockLength(len), p / BLOCKSIZE) then 0 else Raw(v, open[h], p)
    ensures Seen(w, live, open) == Rewritten(Seen(v, live, open), h, CutTo(FileOf(v, open[h]), len))
  {
    hide Names, FileBlock, InodeOf, Raw, Cut, BlockLength;
    var ino := open[h];
    assert FileOf(w, ino) == CutTo(FileOf(v, ino), len) by {
      assert FileOf(w, ino).bytes == CutTo(FileOf(v, ino), len).bytes;
    }
    OthersSeen(v, w, live, ino);
  }

  // ---------------------------------------------------------------- operation by operation

  /** What can be said of a volume while files are open on it. */
  ghost predicate Settled(v: View, live: set<nat>, open: seq<nat>) {
    && NameSpace(v, live) && NOINO !in live
    && (forall h :: 0 <= h < |open| ==> open[h] in live && open[h] != ROOTDIR_INO)
    && (forall i :: i in v.loaded <==> i == ROOTDIR_INO || i in open)
  }

  /** What each operation comes to, as the volume decides it. */
  ghost function Verdict(v: View, open: seq<nat>, op: Op): Errno
    requires op.Put? ==> op.h < |open|
  {
    match op
    case Open(name, excl, memory) =>
      if name !in Names(v) then CreateOutcome(v, name, memory) else if excl then EEXIST else LookOutcome(v, name, memory)
    case Hardlink(_, name) => EntryOutcome(v, name, |FreeBlocks(v)|)
    case Delete(name, memory) => LookOutcome(v, name, memory)
    case Move(n1, n2, memory) =>
      if LookOutcome(v, n1, memory) != Ok then LookOutcome(v, n1, memory) else EntryOutcome(v, n2, |FreeBlocks(v)|)
    case Put(h, pos, data) => WriteError(v, open[h], Position(pos), |data|)
    case _ => Ok
  }

  /** The answer carries that verdict. */
  ghost predicate Decided(v: View, open: seq<nat>, op: Op, r: Answer) {
    r.Answer? && (op.Put? ==> op.h < |open|) && r.e == Verdict(v, open, op)
  }

  lemma SettledSensible(v: View, live: set<nat>, open: seq<nat>)
    requires Settled(v, live, open)
    ensures Sensible(Seen(v, live, open))
  {
    hide NameSpace, Sensible, Seen;
    SeenSensible(v, live, open);
  }

  lemma EntryVerdict(v: View, live: set<nat>, open: seq<nat>, name: Name, free: nat)
    ensures Entering(Seen(v, live, open), name, EntryOutcome(v, name, free))
  {
    hide Names, Dir, EntryNeed, FileOf;
  }

  lemma LookVerdict(v: View, live: set<nat>, open: seq<nat>, name: Name, memory: bool)
    requires Settled(v, live, open)
    ensures Finding(Seen(v, live, open), name, memory) == LookOutcome(v, name, memory)
  {
    hide Names, NameSpace, FileOf;
    NamesLead(v, live);
  }

  lemma OpenFailed(v: View, w: View, live: set<nat>, open: seq<nat>, op: Op)
    requires Settled(v, live, open) && op.Open? && Verdict(v, open, op) != Ok
    requires Names(w) == Names(v) && SameFiles(v, w, live)
    ensures Performed(Seen(v, live, open), op, Done(Verdict(v, open, op)), Seen(w, live, open))
    ensures Decided(v, open, op, Done(Verdict(v, open, op)))
  {
    hide Settled, EntryOutcome, LookOutcome, Entering, Finding, Sensible, SameFiles, FileOf, Names, FreeBlocks;
    SettledSensible(v, live, open);
    LookVerdict(v, live, open, op.name, op.memory);
    if |FreeBlocks(v)| > 0 { EntryVerdict(v, live, open, op.name, |FreeBlocks(v)| - 1); }
    SameSeen(v, w, live, open);
  }

  lemma OpenedOld(v: View, w: View, live: set<nat>, open: seq<nat>, op: Op)
    requires Settled(v, live, open) && op.Open? && Verdict(v, open, op) == Ok && op.name in Names(v)
    requires Names(w) == Names(v) && SameFiles(v, w, live)
    ensures var ino := Names(v)[op.name];
            Performed(Seen(v, live, open), op, Answer(Ok, ino, 0, []), Seen(w, live, open + [ino]))
    ensures Decided(v, open, op, Answer(Ok, Names(v)[op.name], 0, []))
  {
    hide Settled, LookOutcome, Finding, Sensible, SameFiles, FileOf, Names;
    SettledSensible(v, live, open);
    LookVerdict(v, live, open, op.name, op.memory);
    SameSeen(v, w, live, open);
  }

  lemma OpenedNew(v: View, w: View, live: set<nat>, open: seq<nat>, op: Op, ino: nat)
    requires Settled(v, live, open) && op.Open? && Verdict(v, open, op) == Ok && op.name !in Names(v)
    requires OnlyNamesChanged(v, w, live, ino) && ino !in live && ino != ROOTDIR_INO
    requires Names(w) == Names(v)[op.name := ino]
    requires InodeOf(w, ino).size == 0 && forall p: nat :: Raw(w, ino, p) == 0
    ensures Performed(Seen(v, live, open), op, Answer(Ok, ino, 0, []), Seen(w, live + {ino}, open + [ino]))
    ensures Decided(v, open, op, Answer(Ok, ino, 0, []))
  {
    hide Settled, EntryOutcome, Entering, Sensible, OnlyNamesChanged, FileOf, Names, FreeBlocks, Raw, InodeOf;
    SettledSensible(v, live, open);
    EntryVerdict(v, live, open, op.name, |FreeBlocks(v)| - 1);
    CreatedSeen(v, w, live, open, op.name, ino);
  }

  /** What opening a file makes of a volume. */
  ghost predicate OpenOutcome(v: View, w: View, live: set<nat>, live': set<nat>, op: Op, e: Errno, ino: nat) {
    && op.Open? && e == Verdict(v, [], op)
    && if e == Ok && op.name !in Names(v) then
         && ino !in live && ino != ROOTDIR_INO && live' == live + {ino}
         && Names(w) == Names(v)[op.name := ino] && OnlyNamesChanged(v, w, live, ino)
         && InodeOf(w, ino).size == 0 && forall p: nat :: Raw(w, ino, p) == 0
       else
         live' == live && Names(w) == Names(v) && SameFiles(v, w, live) && (e == Ok ==> ino == Names(v)[op.name])
  }

  lemma OpenPerformed(v: View, w: View, live: set<nat>, live': set<nat>, open: seq<nat>, op: Op, e: Errno, ino: nat)
    requires Settled(v, live, open) && OpenOutcome(v, w, live, live', op, e, ino)
    ensures var r := if e == Ok then Answer(Ok, ino, 0, []) else Done(e);
            && Performed(Seen(v, live, open), op, r, Seen(w, live', if e == Ok then open + [ino] else open))
            && Decided(v, open, op, r)
  {
    hide Settled, CreateOutcome, LookOutcome, SameFiles, OnlyNamesChanged, Names, Raw, InodeOf, Performed, Seen;
    if e != Ok {
      OpenFailed(v, w, live, open, op);
    } else if op.name in Names(v) {
      OpenedOld(v, w, live, open, op);
    } else {
      OpenedNew(v, w, live, open, op, ino);
    }
  }

  lemma ClosePerformed(v: View, w: View, live: set<nat>, live': set<nat>, open: seq<nat>, h: nat, last: bool)
    requires Settled(v, live, open) && h < |open|
    requires Names(w) == Names(v) && SameFiles(v, w, live') && (last <==> open[h] !in Without(open, h))
    requires live' == if last && InodeOf(v, open[h]).links == 0 then live - {open[h]} else live
    ensures Performed(Seen(v, live, open), Close(h), Done(Ok), Seen(w, live', Without(open, h)))
    ensures Decided(v, open, Close(h), Done(Ok))
  {
    hide NameSpace, Sensible, SameFiles, FileOf, Names, InodeOf, Without, Forget;
    SettledSensible(v, live, open);
    ReleasedSeen(v, w, live, live', Without(open, h), open[h], last);
  }

  lemma NamesFailed(v: View, w: View, live: set<nat>, open: seq<nat>, op: Op)
    requires Settled(v, live, open) && (op.Delete? || op.Move? || (op.Hardlink? && op.h < |open|)) && Verdict(v, open, op) != Ok
    requires Names(w) == Names(v) && SameFiles(v, w, live)
    ensures Performed(Seen(v, live, open), op, Done(Verdict(v, open, op)), Seen(w, live, open))
    ensures Decided(v, open, op, Done(Verdict(v, open, op)))
  {
    hide Settled, EntryOutcome, LookOutcome, Entering, Finding, Sensible, SameFiles, FileOf, Names, FreeBlocks;
    SettledSensible(v, live, open);
    SameSeen(v, w, live, open);
    match op {
      case Hardlink(_, name) => EntryVerdict(v, live, open, name, |FreeBlocks(v)|);
      case Delete(name, memory) => LookVerdict(v, live, open, name, memory);
      case Move(n1, n2, memory) =>
        LookVerdict(v, live, open, n1, memory);
        EntryVerdict(v, live, open, n2, |FreeBlocks(v)|);
    }
  }

  lemma LinkPerformed(v: View, w: View, live: set<nat>, open: seq<nat>, op: Op)
    requires Settled(v, live, open) && op.Hardlink? && op.h < |open| && Verdict(v, open, op) == Ok
    requires Names(w) == Names(v)[op.name := open[op.h]] && OnlyNamesChanged(v, w, live, open[op.h])
    ensures Performed(Seen(v, live, open), op, Done(Ok), Seen(w, live, open))
    ensures Decided(v, open, op, Done(Ok))
  {
    hide Settled, EntryOutcome, Entering, Sensible, OnlyNamesChanged, FileOf, Names, FreeBlocks;
    SettledSensible(v, live, open);
    EntryVerdict(v, live, open, op.name, |FreeBlocks(v)|);
    LinkedSeen(v, w, live, open, open[op.h]);
  }

  lemma DeletePerformed(v: View, w: View, live: set<nat>, live': set<nat>, open: seq<nat>, op: Op)
    requires Settled(v, live, open) && op.Delete? && Verdict(v, open, op) == Ok && op.name in Names(v)
    requires var ino := Names(v)[op.name];
             && NameSpace(w, live') && Names(w) == Names(v) - {op.name} && OnlyNamesChanged(v, w, live', ino)
             && live' == (if InodeOf(v, ino).links == 1 && ino !in v.loaded then live - {ino} else live)
             && (ino in live' ==> InodeOf(w, ino).links + 1 == InodeOf(v, ino).links)
    ensures Performed(Seen(v, live, open), op, Done(Ok), Seen(w, live', open))
    ensures Decided(v, open, op, Done(Ok))
  {
    hide NameSpace, LookOutcome, Finding, Sensible, OnlyNamesChanged, FileOf, Names, InodeOf, Forget;
    var ino := Names(v)[op.name];
    SettledSensible(v, live, open);
    LookVerdict(v, live, open, op.name, op.memory);
    NamesLead(v, live);
    DeletedSeen(v, w, live, live', open, op.name, ino in open);
  }

  lemma MovePerformed(v: View, w: View, live: set<nat>, open: seq<nat>, op: Op)
    requires Settled(v, live, open) && op.Move? && Verdict(v, open, op) == Ok && op.n1 in Names(v)
    requires Names(w) == Names(v)[op.n2 := Names(v)[op.n1]] - {op.n1}
    requires forall i :: i in live && i != ROOTDIR_INO ==> SameFile(v, w, i)
    ensures Performed(Seen(v, live, open), op, Done(Ok), Seen(w, live, open))
    ensures Decided(v, open, op, Done(Ok))
  {
    hide Settled, EntryOutcome, LookOutcome, Entering, Finding, Sensible, SameFile, FileOf, Names, FreeBlocks;
    SettledSensible(v, live, open);
    LookVerdict(v, live, open, op.n1, op.memory);
    EntryVerdict(v, live, open, op.n2, |FreeBlocks(v)|);
    MovedSeen(v, w, live, open);
  }

  lemma ReadPerformed(v: View, live: set<nat>, open: seq<nat>, h: nat, pos: nat, n: nat, e: Errno, data: seq<Byte>)
    requires Settled(v, live, open) && h < |open| && n < WORD_LIMIT
    requires var size := InodeOf(v, open[h]).size; var want := Readable(size, pos, n);
             && |data| <= want && data == Contents(v, open[h], pos, |data|)
             && (want > 0 ==> (e == Ok <==> pos + want <= MAXFILEBYTES)) && (pos >= size ==> e == Ok)
             && (e == Ok ==> |data| == want) && (e != Ok ==> e == EFBIG && pos + |data| >= MAXFILEBYTES)
             && (data != [] ==> pos + |data| <= MAXFILEBYTES)
    ensures Performed(Seen(v, live, open), Get(h, pos, n), Answer(e, 0, 0, data), Seen(v, live, open))
  {
    hide NameSpace, Sensible, Names, InodeOf, Raw;
    SettledSensible(v, live, open);
    forall i | 0 <= i < |data|
      ensures data[i] == ByteAt(FileOf(v, open[h]), pos + i)
    {
      BytesSeen(v, open[h], pos + i);
    }
  }

  lemma WritePerformed(v: View, w: View, live: set<nat>, open: seq<nat>, h: nat, pos: nat, data: seq<Byte>, e: Errno, n: nat)
    requires Settled(v, live, open) && h < |open| && |data| < WORD_LIMIT && Names(w) == Names(v)
    requires n <= |data| && (n > 0 ==> Position(pos) + n <= MAXFILEBYTES) && (e == Ok ==> n == |data|)
    requires e == WriteError(v, open[h], Position(pos), |data|)
    requires e == Ok || e == ENOSPC || (e == EFBIG && Position(pos) + n >= MAXFILEBYTES)
    requires var size := InodeOf(v, open[h]).size;
             FileExtended(v, w, live, open[h], Position(pos), data[..n], if n > 0 && pos + n > size then (pos + n) % WORD_LIMIT else size)
    ensures Performed(Seen(v, live, open), Put(h, pos, data), Answer(e, 0, n, []), Seen(w, live, open))
    ensures Decided(v, open, Put(h, pos, data), Answer(e, 0, n, []))
  {
    hide Sensible, Names, InodeOf, Raw, FileExtended, NameSpace, FileOf, Overwritten, Position, WriteError;
    SettledSensible(v, live, open);
    WrittenSeen(v, w, live, open, h, Position(pos), data[..n], pos + n);
  }

  lemma ShortenPerformed(v: View, w: View, live: set<nat>, open: seq<nat>, h: nat, len: nat)
    requires Settled(v, live, open) && h < |open| && Names(w) == Names(v)
    requires forall i :: i in live && i != open[h] ==> SameFile(v, w, i)
    requires InodeOf(w, open[h]).size == len % WORD_LIMIT
    requires forall p: nat :: Raw(w, open[h], p) == if Cut(BlockLength(len), p / BLOCKSIZE) then 0 else Raw(v, open[h], p)
    ensures Performed(Seen(v, live, open), Shorten(h, len), Done(Ok), Seen(w, live, open))
    ensures Decided(v, open, Shorten(h, len), Done(Ok))
  {
    hide Sensible, Names, InodeOf, Raw, SameFile, NameSpace, FileOf, CutTo;
    SettledSensible(v, live, open);
    ShortenedSeen(v, w, live, open, h, len);
  }

  lemma FlushPerformed(v: View, w: View, live: set<nat>, open: seq<nat>)
    requires Settled(v, live, open) && Names(w) == Names(v) && SameFiles(v, w, live)
    ensures Performed(Seen(v, live, open), Flush, Done(Ok), Seen(w, live, open))
    ensures Decided(v, open, Flush, Done(Ok))
  {
    hide Settled, Sensible, SameFiles, FileOf, Names;
    SettledSensible(v, live, open);
    SameSeen(v, w, live, open);
  }
}
