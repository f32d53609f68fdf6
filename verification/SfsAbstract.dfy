/** What programs see of a volume: names, files as bytes, and the files they have open; and what each
    operation makes of it (sfs_vnops.c:97-129, 249-512). */
module SfsAbstract {
  import opened Lib
  import opened SfsLayout
  import opened SfsFiles
  import opened SfsNames
  import opened SfsVolume
  import opened SfsBmap
  import opened SfsIo

  /** A file's size, and the bytes that it has whatever its size. */
  datatype File = File(size: nat, bytes: seq<Byte>)

  /** The inode number of each name, the files by inode number, and those that are open, by handle. */
  datatype Files = Files(names: map<Name, nat>, files: map<nat, File>, open: seq<nat>)

  /** What a program can ask for; h is the number of an open file. Where memory is asked for, it may
      run out. */
  datatype Op =
    | Open(name: Name, excl: bool, memory: bool)
    | Close(h: nat)
    | Hardlink(h: nat, name: Name)
    | Delete(name: Name, memory: bool)
    | Move(n1: Name, n2: Name, memory: bool)
    | Get(h: nat, pos: nat, n: nat)
    | Put(h: nat, pos: nat, data: seq<Byte>)
    | Shorten(h: nat, len: nat)
    | Flush

  /** What it is told: the inode number of a file that it opens, how many bytes were written, or what
      was read. */
  datatype Answer =
    | Refused
    | Answer(e: Errno, ino: nat, n: nat, data: seq<Byte>)

  function Done(e: Errno): Answer {
    Answer(e, 0, 0, [])
  }

  function ByteAt(f: File, p: nat): Byte {
    if p < |f.bytes| then f.bytes[p] else 0
  }

  function EmptyFile(): File {
    File(0, seq(MAXFILEBYTES, _ => 0))
  }

  function Without<T>(q: seq<T>, h: nat): seq<T>
    requires h < |q|
  {
    q[..h] + q[h + 1..]
  }

  predicate Wanted(a: Files, ino: nat) {
    ino in a.names.Values || ino in a.open
  }

  /** A file that no name leads to and nobody has open is gone. */
  function Forget(a: Files, ino: nat): Files {
    if Wanted(a, ino) then a else a.(files := a.files - {ino})
  }

  /** A file after a write that ended at offset end. */
  function Overwritten(f: File, pos: nat, data: seq<Byte>, end: nat): File {
    File(if data != [] && end > f.size then end % WORD_LIMIT else f.size,
         seq(|f.bytes|, p requires 0 <= p < |f.bytes| => if pos <= p < pos + |data| then data[p - pos] else f.bytes[p]))
  }

  /** A file after a truncation. */
  function CutTo(f: File, len: nat): File {
    File(len % WORD_LIMIT,
         seq(|f.bytes|, p requires 0 <= p < |f.bytes| => if Cut(BlockLength(len), p / BLOCKSIZE) then 0 else f.bytes[p]))
  }

  // ---------------------------------------------------------------- the answers there can be

  /** Only files that exist have names or are open. */
  predicate Sensible(a: Files) {
    && (forall name :: name in a.names ==> a.names[name] in a.files)
    && (forall h :: 0 <= h < |a.open| ==> a.open[h] in a.files)
    && (forall ino :: ino in a.files ==> |a.files[ino].bytes| == MAXFILEBYTES)
  }

  predicate IsHandle(a: Files, op: Op) {
    op.Close? || op.Hardlink? || op.Get? || op.Put? || op.Shorten? ==> op.h < |a.open|
  }

  /** Requests that cannot be made: of files that are not open, or with more bytes than can be counted. */
  predicate Askable(a: Files, op: Op) {
    && IsHandle(a, op)
    && (op.Get? ==> op.n < WORD_LIMIT) && (op.Put? ==> |op.data| < WORD_LIMIT)
  }

  /** Adding a name; whether there is room for it depends on the volume. */
  predicate Entering(a: Files, name: Name, e: Errno) {
    if name in a.names then e == EEXIST
    else if |name| >= NAMELEN then e == ENAMETOOLONG
    else e == Ok || e == EFBIG || e == ENOSPC
  }

  /** Looking up a name; a file that is not open has to be loaded. */
  function Finding(a: Files, name: Name, memory: bool): Errno {
    if name !in a.names then ENOENT
    else if a.names[name] !in a.open && !memory then ENOMEM
    else Ok
  }

  predicate Creating(a: Files, name: Name, memory: bool, r: Answer)
    requires r.Answer?
  {
    && (r.e == ENOSPC || (if memory then Entering(a, name, r.e) else r.e == ENOMEM))
    && (r.e == Ok ==> r.ino !in a.files)
  }

  predicate Reading(f: File, pos: nat, n: nat, r: Answer)
    requires r.Answer?
  {
    var want := Readable(f.size, pos, n);
    && |r.data| <= want && (r.data != [] ==> pos + |r.data| <= MAXFILEBYTES)
    && (forall i :: 0 <= i < |r.data| ==> r.data[i] == ByteAt(f, pos + i))
    && (r.e == Ok || (r.e == EFBIG && pos < f.size && pos + |r.data| >= MAXFILEBYTES))
    && (want > 0 ==> (r.e == Ok <==> pos + want <= MAXFILEBYTES)) && (r.e == Ok ==> |r.data| == want)
  }

  predicate Writing(pos: nat, data: seq<Byte>, r: Answer)
    requires r.Answer?
  {
    && r.n <= |data| && (r.n > 0 ==> Position(pos) + r.n <= MAXFILEBYTES)
    && (r.e == Ok || r.e == ENOSPC || (r.e == EFBIG && Position(pos) + r.n >= MAXFILEBYTES))
    && (r.e == Ok ==> r.n == |data|)
  }

  /** Which answers an operation can get. */
  predicate Possible(a: Files, op: Op, r: Answer) {
    && Sensible(a)
    && if !Askable(a, op) || r.Refused? then !Askable(a, op) && r.Refused?
       else
         match op
         case Open(name, excl, memory) =>
           if name !in a.names then Creating(a, name, memory, r)
           else if excl then r.e == EEXIST
           else r.e == Finding(a, name, memory)
         case Delete(name, memory) => r.e == Finding(a, name, memory)
         case Hardlink(_, name) => Entering(a, name, r.e)
         case Move(n1, n2, memory) =>
           if Finding(a, n1, memory) == Ok then Entering(a, n2, r.e) else r.e == Finding(a, n1, memory)
         case Get(h, pos, n) => Reading(a.files[a.open[h]], pos, n, r)
         case Put(_, pos, data) => Writing(pos, data, r)
         case _ => r.e == Ok
  }

  // ---------------------------------------------------------------- what they do

  function Rewritten(a: Files, h: nat, f: File): Files
    requires h < |a.open|
  {
    a.(files := a.files[a.open[h] := f])
  }

  /** What an operation makes of the volume when it succeeds. */
  function Success(a: Files, op: Op, r: Answer): Files
    requires Possible(a, op, r) && !r.Refused? && (r.e == Ok || op.Put?)
  {
    match op
    case Open(name, _, _) =>
      if name in a.names then a.(open := a.open + [a.names[name]])
      else Files(a.names[name := r.ino], a.files[r.ino := EmptyFile()], a.open + [r.ino])
    case Close(h) => Forget(a.(open := Without(a.open, h)), a.open[h])
    case Hardlink(h, name) => a.(names := a.names[name := a.open[h]])
    case Delete(name, _) => Forget(a.(names := a.names - {name}), a.names[name])
    case Move(n1, n2, _) => a.(names := a.names[n2 := a.names[n1]] - {n1})
    case Put(h, pos, data) => Rewritten(a, h, Overwritten(a.files[a.open[h]], Position(pos), data[..r.n], pos + r.n))
    case Shorten(h, len) => Rewritten(a, h, CutTo(a.files[a.open[h]], len))
    case Get(_, _, _) | Flush => a
  }

  /** An operation that fails changes nothing, but a write may have written something. */
  function After(a: Files, op: Op, r: Answer): Files
    requires Possible(a, op, r)
  {
    if r.Refused? || (r.e != Ok && !op.Put?) then a else Success(a, op, r)
  }

  /** One operation, with its answer. */
  predicate Performed(a: Files, op: Op, r: Answer, b: Files) {
    Possible(a, op, r) && b == After(a, op, r)
  }

  /** What a sequence of operations makes of it, given their answers; nothing if one of these cannot be. */
  function Outcome(a: Files, ops: seq<Op>, answers: seq<Answer>): Option<Files>
    requires |ops| == |answers|
    decreases |ops|
  {
    if ops == [] then Some(a)
    else
      var last := |ops| - 1;
      match Outcome(a, ops[..last], answers[..last])
      case None => None
      case Some(b) => if Possible(b, ops[last], answers[last]) then Some(After(b, ops[last], answers[last])) else None
  }

  // ---------------------------------------------------------------- what can be relied on

  /** Every file has a name or is open. */
  predicate NoneLost(a: Files) {
    forall ino :: ino in a.files ==> Wanted(a, ino)
  }

  lemma StillWanted(a: Files, b: Files, ino: nat)
    requires Wanted(a, ino)
    requires forall name :: name in a.names && a.names[name] == ino ==> ino in b.names.Values
    requires ino in a.open ==> ino in b.open
    ensures Wanted(b, ino)
  {
    if ino in a.names.Values {
      var name :| name in a.names && a.names[name] == ino;
    }
  }

  lemma ForgottenRest(a: Files, b: Files, ino: nat)
    requires Sensible(b) && b.files.Keys == a.files.Keys
    requires NoneLost(a) ==> forall i :: i in a.files && i != ino ==> Wanted(b, i)
    ensures Sensible(Forget(b, ino)) && (NoneLost(a) ==> NoneLost(Forget(b, ino)))
  {
  }

  lemma DeletedSensible(a: Files, name: Name)
    requires Sensible(a) && name in a.names
    ensures var b := Forget(a.(names := a.names - {name}), a.names[name]);
            Sensible(b) && (NoneLost(a) ==> NoneLost(b))
  {
    hide Forget, Wanted;
    var b, ino := a.(names := a.names - {name}), a.names[name];
    if NoneLost(a) {
      forall i | i in a.files && i != ino
        ensures Wanted(b, i)
      {
        assert forall n :: n in a.names && a.names[n] == i ==> n in b.names && b.names[n] == i;
        StillWanted(a, b, i);
      }
    }
    ForgottenRest(a, b, ino);
  }

  lemma ClosedSensible(a: Files, h: nat)
    requires Sensible(a) && h < |a.open|
    ensures var b := Forget(a.(open := Without(a.open, h)), a.open[h]);
            Sensible(b) && (NoneLost(a) ==> NoneLost(b))
  {
    hide Forget, Wanted, Without;
    var b, ino := a.(open := Without(a.open, h)), a.open[h];
    WithoutKeeps(a.open, h);
    if NoneLost(a) {
      forall i | i in a.files && i != ino
        ensures Wanted(b, i)
      {
        StillWanted(a, b, i);
      }
    }
    ForgottenRest(a, b, ino);
  }

  lemma WithoutKeeps<T>(q: seq<T>, h: nat)
    requires h < |q|
    ensures forall k :: 0 <= k < |Without(q, h)| ==> Without(q, h)[k] in q
    ensures forall x :: x in q && x != q[h] ==> x in Without(q, h)
  {
    assert q == q[..h] + [q[h]] + q[h + 1..];
  }

  lemma MovedSensible(a: Files, n1: Name, n2: Name)
    requires Sensible(a) && n1 in a.names && n2 !in a.names
    ensures var b := a.(names := a.names[n2 := a.names[n1]] - {n1});
            Sensible(b) && (NoneLost(a) ==> NoneLost(b))
  {
    hide Wanted;
    var b := a.(names := a.names[n2 := a.names[n1]] - {n1});
    if NoneLost(a) {
      forall i | i in a.files
        ensures Wanted(b, i)
      {
        assert forall n :: n in a.names && a.names[n] == i ==> var m := if n == n1 then n2 else n; m in b.names && b.names[m] == i;
        StillWanted(a, b, i);
      }
    }
  }

  lemma NamedIsWanted(a: Files, name: Name)
    requires name in a.names
    ensures Wanted(a, a.names[name])
  {
  }

  lemma NamedSensible(a: Files, b: Files, name: Name, ino: nat)
    requires Sensible(a) && name !in a.names && b.names == a.names[name := ino]
    requires (b.files == a.files && ino in a.files) || (b.files == a.files[ino := EmptyFile()])
    requires (forall i :: i in a.open ==> i in b.open) && forall h :: 0 <= h < |b.open| ==> b.open[h] in a.open || b.open[h] == ino
    ensures Sensible(b) && (NoneLost(a) ==> NoneLost(b))
  {
    hide Wanted;
    if NoneLost(a) {
      forall i | i in b.files
        ensures Wanted(b, i)
      {
        assert forall n :: n in a.names && a.names[n] == i ==> n in b.names && b.names[n] == i;
        assert name in b.names && b.names[name] == ino;
        if i != ino { StillWanted(a, b, i); } else { NamedIsWanted(b, name); }
      }
    }
  }

  lemma SuccessSensible(a: Files, op: Op, r: Answer)
    requires Possible(a, op, r) && !r.Refused? && (r.e == Ok || op.Put?)
    ensures Sensible(Success(a, op, r)) && (NoneLost(a) ==> NoneLost(Success(a, op, r)))
  {
    match op
    case Open(name, _, _) => if name !in a.names { NamedSensible(a, Success(a, op, r), name, r.ino); }
    case Close(h) => ClosedSensible(a, h);
    case Hardlink(h, name) => NamedSensible(a, Success(a, op, r), name, a.open[h]);
    case Delete(name, _) => DeletedSensible(a, name);
    case Move(n1, n2, _) => MovedSensible(a, n1, n2);
    case _ =>
  }

  lemma AfterSensible(a: Files, op: Op, r: Answer)
    requires Possible(a, op, r)
    ensures Sensible(After(a, op, r)) && (NoneLost(a) ==> NoneLost(After(a, op, r)))
  {
    hide Success, Sensible, NoneLost;
    if !r.Refused? && (r.e == Ok || op.Put?) {
      SuccessSensible(a, op, r);
    }
  }

  /** Whatever is done, no file is left over: each has a name or is open. */
  lemma {:induction false} OutcomeSensible(a: Files, ops: seq<Op>, answers: seq<Answer>)
    requires |ops| == |answers| && Sensible(a) && NoneLost(a) && Outcome(a, ops, answers).Some?
    ensures Sensible(Outcome(a, ops, answers).value) && NoneLost(Outcome(a, ops, answers).value)
  {
    hide Sensible, NoneLost, Possible, After;
    if ops != [] {
      var last := |ops| - 1;
      OutcomeSensible(a, ops[..last], answers[..last]);
      AfterSensible(Outcome(a, ops[..last], answers[..last]).value, ops[last], answers[last]);
    }
  }

  /** What has been written is read, by whoever has the file open under any handle. */
  lemma ReadAfterWrite(a: Files, h: nat, g: nat, pos: nat, data: seq<Byte>, r: Answer, q: Answer)
    requires Possible(a, Put(h, pos, data), r) && r.Answer? && r.e == Ok && pos < POSITION_LIMIT
    requires Possible(After(a, Put(h, pos, data), r), Get(g, pos, |data|), q) && q.Answer? && a.open[g] == a.open[h]
    ensures q.data == data && (data != [] ==> q.e == Ok)
  {
  }

  /** Asked for all of a file, a read returns all of it, up to the last byte that a file can map. */
  lemma ReadAll(a: Files, h: nat, n: nat, r: Answer)
    requires Possible(a, Get(h, 0, n), r) && r.Answer? && n >= a.files[a.open[h]].size > 0
    ensures var f := a.files[a.open[h]];
            if f.size <= MAXFILEBYTES then r.e == Ok && r.data == f.bytes[..f.size]
            else r.e == EFBIG && r.data == f.bytes
  {
    var f := a.files[a.open[h]];
    if r.e == Ok {
      assert r.data == f.bytes[..f.size];
    } else {
      assert |r.data| >= MAXFILEBYTES;
    }
  }

  /** What a successful write makes of the size of a file, and of the bytes that it does not write. */
  lemma WriteGrows(a: Files, h: nat, pos: nat, data: seq<Byte>, r: Answer)
    requires Possible(a, Put(h, pos, data), r) && r.Answer? && r.e == Ok && data != [] && pos < POSITION_LIMIT
    ensures var f, g := a.files[a.open[h]], After(a, Put(h, pos, data), r).files[a.open[h]];
            && g.size == Max(f.size, pos + |data|)
            && g.bytes[pos..pos + |data|] == data && g.bytes[..pos] == f.bytes[..pos]
            && g.bytes[pos + |data|..] == f.bytes[pos + |data|..]
  {
    hide Position, Cut, BlockLength, Forget;
    SmallPosition(pos);
    assert data[..r.n] == data;
    Replaced(a.files[a.open[h]], pos, data);
  }

  lemma Replaced(f: File, pos: nat, data: seq<Byte>)
    requires pos + |data| <= |f.bytes| < WORD_LIMIT && data != []
    ensures var g := Overwritten(f, pos, data, pos + |data|);
            && g.size == Max(f.size, pos + |data|) && |g.bytes| == |f.bytes|
            && g.bytes[pos..pos + |data|] == data && g.bytes[..pos] == f.bytes[..pos]
            && g.bytes[pos + |data|..] == f.bytes[pos + |data|..]
  {
  }
}
