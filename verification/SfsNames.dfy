/** The root directory as a sequence of entries, and the rules its names and the files' link
    counts obey (include/kern/sfs.h, sfs_dir.c). */
module SfsNames {
  import opened Lib
  import opened SfsLayout
  import opened SfsState
  import opened SfsFiles

  const NAMELEN: nat := 60
  const DIRENTSIZE: nat := 64
  const NOINO: nat := 0

  /** A C string without its terminator. */
  type Name = s: seq<Byte> | 0 !in s witness []

  datatype Dirent = Dirent(ino: nat, name: Name)

  /** The string that starts at the beginning of s and ends at the first zero byte or with s. */
  function CString(s: seq<Byte>): (r: Name)
    ensures |r| <= |s|
  {
    if s == [] || s[0] == 0 then [] else [s[0]] + CString(s[1..])
  }

  /** An entry as read: the last byte of the name counts as zero, whatever it is. */
  function DecodeDirent(b: seq<Byte>): Dirent
    requires |b| == DIRENTSIZE
  {
    Dirent(WordOfBytes(b[0], b[1], b[2], b[3]), CString(b[4..DIRENTSIZE - 1]))
  }

  /** An entry as written: the unused end of the name is zero. */
  function EncodeDirent(e: Dirent): (b: seq<Byte>)
    requires e.ino < WORD_LIMIT && |e.name| < NAMELEN
    ensures |b| == DIRENTSIZE
  {
    seq(4, i requires 0 <= i < 4 => ByteOfWord(e.ino, i)) + e.name + seq(NAMELEN - |e.name|, _ => 0)
  }

  lemma {:induction false} CStringOf(name: Name, pad: nat)
    ensures CString(name + seq(pad, _ => 0)) == name
  {
    var s := name + seq(pad, _ => 0);
    if name != [] {
      CStringOf(name[1..], pad);
      assert s[1..] == name[1..] + seq(pad, _ => 0);
      assert s[0] == name[0] && s[0] in name;
    }
  }

  /** An entry survives being written and read back. */
  lemma DirentRoundTrip(e: Dirent)
    requires e.ino < WORD_LIMIT && |e.name| < NAMELEN
    ensures DecodeDirent(EncodeDirent(e)) == e
  {
    var b := EncodeDirent(e);
    assert b[0] == ByteOfWord(e.ino, 0) && b[1] == ByteOfWord(e.ino, 1)
        && b[2] == ByteOfWord(e.ino, 2) && b[3] == ByteOfWord(e.ino, 3);
    WordBytesRoundTrip(e.ino);
    assert b[4..DIRENTSIZE - 1] == e.name + seq(NAMELEN - |e.name| - 1, _ => 0);
    CStringOf(e.name, NAMELEN - |e.name| - 1);
  }

  // ---------------------------------------------------------------- the directory

  ghost function EntryAt(v: View, slot: nat): Dirent {
    DecodeDirent(Contents(v, ROOTDIR_INO, slot * DIRENTSIZE, DIRENTSIZE))
  }

  /** The entries of the root directory, used and unused. */
  ghost function Dir(v: View): (d: seq<Dirent>)
    ensures |d| == InodeOf(v, ROOTDIR_INO).size / DIRENTSIZE
    ensures forall s :: 0 <= s < |d| ==> d[s] == EntryAt(v, s)
  {
    seq(InodeOf(v, ROOTDIR_INO).size / DIRENTSIZE, s requires 0 <= s => EntryAt(v, s))
  }

  /** The directory with one slot overwritten, or, at the end, one slot more. */
  function Put(d: seq<Dirent>, slot: nat, e: Dirent): seq<Dirent>
    requires slot <= |d|
  {
    if slot < |d| then d[slot := e] else d + [e]
  }

  predicate Used(d: seq<Dirent>, s: int) {
    0 <= s < |d| && d[s].ino != NOINO
  }

  /** Each name at most once. */
  ghost predicate UniqueNames(d: seq<Dirent>) {
    forall s, t :: Used(d, s) && Used(d, t) && s != t ==> d[s].name != d[t].name
  }

  /** What the directory means: names to inode numbers. */
  ghost function NamesOf(d: seq<Dirent>): (m: map<Name, nat>)
    requires UniqueNames(d)
    ensures forall s :: Used(d, s) ==> d[s].name in m && m[d[s].name] == d[s].ino
    ensures forall n :: n in m ==> exists s :: Used(d, s) && d[s].name == n
  {
    map s | 0 <= s < |d| && Used(d, s) :: d[s].name := d[s].ino
  }

  /** The files of a volume by name. */
  ghost function Names(v: View): map<Name, nat> {
    if UniqueNames(Dir(v)) then NamesOf(Dir(v)) else map[]
  }

  function Inos(d: seq<Dirent>): (r: seq<nat>)
    ensures |r| == |d| && forall s :: 0 <= s < |d| ==> r[s] == d[s].ino
  {
    seq(|d|, s requires 0 <= s < |d| => d[s].ino)
  }

  /** The number of entries for an inode. */
  ghost function Links(d: seq<Dirent>, ino: nat): nat {
    multiset(Inos(d))[ino]
  }

  lemma PutLinks(d: seq<Dirent>, slot: nat, e: Dirent, ino: nat)
    requires slot <= |d|
    ensures Links(Put(d, slot, e), ino) + (if slot < |d| && d[slot].ino == ino then 1 else 0)
         == Links(d, ino) + (if e.ino == ino then 1 else 0)
  {
    if slot < |d| {
      assert Inos(Put(d, slot, e)) == Inos(d)[slot := e.ino];
    } else {
      assert Inos(Put(d, slot, e)) == Inos(d) + [e.ino];
    }
  }

  lemma LinksBounds(d: seq<Dirent>, ino: nat)
    ensures Links(d, ino) <= |d|
    ensures Links(d, ino) > 0 <==> exists s :: 0 <= s < |d| && d[s].ino == ino
  {
    var r := Inos(d);
    assert |multiset(r)| == |r|;
    MultiplicityBound(r, ino);
    if Links(d, ino) > 0 {
      assert ino in r;
      var s :| 0 <= s < |r| && r[s] == ino;
      assert d[s].ino == ino;
    }
    if s :| 0 <= s < |d| && d[s].ino == ino {
      assert r[s] in multiset(r);
    }
  }

  lemma {:induction false} MultiplicityBound(r: seq<nat>, x: nat)
    ensures multiset(r)[x] <= |r|
  {
    if r != [] {
      MultiplicityBound(r[1..], x);
      assert r == [r[0]] + r[1..];
    }
  }

  /** Names and inode numbers determine the map. */
  lemma NamesAre(d: seq<Dirent>, m: map<Name, nat>)
    requires UniqueNames(d)
    requires forall s :: Used(d, s) ==> d[s].name in m && m[d[s].name] == d[s].ino
    requires forall n :: n in m ==> exists s :: Used(d, s) && d[s].name == n
    ensures NamesOf(d) == m
  {
  }

  /** Filling an unused slot with a new name adds exactly that name. */
  lemma PutNew(d: seq<Dirent>, slot: nat, e: Dirent)
    requires UniqueNames(d) && slot <= |d| && !Used(d, slot)
    requires e.ino != NOINO && e.name !in NamesOf(d)
    ensures UniqueNames(Put(d, slot, e)) && NamesOf(Put(d, slot, e)) == NamesOf(d)[e.name := e.ino]
  {
    hide NamesOf;
    var p := Put(d, slot, e);
    assert forall s :: Used(p, s) <==> s == slot || Used(d, s);
    assert forall s :: Used(d, s) ==> p[s] == d[s];
    var m := NamesOf(d)[e.name := e.ino];
    forall n | n in m
      ensures exists s :: Used(p, s) && p[s].name == n
    {
      if n == e.name {
        assert Used(p, slot);
      } else {
        var s :| Used(d, s) && d[s].name == n;
        assert Used(p, s);
      }
    }
    NamesAre(p, m);
  }

  /** Clearing a used slot removes exactly its name. */
  lemma PutNone(d: seq<Dirent>, slot: nat, e: Dirent)
    requires UniqueNames(d) && Used(d, slot) && e.ino == NOINO
    ensures UniqueNames(Put(d, slot, e)) && NamesOf(Put(d, slot, e)) == NamesOf(d) - {d[slot].name}
  {
    hide NamesOf;
    var p := Put(d, slot, e);
    assert forall s :: Used(p, s) <==> s != slot && Used(d, s);
    assert forall s :: Used(p, s) ==> p[s] == d[s];
    var m := NamesOf(d) - {d[slot].name};
    forall n | n in m
      ensures exists s :: Used(p, s) && p[s].name == n
    {
      var s :| Used(d, s) && d[s].name == n;
      assert Used(p, s);
    }
    NamesAre(p, m);
  }

  lemma ContentsSame(v: View, v': View, ino: nat, pos: nat, n: nat)
    requires forall k: nat :: FileBlock(v, ino, k) == FileBlock(v', ino, k)
    ensures Contents(v, ino, pos, n) == Contents(v', ino, pos, n)
  {
    hide FileBlock;
    forall i | 0 <= i < n
      ensures Contents(v, ino, pos, n)[i] == Contents(v', ino, pos, n)[i]
    {
      assert FileBlock(v, ino, (pos + i) / BLOCKSIZE) == FileBlock(v', ino, (pos + i) / BLOCKSIZE);
      assert Raw(v, ino, pos + i) == Raw(v', ino, pos + i);
    }
  }

  lemma DirSame(v: View, v': View)
    requires SameFile(v, v', ROOTDIR_INO)
    ensures Dir(v') == Dir(v)
  {
    hide FileBlock, InodeOf, Contents, DecodeDirent;
    forall s: nat
      ensures EntryAt(v', s) == EntryAt(v, s)
    {
      ContentsSame(v, v', ROOTDIR_INO, s * DIRENTSIZE, DIRENTSIZE);
    }
    assert |Dir(v')| == |Dir(v)|;
  }

  /** Writing an entry's bytes into the directory file puts the entry into its slot. */
  lemma DirWritten(v: View, v': View, live: set<nat>, slot: nat, e: Dirent)
    requires InodeOf(v, ROOTDIR_INO).size % DIRENTSIZE == 0 && slot <= |Dir(v)|
    requires e.ino < WORD_LIMIT && |e.name| < NAMELEN
    requires FileExtended(v, v', live, ROOTDIR_INO, slot * DIRENTSIZE, EncodeDirent(e),
                          if (slot + 1) * DIRENTSIZE > InodeOf(v, ROOTDIR_INO).size then (slot + 1) * DIRENTSIZE
                          else InodeOf(v, ROOTDIR_INO).size)
    ensures Dir(v') == Put(Dir(v), slot, e)
    ensures InodeOf(v', ROOTDIR_INO).size % DIRENTSIZE == 0
  {
    hide FileBlock, InodeOf, DecodeDirent, EncodeDirent, Raw;
    var bytes := EncodeDirent(e);
    forall s: nat
      ensures EntryAt(v', s) == if s == slot then e else EntryAt(v, s)
    {
      if s == slot {
        assert Contents(v', ROOTDIR_INO, s * DIRENTSIZE, DIRENTSIZE) == bytes;
        DirentRoundTrip(e);
      } else {
        assert Contents(v', ROOTDIR_INO, s * DIRENTSIZE, DIRENTSIZE) == Contents(v, ROOTDIR_INO, s * DIRENTSIZE, DIRENTSIZE);
      }
    }
  }

  // ---------------------------------------------------------------- the name space

  /** The directory's names are unique and lead to live files, and every file's link count, as
      the kernel sees it, is the number of entries for it. The root directory's link count is not
      zero, so that the directory outlives its vnode. */
  ghost predicate NameSpace(v: View, live: set<nat>) {
    && ROOTDIR_INO in live
    && InodeOf(v, ROOTDIR_INO).typ == TYPE_DIR && InodeOf(v, ROOTDIR_INO).links > 0
    && InodeOf(v, ROOTDIR_INO).size % DIRENTSIZE == 0 && InodeOf(v, ROOTDIR_INO).size <= MAXFILEBYTES
    && UniqueNames(Dir(v))
    && (forall s :: Used(Dir(v), s) ==> Dir(v)[s].ino in live && Dir(v)[s].ino != ROOTDIR_INO)
    && (forall i :: i in live && i != ROOTDIR_INO ==>
          InodeOf(v, i).typ == TYPE_FILE && InodeOf(v, i).links == Links(Dir(v), i))
  }

  /** A directory never has room for more entries than a link count can count. */
  lemma LinksFit(v: View, live: set<nat>, ino: nat)
    requires NameSpace(v, live) && ino in live && ino != ROOTDIR_INO
    ensures |Dir(v)| <= 1144 && InodeOf(v, ino).links + 1 < HALF_LIMIT
  {
    hide InodeOf, Links;
    LinksBounds(Dir(v), ino);
  }

  /** A name that is found leads to a file with at least one link. */
  lemma NamedHasLinks(v: View, live: set<nat>, s: nat)
    requires NameSpace(v, live) && Used(Dir(v), s)
    ensures InodeOf(v, Dir(v)[s].ino).links > 0 && InodeOf(v, Dir(v)[s].ino).typ == TYPE_FILE
  {
    hide InodeOf, Links;
    LinksBounds(Dir(v), Dir(v)[s].ino);
  }

  /** Steps that keep every remaining file keep the name space; only files without links may go. */
  lemma NameSpaceSame(v: View, w: View, live: set<nat>, live': set<nat>)
    requires NameSpace(v, live) && ROOTDIR_INO in live' && live' <= live
    requires SameFiles(v, w, live')
    requires forall i :: i in live && i !in live' ==> InodeOf(v, i).links == 0
    ensures NameSpace(w, live') && Dir(w) == Dir(v)
  {
    hide InodeOf, Links, FileBlock, Dir;
    assert SameFile(v, w, ROOTDIR_INO);
    DirSame(v, w);
    forall s | Used(Dir(v), s)
      ensures Dir(v)[s].ino in live'
    {
      NamedHasLinks(v, live, s);
    }
    forall i | i in live' && i != ROOTDIR_INO
      ensures InodeOf(w, i).typ == TYPE_FILE && InodeOf(w, i).links == Links(Dir(v), i)
    {
      assert SameFile(v, w, i);
    }
  }

  /** One entry has changed, and the link counts have followed. */
  lemma NameSpacePut(v: View, w: View, live: set<nat>, live': set<nat>, slot: nat, e: Dirent)
    requires NameSpace(v, live) && live <= live' && slot <= |Dir(v)|
    requires Dir(w) == Put(Dir(v), slot, e) && UniqueNames(Dir(w))
    requires InodeOf(w, ROOTDIR_INO).typ == TYPE_DIR && InodeOf(w, ROOTDIR_INO).links > 0
    requires InodeOf(w, ROOTDIR_INO).size % DIRENTSIZE == 0 && InodeOf(w, ROOTDIR_INO).size <= MAXFILEBYTES
    requires e.ino == NOINO || (e.ino in live' && e.ino != ROOTDIR_INO)
    requires NOINO !in live'
    requires forall i :: i in live' && i != ROOTDIR_INO ==>
               && InodeOf(w, i).typ == TYPE_FILE
               && InodeOf(w, i).links + (if slot < |Dir(v)| && Dir(v)[slot].ino == i then 1 else 0)
                  == (if i in live then InodeOf(v, i).links else 0) + (if e.ino == i then 1 else 0)
    ensures NameSpace(w, live')
  {
    hide InodeOf, Links, Dir;
    forall i | i in live' && i != ROOTDIR_INO
      ensures InodeOf(w, i).links == Links(Dir(w), i)
    {
      PutLinks(Dir(v), slot, e, i);
      LinksBounds(Dir(v), i);
      if i !in live {
        assert forall s :: 0 <= s < |Dir(v)| && Dir(v)[s].ino == i ==> Used(Dir(v), s);
        assert Links(Dir(v), i) == 0;
      }
    }
    forall s | Used(Dir(w), s)
      ensures Dir(w)[s].ino in live' && Dir(w)[s].ino != ROOTDIR_INO
    {
      if s != slot {
        assert Used(Dir(v), s);
      }
    }
  }
}
