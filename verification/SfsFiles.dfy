/** The contents of a file as a map from positions to bytes, and transfers to and from it. */
module SfsFiles {
  import opened Lib
  import opened Uios
  import opened SfsLayout
  import opened SfsState
  import opened SfsSteps

  /** One past the largest position a file can map. */
  const MAXFILEBYTES: nat := MAXFILEBLOCKS * BLOCKSIZE

  /** Block numbers within a file are kept in 32 bits, so positions repeat beyond here. */
  const POSITION_LIMIT: nat := WORD_LIMIT * BLOCKSIZE

  /** The file's bytes from position pos on. */
  ghost function Contents(v: View, ino: nat, pos: nat, n: nat): (s: seq<Byte>)
    ensures |s| == n
  {
    seq(n, i requires 0 <= i < n => Raw(v, ino, pos + i))
  }

  ghost predicate SameAttributes(v: View, v': View, ino: nat) {
    && InodeOf(v, ino).size == InodeOf(v', ino).size
    && InodeOf(v, ino).typ == InodeOf(v', ino).typ
    && InodeOf(v, ino).links == InodeOf(v', ino).links
  }

  /** One file's bytes from pos on are replaced by data; nothing else about any file changes. */
  ghost predicate FileWritten(v: View, v': View, live: set<nat>, ino: nat, pos: nat, data: seq<Byte>) {
    && SameAttributes(v, v', ino)
    && (forall i :: i in live && i != ino ==> SameFile(v, v', i))
    && (forall p: nat :: Raw(v', ino, p) == if pos <= p < pos + |data| then data[p - pos] else Raw(v, ino, p))
  }

  /** The same with a new size for that file. */
  ghost predicate FileExtended(v: View, v': View, live: set<nat>, ino: nat, pos: nat, data: seq<Byte>, size: nat) {
    && InodeOf(v', ino).size == size
    && InodeOf(v, ino).typ == InodeOf(v', ino).typ
    && InodeOf(v, ino).links == InodeOf(v', ino).links
    && (forall i :: i in live && i != ino ==> SameFile(v, v', i))
    && (forall p: nat :: Raw(v', ino, p) == if pos <= p < pos + |data| then data[p - pos] else Raw(v, ino, p))
  }

  /** Setting the size of a file after writing to it. */
  lemma WrittenThenSized(u: View, v: View, owner: map<nat, Owner>, live: set<nat>, ino: nat, pos: nat, data: seq<Byte>, d: Inode)
    requires Owned(v, owner, live) && ino in v.loaded && FileWritten(u, v, live, ino, pos, data)
    requires d == v.loaded[ino].(size := d.size)
    ensures Owned(WithInode(v, ino, d), owner, live)
    ensures FileExtended(u, WithInode(v, ino, d), live, ino, pos, data, d.size)
  {
    hide FileBlock, Slot, Owned;
    var w := WithInode(v, ino, d);
    ChangeAttributes(v, owner, live, ino, d);
    LoadedIsLive(v, owner, live, ino);
    forall p: nat
      ensures Raw(w, ino, p) == Raw(v, ino, p)
    {
      assert FileBlock(w, ino, p / BLOCKSIZE) == FileBlock(v, ino, p / BLOCKSIZE);
    }
    assert InodeOf(w, ino) == d;
    forall i | i in live && i != ino
      ensures SameFile(u, w, i)
    {
      assert SameFile(u, v, i);
    }
  }

  /** A change that keeps every file writes nothing. */
  lemma NothingWritten(v: View, v': View, live: set<nat>, ino: nat, pos: nat)
    requires SameFiles(v, v', live) && ino in live
    ensures FileWritten(v, v', live, ino, pos, [])
  {
    hide FileBlock, InodeOf;
    assert SameFile(v, v', ino);
  }

  lemma WrittenTwice(u: View, v: View, w: View, live: set<nat>, ino: nat, pos: nat, d: seq<Byte>, e: seq<Byte>)
    requires FileWritten(u, v, live, ino, pos, d) && FileWritten(v, w, live, ino, pos + |d|, e)
    ensures FileWritten(u, w, live, ino, pos, d + e)
  {
    hide FileBlock, InodeOf, Raw;
  }

  lemma ReadTwice(v: View, ino: nat, pos: nat, n: nat, m: nat)
    ensures Contents(v, ino, pos, n) + Contents(v, ino, pos + n, m) == Contents(v, ino, pos, n + m)
  {
    hide Raw;
  }

  /** A stretch of a file within one of its blocks. */
  lemma ContentsInBlock(v: View, ino: nat, k: nat, skip: nat, n: nat)
    requires skip + n <= BLOCKSIZE
    ensures Contents(v, ino, k * BLOCKSIZE + skip, n) == FileBlock(v, ino, k)[skip..skip + n]
  {
    hide FileBlock;
    var s := Contents(v, ino, k * BLOCKSIZE + skip, n);
    forall i | 0 <= i < n
      ensures s[i] == FileBlock(v, ino, k)[skip + i]
    {
      var p := k * BLOCKSIZE + skip + i;
      assert p / BLOCKSIZE == k && p % BLOCKSIZE == skip + i;
      assert s[i] == Raw(v, ino, p);
    }
  }

  /** Replacing part of one block of a file, seen on positions. */
  lemma BlockWritten(v: View, v': View, live: set<nat>, ino: nat, k: nat, skip: nat, data: seq<Byte>)
    requires skip + |data| <= BLOCKSIZE && SameAttributes(v, v', ino)
    requires forall i :: i in live && i != ino ==> SameFile(v, v', i)
    requires FileBlock(v', ino, k) == Splice(FileBlock(v, ino, k), skip, data)
    requires forall m: nat :: m != k ==> FileBlock(v', ino, m) == FileBlock(v, ino, m)
    ensures FileWritten(v, v', live, ino, k * BLOCKSIZE + skip, data)
  {
    hide FileBlock, InodeOf, Splice;
    var pos := k * BLOCKSIZE + skip;
    forall p: nat
      ensures Raw(v', ino, p) == if pos <= p < pos + |data| then data[p - pos] else Raw(v, ino, p)
    {
      assert p == p / BLOCKSIZE * BLOCKSIZE + p % BLOCKSIZE;
      assert p / BLOCKSIZE < k ==> p < k * BLOCKSIZE;
      assert p / BLOCKSIZE > k ==> p >= k * BLOCKSIZE + BLOCKSIZE;
    }
  }

  /** What moving the next n bytes between a file at pos and the addresses in todo does to the
      volume and to memory. */
  ghost predicate Transferred(rw: Direction, v: View, v': View, live: set<nat>, ino: nat, pos: nat,
                              todo: seq<nat>, n: nat, mem: seq<Byte>, mem': seq<Byte>)
  {
    && n <= |todo| && InSpace(todo, |mem|)
    && (rw.Read? ==> v' == v && mem' == Scatter(mem, todo[..n], Contents(v, ino, pos, n)))
    && (rw.Write? ==> mem' == mem && FileWritten(v, v', live, ino, pos, Gather(mem, todo[..n])))
  }

  lemma NothingTransferred(rw: Direction, v: View, v': View, live: set<nat>, ino: nat, pos: nat,
                           todo: seq<nat>, mem: seq<Byte>)
    requires ino in live && InSpace(todo, |mem|) && SameFiles(v, v', live) && (rw.Read? ==> v' == v)
    ensures Transferred(rw, v, v', live, ino, pos, todo, 0, mem, mem)
  {
    hide FileWritten, Raw;
    NothingWritten(v, v', live, ino, pos);
    assert todo[..0] == [] && Contents(v, ino, pos, 0) == [] && Gather(mem, []) == [];
  }

  /** Two transfers in a row are one. */
  lemma TransferredTwice(rw: Direction, u: View, v: View, w: View, live: set<nat>, ino: nat, pos: nat,
                         todo: seq<nat>, n: nat, m: nat, mem: seq<Byte>, mem': seq<Byte>, mem'': seq<Byte>)
    requires n + m <= |todo| && |mem'| == |mem|
    requires Transferred(rw, u, v, live, ino, pos, todo, n, mem, mem')
    requires Transferred(rw, v, w, live, ino, pos + n, todo[n..], m, mem', mem'')
    ensures Transferred(rw, u, w, live, ino, pos, todo, n + m, mem, mem'')
  {
    hide FileWritten, Raw, Scatter;
    var a, b := todo[..n], todo[n..][..m];
    assert a + b == todo[..n + m];
    if rw.Read? {
      ScatterTwice(mem, a, Contents(u, ino, pos, n), b, Contents(u, ino, pos + n, m));
      ReadTwice(u, ino, pos, n, m);
    } else {
      assert Gather(mem, a) + Gather(mem, b) == Gather(mem, todo[..n + m]);
      WrittenTwice(u, v, w, live, ino, pos, Gather(mem, a), Gather(mem, b));
    }
  }
}
