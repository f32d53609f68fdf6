/** The data mover of lib/uio.c: a cursor over a scatter list of buffers.

    A uio is abstracted to the sequence of addresses its iovecs still cover, in
    order. Moving bytes takes a prefix off that sequence. */
module Uios {
  import opened Lib

  /** The same byte as eight bits. */
  function ByteBits(b: Byte): bv8 {
    b as bv8
  }

  lemma ByteBitsRoundTrip(w: bv8)
    ensures ByteBits(w as Byte) == w
  {
  }

  const SIZE_T_LIMIT: nat := 0x1_0000_0000
  const ZEROS_SIZE: nat := 16

  /** Read moves from the kernel buffer to the uio's memory, Write the other way. */
  datatype Direction = Read | Write

  datatype Iovec = Iovec(base: nat, len: nat)

  datatype MoveResult = Moved | OutOfBuffers

  function Min(a: nat, b: nat): nat {
    if a <= b then a else b
  }

  // ---------------------------------------------------------------- byte sequences

  /** s with the bytes from position at onwards replaced by data. */
  function Splice<T>(s: seq<T>, at: nat, data: seq<T>): (r: seq<T>)
    requires at + |data| <= |s|
    ensures |r| == |s|
    ensures forall i :: 0 <= i < |s| ==> r[i] == if at <= i < at + |data| then data[i - at] else s[i]
  {
    s[..at] + data + s[at + |data|..]
  }

  function Interval(base: nat, len: nat): (r: seq<nat>)
    ensures |r| == len && forall i :: 0 <= i < len ==> r[i] == base + i
  {
    seq(len, i requires 0 <= i < len => base + i)
  }

  /** The addresses a scatter list covers, in transfer order. */
  function Span(iov: seq<Iovec>): seq<nat> {
    if iov == [] then [] else Interval(iov[0].base, iov[0].len) + Span(iov[1..])
  }

  ghost predicate InSpace(addresses: seq<nat>, size: nat) {
    forall i :: 0 <= i < |addresses| ==> addresses[i] < size
  }

  /** Memory after the bytes of data have been stored at the given addresses, one after
      the other, so that a later store wins when iovecs overlap. */
  ghost function Scatter(mem: seq<Byte>, addresses: seq<nat>, data: seq<Byte>): (r: seq<Byte>)
    requires |addresses| == |data| && InSpace(addresses, |mem|)
    ensures |r| == |mem|
    decreases |data|
  {
    if data == [] then mem
    else
      var last := |data| - 1;
      Scatter(mem, addresses[..last], data[..last])[addresses[last] := data[last]]
  }

  ghost function Gather(mem: seq<Byte>, addresses: seq<nat>): (r: seq<Byte>)
    requires InSpace(addresses, |mem|)
    ensures |r| == |addresses|
  {
    seq(|addresses|, i requires 0 <= i < |addresses| => mem[addresses[i]])
  }

  lemma ScatterNothing(mem: seq<Byte>)
    ensures Scatter(mem, [], []) == mem
  {
  }

  /** Two transfers in a row are one transfer of the concatenation. */
  lemma {:induction false} ScatterTwice(mem: seq<Byte>, a: seq<nat>, d: seq<Byte>, b: seq<nat>, e: seq<Byte>)
    requires |a| == |d| && |b| == |e|
    requires InSpace(a, |mem|) && InSpace(b, |mem|)
    ensures InSpace(a + b, |mem|)
    ensures Scatter(Scatter(mem, a, d), b, e) == Scatter(mem, a + b, d + e)
    decreases |e|
  {
    if e == [] {
      assert a + b == a && d + e == d;
    } else {
      var last := |e| - 1;
      ScatterTwice(mem, a, d, b[..last], e[..last]);
      assert (a + b)[..|a + b| - 1] == a + b[..last];
      assert (d + e)[..|d + e| - 1] == d + e[..last];
    }
  }

  /** Storing into a run of consecutive addresses is one splice. */
  lemma {:induction false} ScatterInterval(mem: seq<Byte>, base: nat, data: seq<Byte>)
    requires base + |data| <= |mem|
    ensures Scatter(mem, Interval(base, |data|), data) == Splice(mem, base, data)
    decreases |data|
  {
    if data == [] {
      assert Splice(mem, base, data) == mem;
    } else {
      var last := |data| - 1;
      ScatterInterval(mem, base, data[..last]);
      assert Interval(base, |data|)[..last] == Interval(base, last);
      assert Splice(mem, base, data) == Splice(mem, base, data[..last])[base + last := data[last]];
    }
  }

  // ---------------------------------------------------------------- when a move is exact

  /** Some leading iovecs hold exactly this many bytes together. */
  ghost predicate IsPrefixSum(iov: seq<Iovec>, total: nat) {
    total == 0 || (iov != [] && iov[0].len <= total && IsPrefixSum(iov[1..], total - iov[0].len))
  }

  /** What a caller can check beforehand: there is buffer space for the bytes to be moved,
      and either the request is within the residue or the residue ends at an iovec boundary. */
  ghost predicate Fits(iov: seq<Iovec>, n: nat, resid: nat) {
    && Min(n, resid) <= |Span(iov)|
    && (n <= resid || IsPrefixSum(iov, resid))
  }

  /** A residue equal to the total buffer length, as the uio's set-up rules ask, always fits. */
  lemma {:induction false} DocumentedSetupFits(iov: seq<Iovec>, n: nat)
    ensures Fits(iov, n, |Span(iov)|)
  {
    if iov != [] {
      DocumentedSetupFits(iov[1..], n);
    }
  }

  /** How the loop's exits relate to Fits: nothing left to move fits any list; something left
      to move and no buffer does not. A request within the residue needs only buffer space. */
  lemma FitsAtTheEnds(iov: seq<Iovec>, n: nat, resid: nat)
    ensures n == 0 || resid == 0 ==> Fits(iov, n, resid)
    ensures n > 0 && resid > 0 && iov == [] ==> !Fits(iov, n, resid)
    ensures n <= resid <= |Span(iov)| ==> Fits(iov, n, resid)
  {
  }

  /** The first iovec after size bytes of it have been used. */
  function Consume(iov: seq<Iovec>, size: nat): (r: seq<Iovec>)
    requires iov != [] && size <= iov[0].len
    ensures |r| == |iov|
  {
    [Iovec(iov[0].base + size, iov[0].len - size)] + iov[1..]
  }

  lemma ConsumeSpan(iov: seq<Iovec>, size: nat)
    requires iov != [] && size <= iov[0].len
    ensures size <= |Span(iov)|
    ensures Span(iov)[..size] == Interval(iov[0].base, size)
    ensures Span(Consume(iov, size)) == Span(iov)[size..]
  {
    hide Interval, Span;
    var rest := Consume(iov, size);
    assert rest[1..] == iov[1..];
    UnfoldSpan(iov);
    UnfoldSpan(rest);
    IntervalParts(iov[0].base, iov[0].len, size);
    TakeDrop(Interval(iov[0].base, iov[0].len), Span(iov[1..]), size);
  }

  lemma UnfoldSpan(iov: seq<Iovec>)
    requires iov != []
    ensures Span(iov) == Interval(iov[0].base, iov[0].len) + Span(iov[1..])
  {
  }

  lemma IntervalParts(base: nat, len: nat, size: nat)
    requires size <= len
    ensures Interval(base, len)[..size] == Interval(base, size)
    ensures Interval(base, len)[size..] == Interval(base + size, len - size)
  {
  }

  lemma TakeDrop<T>(s: seq<T>, t: seq<T>, size: nat)
    requires size <= |s|
    ensures (s + t)[..size] == s[..size] && (s + t)[size..] == s[size..] + t
  {
  }

  lemma SliceOfRest<T>(s: seq<T>, done: nat, size: nat)
    requires done + size <= |s|
    ensures s[done..][..size] == s[done..done + size] && s[done..][size..] == s[done + size..]
  {
  }

  /** Skipping an empty iovec, or using up part of one, keeps Fits; a step that would exceed
      the residue happens only when Fits is false. */
  lemma FitsStep(iov: seq<Iovec>, n: nat, resid: nat)
    requires n > 0 && resid > 0 && iov != []
    ensures iov[0].len == 0 ==> Span(iov) == Span(iov[1..]) && (Fits(iov, n, resid) <==> Fits(iov[1..], n, resid))
    ensures var size := Min(iov[0].len, n);
            if size <= resid then Fits(iov, n, resid) <==> Fits(Consume(iov, size), n - size, resid - size)
            else !Fits(iov, n, resid)
  {
    var size := Min(iov[0].len, n);
    ConsumeSpan(iov, size);
    assert Consume(iov, size)[1..] == iov[1..];
    if size <= resid < n {
      assert size == iov[0].len;
      assert IsPrefixSum(iov, resid) <==> IsPrefixSum(iov[1..], resid - size);
      assert IsPrefixSum(Consume(iov, size), resid - size) <==> IsPrefixSum(iov[1..], resid - size);
    }
  }

  /** After done bytes, the boundaries between iovecs that are still ahead are where they were. */
  ghost predicate SameBounds(iov0: seq<Iovec>, iov: seq<Iovec>, done: nat) {
    forall x: nat :: x > 0 ==> (IsPrefixSum(iov, x) <==> IsPrefixSum(iov0, done + x))
  }

  lemma NoBounds(iov: seq<Iovec>)
    ensures SameBounds(iov, iov, 0)
  {
  }

  lemma BoundsStep(iov0: seq<Iovec>, iov: seq<Iovec>, done: nat, size: nat)
    requires SameBounds(iov0, iov, done) && iov != [] && size <= iov[0].len
    ensures SameBounds(iov0, Consume(iov, size), done + size)
    ensures iov[0].len == 0 ==> SameBounds(iov0, iov[1..], done)
  {
    assert Consume(iov, size)[1..] == iov[1..];
    forall x: nat | x > 0
      ensures IsPrefixSum(Consume(iov, size), x) <==> IsPrefixSum(iov0, done + size + x)
      ensures iov[0].len == 0 ==> (IsPrefixSum(iov[1..], x) <==> IsPrefixSum(iov0, done + x))
    {
      assert IsPrefixSum(iov, size + x) <==> IsPrefixSum(iov0, done + (size + x));
      assert IsPrefixSum(iov, x) <==> IsPrefixSum(iov0, done + x);
    }
  }

  lemma PrefixAndNext<T>(s: seq<T>, done: nat, size: nat)
    requires done + size <= |s|
    ensures s[..done] + s[done..done + size] == s[..done + size]
  {
  }

  /** What the first done bytes of a transfer have done to the uio's memory and to the kernel buffer. */
  ghost predicate Progress(rw: Direction, mem0: seq<Byte>, ptr0: seq<Byte>, start: nat, todo: seq<nat>, done: nat,
                           mem: seq<Byte>, ptr: seq<Byte>)
  {
    && done <= |todo| && start + done <= |ptr0| && InSpace(todo, |mem0|)
    && (rw.Read? ==> ptr == ptr0 && mem == Scatter(mem0, todo[..done], ptr0[start..start + done]))
    && (rw.Write? ==> mem == mem0 && ptr == Splice(ptr0, start, Gather(mem0, todo[..done])))
  }

  lemma ProgressSizes(rw: Direction, mem0: seq<Byte>, ptr0: seq<Byte>, start: nat, todo: seq<nat>, done: nat,
                      mem: seq<Byte>, ptr: seq<Byte>)
    requires Progress(rw, mem0, ptr0, start, todo, done, mem, ptr)
    ensures |mem| == |mem0| && |ptr| == |ptr0|
  {
  }

  lemma ProgressMeans(rw: Direction, mem0: seq<Byte>, ptr0: seq<Byte>, start: nat, todo: seq<nat>, done: nat,
                      mem: seq<Byte>, ptr: seq<Byte>)
    requires Progress(rw, mem0, ptr0, start, todo, done, mem, ptr)
    ensures done <= |todo| && start + done <= |ptr0| && InSpace(todo[..done], |mem0|)
    ensures rw.Read? ==> ptr == ptr0 && mem == Scatter(mem0, todo[..done], ptr0[start..start + done])
    ensures rw.Write? ==> mem == mem0 && ptr == Splice(ptr0, start, Gather(mem0, todo[..done]))
  {
  }

  lemma ProgressStart(rw: Direction, mem: seq<Byte>, ptr: seq<Byte>, start: nat, todo: seq<nat>)
    requires start <= |ptr| && InSpace(todo, |mem|)
    ensures Progress(rw, mem, ptr, start, todo, 0, mem, ptr)
  {
    assert Splice(ptr, start, Gather(mem, todo[..0])) == ptr;
  }

  /** Copying the next run of consecutive addresses makes progress by its length. */
  lemma ReadStep(mem0: seq<Byte>, ptr0: seq<Byte>, start: nat, todo: seq<nat>, done: nat,
                 mem: seq<Byte>, ptr: seq<Byte>, base: nat, size: nat)
    requires Progress(Read, mem0, ptr0, start, todo, done, mem, ptr)
    requires done + size <= |todo| && start + done + size <= |ptr0| && base + size <= |mem0|
    requires todo[done..done + size] == Interval(base, size)
    ensures Progress(Read, mem0, ptr0, start, todo, done + size,
                     Splice(mem, base, ptr[start + done..start + done + size]), ptr)
  {
    var now, next := ptr0[start..start + done], ptr0[start + done..start + done + size];
    ScatterInterval(mem, base, next);
    ScatterTwice(mem0, todo[..done], now, todo[done..done + size], next);
    PrefixAndNext(todo, done, size);
    assert now + next == ptr0[start..start + done + size];
  }

  lemma WriteStep(mem0: seq<Byte>, ptr0: seq<Byte>, start: nat, todo: seq<nat>, done: nat,
                  mem: seq<Byte>, ptr: seq<Byte>, base: nat, size: nat)
    requires Progress(Write, mem0, ptr0, start, todo, done, mem, ptr)
    requires done + size <= |todo| && start + done + size <= |ptr0| && base + size <= |mem0|
    requires todo[done..done + size] == Interval(base, size)
    ensures Progress(Write, mem0, ptr0, start, todo, done + size,
                     mem, Splice(ptr, start + done, mem[base..base + size]))
  {
    var after := Gather(mem0, todo[..done + size]);
    assert after[..done] == Gather(mem0, todo[..done]);
    assert after[done..] == mem[base..base + size] by {
      assert forall i {:trigger after[done..][i]} :: 0 <= i < size ==> todo[done..done + size][i] == base + i;
    }
    assert Splice(ptr, start + done, mem[base..base + size]) == Splice(ptr0, start, after);
  }

  // ---------------------------------------------------------------- the mover

  /** memmove between two different buffers. */
  method CopyBytes(dst: array<Byte>, d: nat, src: array<Byte>, s: nat, n: nat)
    requires dst != src && d + n <= dst.Length && s + n <= src.Length
    modifies dst
    ensures dst[..] == Splice(old(dst[..]), d, src[s..s + n])
  {
    forall i | 0 <= i < n {
      dst[d + i] := src[s + i];
    }
  }

  /** What a call to move n bytes started from. */
  datatype Transfer = Transfer(iov: seq<Iovec>, n: nat, resid: nat, offset: nat, start: nat, mem: seq<Byte>, ptr: seq<Byte>)

  function Zeros(n: nat): (z: seq<Byte>)
    ensures |z| == n
  {
    seq(n, _ => 0)
  }

  /** The same for zeros, which are moved a small buffer at a time: a request beyond the residue also
      does no harm when the residue ends with one of those buffers. */
  ghost predicate ZerosFit(iov: seq<Iovec>, n: nat, resid: nat) {
    && Min(n, resid) <= |Span(iov)|
    && (n <= resid || resid % ZEROS_SIZE == 0 || IsPrefixSum(iov, resid))
  }

  lemma ZerosFitWithin(iov: seq<Iovec>, n: nat, resid: nat)
    requires n <= resid <= |Span(iov)|
    ensures ZerosFit(iov, n, resid) && (n > 0 ==> iov != [])
  {
  }

  /** Two buffers of ten bytes, of which twelve bytes are to be used: a request for sixteen does not
      stop at twelve, although there is room for all of them. */
  lemma NotAlwaysFits()
    ensures var iov := [Iovec(0, 10), Iovec(10, 10)];
            InSpace(Span(iov), 20) && |Span(iov)| == 20 && !Fits(iov, 16, 12) && !ZerosFit(iov, 16, 12)
  {
    var iov := [Iovec(0, 10), Iovec(10, 10)];
    assert iov[1..] == [Iovec(10, 10)] && iov[1..][1..] == [];
    assert Span(iov[1..]) == Interval(10, 10) + Span([]);
    assert IsPrefixSum(iov[1..], 2) == false;
    assert IsPrefixSum(iov, 12) == IsPrefixSum(iov[1..], 2);
  }

  /** How far the zeros have got. */
  ghost predicate Zeroing(t: Transfer, left: nat, iov: seq<Iovec>, resid: nat, offset: nat, mem: seq<Byte>) {
    && left <= t.n
    && var m := Min(t.n - left, t.resid);
    && resid == t.resid - m && offset == t.offset + m
    && m <= |Span(t.iov)| && Span(iov) == Span(t.iov)[m..] && SameBounds(t.iov, iov, m)
    && InSpace(Span(t.iov), |t.mem|) && mem == Scatter(t.mem, Span(t.iov)[..m], Zeros(m))
    && ZerosFit(t.iov, t.n - left, t.resid)
  }

  lemma ZeroingStarts(t: Transfer)
    requires InSpace(Span(t.iov), |t.mem|)
    ensures Zeroing(t, t.n, t.iov, t.resid, t.offset, t.mem)
  {
    hide Span, Scatter, IsPrefixSum, SameBounds;
    ScatterNothing(t.mem);
    NoBounds(t.iov);
    assert Span(t.iov)[..0] == [] && Zeros(0) == [];
  }

  lemma ZeroingEnds(t: Transfer, iov: seq<Iovec>, resid: nat, offset: nat, mem: seq<Byte>)
    requires Zeroing(t, 0, iov, resid, offset, mem)
    ensures ZerosFit(t.iov, t.n, t.resid)
    ensures var m := Min(t.n, t.resid);
            && resid == t.resid - m && offset == t.offset + m && m <= |Span(t.iov)| && Span(iov) == Span(t.iov)[m..]
            && InSpace(Span(t.iov)[..m], |t.mem|) && mem == Scatter(t.mem, Span(t.iov)[..m], Zeros(m))
  {
    hide Span, Scatter, IsPrefixSum, SameBounds, ZerosFit;
  }

  /** Whether the next few zeros fit decides whether the request does, as far as it goes. */
  lemma ZerosNext(t: Transfer, left: nat, amt: nat, iov: seq<Iovec>, resid: nat, offset: nat, mem: seq<Byte>)
    requires Zeroing(t, left, iov, resid, offset, mem) && (t.n - left) % ZEROS_SIZE == 0
    requires 0 < left <= t.n && amt == Min(ZEROS_SIZE, left)
    ensures offset + resid == t.offset + t.resid
    ensures Fits(iov, amt, resid) <==> ZerosFit(t.iov, t.n - left + amt, t.resid)
    ensures !Fits(iov, amt, resid) ==> !ZerosFit(t.iov, t.n, t.resid)
  {
    hide Span, Scatter, IsPrefixSum, InSpace;
    assert resid > 0 ==> (IsPrefixSum(iov, resid) <==> IsPrefixSum(t.iov, t.n - left + resid));
    FitsAtTheEnds(iov, amt, resid);
  }

  lemma ZerosPart(zeros: seq<Byte>, k: nat)
    requires zeros == Zeros(ZEROS_SIZE) && k <= ZEROS_SIZE
    ensures zeros[0..k] == Zeros(k)
  {
  }

  lemma ZerosJoin(m: nat, k: nat)
    ensures Zeros(m) + Zeros(k) == Zeros(m + k)
  {
  }

  lemma ZerosScattered(mem: seq<Byte>, todo: seq<nat>, m: nat, k: nat)
    requires m + k <= |todo| && InSpace(todo, |mem|)
    ensures InSpace(todo[..m], |mem|) && InSpace(todo[m..m + k], |mem|) && InSpace(todo[..m + k], |mem|)
    ensures |Scatter(mem, todo[..m], Zeros(m))| == |mem|
    ensures Scatter(Scatter(mem, todo[..m], Zeros(m)), todo[m..m + k], Zeros(k)) == Scatter(mem, todo[..m + k], Zeros(m + k))
  {
    hide Scatter, Zeros;
    PartsInSpace(todo, m, k, |mem|);
    PrefixAndNext(todo, m, k);
    ZerosJoin(m, k);
    ScatterTwice(mem, todo[..m], Zeros(m), todo[m..m + k], Zeros(k));
  }

  lemma ZerosMoved(t: Transfer, left: nat, amt: nat, iov: seq<Iovec>, resid: nat, offset: nat, mem: seq<Byte>,
                   iov': seq<Iovec>, resid': nat, offset': nat, mem': seq<Byte>)
    requires Zeroing(t, left, iov, resid, offset, mem) && amt <= left && ZerosFit(t.iov, t.n - left + amt, t.resid)
    requires Min(amt, resid) <= |Span(iov)| && InSpace(Span(iov)[..Min(amt, resid)], |mem|)
    requires var k := Min(amt, resid);
             && resid' == resid - k && offset' == offset + k && Span(iov') == Span(iov)[k..] && SameBounds(iov, iov', k)
             && mem' == Scatter(mem, Span(iov)[..k], Zeros(k))
    ensures Zeroing(t, left - amt, iov', resid', offset', mem')
  {
    hide Span, Scatter, IsPrefixSum, InSpace, ZerosFit, SameBounds, Zeros;
    var todo, m, k := Span(t.iov), Min(t.n - left, t.resid), Min(amt, resid);
    SliceOfRest(todo, m, k);
    ZerosScattered(t.mem, todo, m, k);
    BoundsTwice(t.iov, iov, iov', m, k);
  }

  lemma FitsRoom(iov: seq<Iovec>, n: nat, resid: nat, size: nat)
    requires Fits(iov, n, resid) && InSpace(Span(iov), size)
    ensures Min(n, resid) <= |Span(iov)| && InSpace(Span(iov)[..Min(n, resid)], size)
  {
    hide Span, IsPrefixSum;
  }

  lemma PartsInSpace(todo: seq<nat>, m: nat, k: nat, size: nat)
    requires InSpace(todo, size) && m + k <= |todo|
    ensures InSpace(todo[..m], size) && InSpace(todo[m..m + k], size)
  {
  }

  lemma BoundsTwice(iov0: seq<Iovec>, iov: seq<Iovec>, iov': seq<Iovec>, m: nat, k: nat)
    requires SameBounds(iov0, iov, m) && SameBounds(iov, iov', k)
    ensures SameBounds(iov0, iov', m + k)
  {
    hide IsPrefixSum;
    forall x: nat | x > 0
      ensures IsPrefixSum(iov', x) <==> IsPrefixSum(iov0, m + k + x)
    {
      assert IsPrefixSum(iov, k + x) <==> IsPrefixSum(iov0, m + (k + x));
    }
  }

  class Uio {
    const rw: Direction
    const space: array<Byte>
    var iov: seq<Iovec>
    var resid: nat
    var offset: nat

    constructor (rw: Direction, space: array<Byte>, iov: seq<Iovec>, resid: nat, offset: nat)
      ensures this.rw == rw && this.space == space && this.iov == iov && this.resid == resid && this.offset == offset
    {
      this.rw, this.space, this.iov, this.resid, this.offset := rw, space, iov, resid, offset;
    }

    /** The addresses not yet used up. */
    ghost function Todo(): seq<nat>
      reads this`iov
    {
      Span(iov)
    }

    /** The residue is a 32-bit count and no buffer faults. */
    ghost predicate Valid()
      reads this
    {
      resid < SIZE_T_LIMIT && InSpace(Todo(), space.Length)
    }

    /** The bytes the next n positions of the cursor hold. */
    ghost function Outgoing(n: nat): seq<Byte>
      requires Valid() && n <= |Todo()|
      reads this, space
    {
      Gather(space[..], Todo()[..n])
    }

    /** Moves bytes between ptr[start..start+n] and the uio's memory. The move is of exactly
        min(n, resid) bytes if and only if Fits holds beforehand; otherwise the code either
        panics for want of buffers or moves more than the residue, which then wraps. */
    method Move(ptr: array<Byte>, start: nat, n: nat) returns (r: MoveResult)
      requires Valid() && n < SIZE_T_LIMIT
      requires start + n <= ptr.Length && ptr != space
      requires n > 0 && resid > 0 ==> iov != []
      modifies this`iov, this`resid, this`offset, ptr, space
      ensures r.Moved? && offset == old(offset) + Min(n, old(resid)) <==> old(Fits(iov, n, resid))
      ensures Valid() && offset >= old(offset) && (r.Moved? && old(iov) != [] ==> iov != [])
      ensures r.Moved? && !old(Fits(iov, n, resid)) ==> offset > old(offset) + old(resid)
      ensures old(Fits(iov, n, resid)) ==> SameBounds(old(iov), iov, Min(n, old(resid)))
      ensures old(Fits(iov, n, resid)) ==>
                var m := Min(n, old(resid));
                && Valid() && resid == old(resid) - m && Todo() == old(Todo())[m..]
                && (rw.Read? ==>
                      && ptr[..] == old(ptr[..])
                      && space[..] == Scatter(old(space[..]), old(Todo())[..m], old(ptr[start..start + m])))
                && (rw.Write? ==>
                      && space[..] == old(space[..])
                      && ptr[..] == Splice(old(ptr[..]), start, old(Outgoing(m))))
    {
      hide Scatter, Splice, Gather, Span, IsPrefixSum, Fits, InSpace, Progress, SameBounds, Uio.Tracked;
      var left: nat := n;
      ghost var t := Transfer(iov, n, resid, offset, start, space[..], ptr[..]);
      Started(t, ptr);
      while left > 0 && resid > 0
        invariant (left > 0 && resid > 0) || t.iov != [] ==> iov != []
        invariant left <= n && Tracked(t, left, ptr)
        decreases left, |iov|
      {
        var size := Min(iov[0].len, left);
        if size == 0 {
          SkipEmpty(ptr, left, t);
          if iov == [] {
            Stuck(t, left, ptr);
            return OutOfBuffers;
          }
        } else {
          MoveSome(ptr, start + (n - left), left, size, t);
          left := left - size;
        }
      }
      r := Moved;
      Finished(t, left, ptr);
    }

    lemma Started(t: Transfer, ptr: array<Byte>)
      requires Valid() && t.start + t.n <= ptr.Length
      requires t.iov == iov && t.resid == resid && t.offset == offset && t.mem == space[..] && t.ptr == ptr[..]
      ensures Tracked(t, t.n, ptr)
    {
      hide Scatter, Splice, Gather, Span, IsPrefixSum, Fits, Progress, SameBounds;
      ProgressStart(rw, space[..], ptr[..], t.start, Todo());
      NoBounds(iov);
    }

    /** Bytes left to move, room left in the residue, and no buffer. */
    lemma Stuck(t: Transfer, left: nat, ptr: array<Byte>)
      requires Tracked(t, left, ptr) && left > 0 && resid > 0 && iov == []
      ensures Valid() && offset >= t.offset && !Fits(t.iov, t.n, t.resid)
    {
      hide Scatter, Splice, Gather, Span, IsPrefixSum, Fits, InSpace, Progress, SameBounds;
      FitsAtTheEnds(iov, left, resid);
    }

    /** Nothing left to move, or no room left in the residue. */
    lemma Finished(t: Transfer, left: nat, ptr: array<Byte>)
      requires Tracked(t, left, ptr) && (left == 0 || resid == 0) && t.start + t.n <= |t.ptr|
      ensures Valid() && offset >= t.offset
      ensures offset == t.offset + Min(t.n, t.resid) <==> Fits(t.iov, t.n, t.resid)
      ensures !Fits(t.iov, t.n, t.resid) ==> offset > t.offset + t.resid
      ensures Fits(t.iov, t.n, t.resid) ==>
                var m := Min(t.n, t.resid);
                && resid == t.resid - m && m <= |Span(t.iov)| && Todo() == Span(t.iov)[m..] && SameBounds(t.iov, iov, m)
                && InSpace(Span(t.iov)[..m], |t.mem|)
                && (rw.Read? ==> ptr[..] == t.ptr && space[..] == Scatter(t.mem, Span(t.iov)[..m], t.ptr[t.start..t.start + m]))
                && (rw.Write? ==> space[..] == t.mem && ptr[..] == Splice(t.ptr, t.start, Gather(t.mem, Span(t.iov)[..m])))
    {
      hide Scatter, Splice, Gather, Span, IsPrefixSum, Fits, InSpace, Progress, SameBounds;
      FitsAtTheEnds(iov, left, resid);
      if t.n - left <= t.resid {
        ProgressMeans(rw, t.mem, t.ptr, t.start, Span(t.iov), t.n - left, space[..], ptr[..]);
      }
    }

    /** Moves zero bytes into the uio's memory, a small buffer at a time. The move is of exactly
        min(n, resid) bytes if and only if ZerosFit holds beforehand. */
    method MoveZeros(n: nat) returns (r: MoveResult)
      requires Valid() && rw.Read? && n < SIZE_T_LIMIT
      requires n > 0 && resid > 0 ==> iov != []
      modifies this`iov, this`resid, this`offset, space
      ensures r.Moved? && offset == old(offset) + Min(n, old(resid)) <==> old(ZerosFit(iov, n, resid))
      ensures old(ZerosFit(iov, n, resid)) ==>
                var m := Min(n, old(resid));
                && Valid() && resid == old(resid) - m && Todo() == old(Todo())[m..]
                && space[..] == Scatter(old(space[..]), old(Todo())[..m], Zeros(m))
    {
      hide Scatter, Gather, Span, InSpace, ZerosFit, Zeroing;
      var zeros := new Byte[ZEROS_SIZE](_ => 0);
      var left: nat := n;
      ghost var t := Transfer(iov, n, resid, offset, 0, space[..], []);
      ZeroingStarts(t);
      while left > 0
        invariant left <= n && (left > 0 ==> (n - left) % ZEROS_SIZE == 0) && Valid()
        invariant iov != [] || (t.iov == [] && (n == 0 || resid == 0))
        invariant ZerosTracked(t, left, zeros)
      {
        var amt := Min(ZEROS_SIZE, left);
        r := ZeroSome(zeros, left, amt, t);
        if r.OutOfBuffers? {
          return;
        }
        left := left - amt;
      }
      r := Moved;
      if Zeroing(t, 0, iov, resid, offset, space[..]) {
        ZeroingEnds(t, iov, resid, offset, space[..]);
      }
    }

    /** Zeros have been moved as far as they should, or too many of them. */
    ghost predicate ZerosTracked(t: Transfer, left: nat, zeros: array<Byte>)
      reads this, space, zeros
    {
      || (Zeroing(t, left, iov, resid, offset, space[..]) && zeros[..] == Zeros(ZEROS_SIZE))
      || (!ZerosFit(t.iov, t.n, t.resid) && offset > t.offset + t.resid)
    }

    /** One call of uiomove. */
    method ZeroSome(zeros: array<Byte>, left: nat, amt: nat, ghost t: Transfer) returns (r: MoveResult)
      requires Valid() && rw.Read? && zeros != space && zeros.Length == ZEROS_SIZE
      requires 0 < left <= t.n && amt == Min(ZEROS_SIZE, left) && (t.n - left) % ZEROS_SIZE == 0
      requires resid > 0 ==> iov != []
      requires ZerosTracked(t, left, zeros)
      modifies this`iov, this`resid, this`offset, zeros, space
      ensures Valid() && (r.Moved? && old(iov) != [] ==> iov != []) && (old(resid) == 0 ==> resid == 0)
      ensures if r.Moved? then ZerosTracked(t, left - amt, zeros) else !ZerosFit(t.iov, t.n, t.resid)
    {
      hide Scatter, Gather, Span, InSpace, ZerosFit, IsPrefixSum, SameBounds, Fits, Zeroing;
      ghost var on, iov0, resid0, offset0, mem0 := Zeroing(t, left, iov, resid, offset, space[..]), iov, resid, offset, space[..];
      FitsAtTheEnds(iov, amt, resid);
      if Fits(iov, amt, resid) {
        FitsRoom(iov, amt, resid, space.Length);
      }
      if on {
        ZerosNext(t, left, amt, iov, resid, offset, space[..]);
      }
      r := Move(zeros, 0, amt);
      if on && Fits(iov0, amt, resid0) {
        ZerosPart(zeros[..], Min(amt, resid0));
        ZerosMoved(t, left, amt, iov0, resid0, offset0, mem0, iov, resid, offset, space[..]);
      }
    }

    /** Where a transfer that began as t stands: while no more than the residue has been moved,
        those bytes are a prefix of the transfer; a count beyond the residue means a misfit. */
    ghost predicate Tracked(t: Transfer, left: nat, ptr: array<Byte>)
      reads this, space, ptr
    {
      && Valid() && left <= t.n && offset == t.offset + (t.n - left)
      && t.start + t.n <= |t.ptr| == ptr.Length
      && (t.n - left > t.resid ==> !Fits(t.iov, t.n, t.resid))
      && (t.n - left <= t.resid ==> OnCourse(t, left, ptr))
    }

    ghost predicate OnCourse(t: Transfer, left: nat, ptr: array<Byte>)
      requires left <= t.n && t.n - left <= t.resid
      reads this, space, ptr
    {
      && t.n - left <= |Span(t.iov)| && resid == t.resid - (t.n - left) && Todo() == Span(t.iov)[t.n - left..]
      && (Fits(iov, left, resid) <==> Fits(t.iov, t.n, t.resid)) && SameBounds(t.iov, iov, t.n - left)
      && Progress(rw, t.mem, t.ptr, t.start, Span(t.iov), t.n - left, space[..], ptr[..])
    }

    /** One memmove, copyin or copyout at the current iovec, which is then moved past. */
    method CopyCurrent(ptr: array<Byte>, pos: nat, size: nat)
      requires iov != [] && 0 < size <= iov[0].len && InSpace(Todo(), space.Length)
      requires pos + size <= ptr.Length && ptr != space
      modifies this`iov, ptr, space
      ensures iov == Consume(old(iov), size) && InSpace(Todo(), space.Length)
      ensures size <= |old(Todo())| && Todo() == old(Todo())[size..]
      ensures old(Todo())[..size] == Interval(old(iov[0].base), size) && old(iov[0].base) + size <= space.Length
      ensures rw.Read? ==> ptr[..] == old(ptr[..])
      ensures rw.Read? ==> space[..] == Splice(old(space[..]), old(iov[0].base), old(ptr[..])[pos..pos + size])
      ensures rw.Write? ==> space[..] == old(space[..])
      ensures rw.Write? ==> ptr[..] == Splice(old(ptr[..]), pos, old(space[..])[old(iov[0].base)..old(iov[0].base) + size])
    {
      var base := iov[0].base;
      ConsumeSpan(iov, size);
      assert Todo()[size - 1] == Todo()[..size][size - 1] == base + size - 1;
      if rw.Read? {
        CopyBytes(space, base, ptr, pos, size);
      } else {
        CopyBytes(ptr, pos, space, base, size);
      }
      iov := Consume(iov, size);
    }

    /** An iovec with no room left is dropped from the list. */
    method SkipEmpty(ptr: array<Byte>, left: nat, ghost t: Transfer)
      requires left > 0 && resid > 0 && iov != [] && iov[0].len == 0
      requires Tracked(t, left, ptr)
      modifies this`iov
      ensures iov == old(iov)[1..] && Tracked(t, left, ptr)
    {
      hide Scatter, Splice, Gather, Span, IsPrefixSum, Fits, InSpace, Progress, SameBounds;
      FitsStep(iov, left, resid);
      if t.n - left <= t.resid {
        BoundsStep(t.iov, iov, t.n - left, 0);
      }
      iov := iov[1..];
    }

    /** Moves size bytes and updates the counts. The residue is unsigned, so taking more than
        it holds wraps it around. */
    method MoveSome(ptr: array<Byte>, pos: nat, left: nat, size: nat, ghost t: Transfer)
      requires 0 < left <= t.n < SIZE_T_LIMIT && resid > 0 && iov != []
      requires 0 < size == Min(iov[0].len, left)
      requires pos == t.start + (t.n - left) && ptr != space
      requires Tracked(t, left, ptr)
      modifies this`iov, this`resid, this`offset, ptr, space
      ensures iov != [] && Tracked(t, left - size, ptr)
    {
      hide Fits, Span, Scatter, Splice, IsPrefixSum, Gather, Consume, Interval, Progress, SameBounds;
      ghost var todo, done, mem1, ptr1, base := Span(t.iov), t.n - left, space[..], ptr[..], iov[0].base;
      FitsStep(iov, left, resid);
      if done + size <= t.resid {
        ProgressSizes(rw, t.mem, t.ptr, t.start, todo, done, mem1, ptr1);
        BoundsStep(t.iov, iov, done, size);
      }
      CopyCurrent(ptr, pos, size);
      if done + size <= t.resid {
        SliceOfRest(todo, done, size);
        if rw.Read? {
          ReadStep(t.mem, t.ptr, t.start, todo, done, mem1, ptr1, base, size);
        } else {
          WriteStep(t.mem, t.ptr, t.start, todo, done, mem1, ptr1, base, size);
        }
      }
      resid := if size <= resid then resid - size else resid + SIZE_T_LIMIT - size;
      offset := offset + size;
    }
  }
}
