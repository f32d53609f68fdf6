/** One page of the kernel heap (vm/kmalloc.c): blocks of one size, the free ones on a list
    threaded through their own first words. */
module KheapPages {

  const SIZE_LIMIT: nat := 0x1_0000_0000
  const PAGE_SIZE: nat := 4096
  const NSIZES: nat := 8
  const INVALID_OFFSET: nat := 0xffff
  const DEADBEEF: nat := 0xdeadbeef

  function SizeOf(k: nat): (size: nat)
    ensures 16 <= size <= 2048 && size % 16 == 0
  {
    match k
    case 0 => 16
    case 1 => 32
    case 2 => 64
    case 3 => 128
    case 4 => 256
    case 5 => 512
    case 6 => 1024
    case _ => 2048
  }

  /** The number of blocks of a type on a page. */
  function Blocks(k: nat): (n: nat)
    ensures n >= 2 && n * SizeOf(k) == PAGE_SIZE
  {
    PAGE_SIZE / SizeOf(k)
  }

  function BlockAddr(page: nat, k: nat, b: nat): nat
  {
    page + b * SizeOf(k)
  }

  /** Blocks of a page lie within it, one behind the other. */
  lemma BlocksApart(page: nat, k: nat, b: nat, c: nat)
    requires b < c < Blocks(k)
    ensures BlockAddr(page, k, b) + SizeOf(k) <= BlockAddr(page, k, c)
    ensures page <= BlockAddr(page, k, b)
    ensures BlockAddr(page, k, c) + SizeOf(k) <= page + PAGE_SIZE
  {
    var size := SizeOf(k);
    assert (b + 1) * size <= c * size;
    assert (c + 1) * size <= Blocks(k) * size;
  }

  lemma BlockInPage(page: nat, k: nat, b: nat)
    requires b < Blocks(k)
    ensures page <= BlockAddr(page, k, b) && BlockAddr(page, k, b) + SizeOf(k) <= page + PAGE_SIZE
  {
    if b + 1 < Blocks(k) {
      BlocksApart(page, k, b, b + 1);
    } else {
      BlocksApart(page, k, 0, b);
    }
  }

  /** An address at a multiple of the block size is the address of a block. */
  lemma BlockAt(page: nat, k: nat, addr: nat) returns (b: nat)
    requires page <= addr < page + PAGE_SIZE && (addr - page) % SizeOf(k) == 0
    ensures b < Blocks(k) && addr == BlockAddr(page, k, b)
  {
    b := (addr - page) / SizeOf(k);
    var n, size := Blocks(k), SizeOf(k);
    assert b * size < n * size;
  }

  lemma BlockMultiple(k: nat, b: nat)
    ensures b * SizeOf(k) % SizeOf(k) == 0
  {
    hide SizeOf;
    Multiple(b, SizeOf(k));
  }

  lemma Multiple(b: nat, n: nat)
    requires n > 0
    ensures b * n % n == 0
  {
    var d := b - b * n / n;
    assert b * n == b * n / n * n + b * n % n;
    assert d * n == b * n % n < n;
  }

  /** Two different addresses of pages are a page apart. */
  lemma PagesApart(p: nat, q: nat)
    requires p % PAGE_SIZE == 0 && q % PAGE_SIZE == 0 && p < q
    ensures p + PAGE_SIZE <= q
  {
  }

  // ---------------------------------------------------------------- the free list

  /** The word that follows entry i - 1 of the list: the address of entry i, or 0. */
  function Link(page: nat, k: nat, free: seq<nat>, i: nat): nat
  {
    if i < |free| then BlockAddr(page, k, free[i]) else 0
  }

  /** Block numbers below the number of blocks, each at most once. */
  ghost predicate Numbers(k: nat, free: seq<nat>)
  {
    && (forall i :: 0 <= i < |free| ==> free[i] < Blocks(k))
    && forall i, j :: 0 <= i < j < |free| ==> free[i] != free[j]
  }

  /** The list in memory is exactly free, in that order, and ends. */
  ghost predicate Threaded(mem: map<nat, nat>, page: nat, k: nat, free: seq<nat>)
  {
    && (forall i :: 0 <= i < |free| ==> BlockAddr(page, k, free[i]) in mem)
    && forall i {:trigger mem[BlockAddr(page, k, free[i])]} :: 0 <= i < |free| ==>
         mem[BlockAddr(page, k, free[i])] == Link(page, k, free, i + 1)
  }

  /** What a page descriptor says about its list: where it starts and how long it is. */
  ghost predicate Describes(offset: nat, nfree: nat, k: nat, free: seq<nat>)
  {
    nfree == |free| && offset == if free == [] then INVALID_OFFSET else free[0] * SizeOf(k)
  }

  ghost predicate FreeList(mem: map<nat, nat>, page: nat, k: nat, offset: nat, nfree: nat, free: seq<nat>) {
    && k < NSIZES && page > 0 && page % PAGE_SIZE == 0
    && Numbers(k, free) && Threaded(mem, page, k, free) && Describes(offset, nfree, k, free)
  }

  /** A word that memory holds and nobody on this list has written. */
  ghost predicate SameWord(mem: map<nat, nat>, mem': map<nat, nat>, a: nat) {
    a in mem ==> a in mem' && mem'[a] == mem[a]
  }

  /** Changes away from the free blocks leave the list alone. */
  lemma FreeListFrame(mem: map<nat, nat>, mem': map<nat, nat>, page: nat, k: nat, offset: nat, nfree: nat, free: seq<nat>)
    requires FreeList(mem, page, k, offset, nfree, free)
    requires forall i :: 0 <= i < |free| ==> SameWord(mem, mem', BlockAddr(page, k, free[i]))
    ensures FreeList(mem', page, k, offset, nfree, free)
  {
  }

  /** Taking the first free block: what its first word leads to is the rest of the list. */
  lemma Popped(mem: map<nat, nat>, page: nat, k: nat, offset: nat, nfree: nat, free: seq<nat>)
    requires FreeList(mem, page, k, offset, nfree, free) && free != []
    ensures nfree == |free| && page > 0 && free[0] < Blocks(k)
    ensures offset < PAGE_SIZE && page + offset == BlockAddr(page, k, free[0]) && page + offset in mem
    ensures var next := mem[page + offset];
            && (next != 0 <==> |free| > 1)
            && (next != 0 ==> page <= next < page + PAGE_SIZE)
            && FreeList(mem, page, k, if next != 0 then next - page else INVALID_OFFSET, nfree - 1, free[1..])
  {
    BlockInPage(page, k, free[0]);
    var rest := free[1..];
    assert mem[page + offset] == Link(page, k, free, 1);
    if |free| > 1 {
      BlockInPage(page, k, free[1]);
    }
    forall i | 0 <= i < |rest|
      ensures BlockAddr(page, k, rest[i]) in mem && mem[BlockAddr(page, k, rest[i])] == Link(page, k, rest, i + 1)
    {
      assert rest[i] == free[i + 1];
    }
  }

  /** Putting a block in front. */
  lemma Pushed(mem: map<nat, nat>, page: nat, k: nat, offset: nat, nfree: nat, free: seq<nat>, b: nat)
    requires FreeList(mem, page, k, offset, nfree, free) && b < Blocks(k) && b !in free
    requires BlockAddr(page, k, b) in mem
    requires mem[BlockAddr(page, k, b)] == if offset == INVALID_OFFSET then 0 else page + offset
    ensures FreeList(mem, page, k, b * SizeOf(k), nfree + 1, [b] + free)
  {
    var more := [b] + free;
    if free != [] {
      BlockInPage(page, k, free[0]);
    }
    forall i | 0 <= i < |more|
      ensures BlockAddr(page, k, more[i]) in mem && mem[BlockAddr(page, k, more[i])] == Link(page, k, more, i + 1)
    {
      if i > 0 {
        assert more[i] == free[i - 1];
      }
    }
    forall i, j | 0 <= i < j < |more|
      ensures more[i] != more[j]
    {
      assert more[j] == free[j - 1];
    }
  }

  /** The blocks of a new page, last first. */
  function Down(n: nat): (s: seq<nat>)
    ensures |s| == n && forall i :: 0 <= i < n ==> s[i] == n - 1 - i
  {
    seq(n, i requires 0 <= i < n => n - 1 - i)
  }

  /** What a block of a new page is made to point to. */
  function Below(page: nat, k: nat, b: nat): nat
  {
    if b == 0 then 0 else BlockAddr(page, k, b - 1)
  }

  /** A page whose blocks have been chained from the last to the first. */
  lemma Chained(mem: map<nat, nat>, page: nat, k: nat)
    requires k < NSIZES && page > 0 && page % PAGE_SIZE == 0
    requires forall b :: 0 <= b < Blocks(k) ==>
               && BlockAddr(page, k, b) in mem
               && mem[BlockAddr(page, k, b)] == Below(page, k, b)
    ensures FreeList(mem, page, k, (Blocks(k) - 1) * SizeOf(k), Blocks(k), Down(Blocks(k)))
  {
    var n, free := Blocks(k), Down(Blocks(k));
    forall i | 0 <= i < |free|
      ensures BlockAddr(page, k, free[i]) in mem && mem[BlockAddr(page, k, free[i])] == Link(page, k, free, i + 1)
    {
      var b := free[i];
      assert b == n - 1 - i && (i + 1 < n ==> free[i + 1] == b - 1);
      assert mem[BlockAddr(page, k, b)] == Below(page, k, b);
    }
  }

  /** A list without repetitions holds all the blocks exactly when it is as long as there are blocks. */
  lemma AllFree(k: nat, free: seq<nat>)
    requires Numbers(k, free)
    ensures |free| <= Blocks(k)
    ensures |free| == Blocks(k) <==> forall b :: 0 <= b < Blocks(k) ==> b in free
  {
    var listed, blocks := Elements(free), UpTo(Blocks(k));
    DistinctCount(free);
    assert listed <= blocks;
    CountSubset(listed, blocks);
    if blocks <= listed {
      assert listed == blocks;
      forall b | 0 <= b < Blocks(k)
        ensures b in free
      {
        assert b in blocks && b in listed;
      }
    } else {
      var b :| b in blocks && b !in listed;
      assert b !in free;
    }
  }

  function Elements(s: seq<nat>): set<nat> {
    set b | b in s
  }

  function UpTo(n: nat): (s: set<nat>)
    ensures |s| == n && forall b: nat :: b in s <==> b < n
  {
    if n == 0 then {} else UpTo(n - 1) + {n - 1}
  }

  lemma {:induction false} DistinctCount(s: seq<nat>)
    requires forall i, j :: 0 <= i < j < |s| ==> s[i] != s[j]
    ensures |Elements(s)| == |s|
  {
    if s != [] {
      DistinctCount(s[1..]);
      assert s[0] !in s[1..];
      assert s == [s[0]] + s[1..];
      assert Elements(s) == Elements(s[1..]) + {s[0]};
    }
  }

  lemma {:induction false} CountSubset(s: set<nat>, t: set<nat>)
    requires s <= t
    ensures |s| <= |t| && (|s| == |t| ==> s == t)
  {
    if s != {} {
      var x :| x in s;
      CountSubset(s - {x}, t - {x});
    }
  }
}
