/** What threads rely on while the kernel heap's spinlock is free, and why no step of another thread
    takes it from them (vm/kmalloc.c:219-337, 874-1160). */
module KheapClaims {
  import opened KheapPages
  import opened KheapState
  import opened KheapSteps

  /** What some threads hold: pages and descriptors they are in the middle of using, blocks with the
      sizes they asked for, and whole pages likewise. */
  datatype Claim = Claim(pages: set<nat>, slots: set<nat>, blocks: map<nat, nat>, large: map<nat, nat>)

  ghost predicate Upheld(h: Heap, c: Claim) {
    && (forall p :: p in c.pages ==> p in h.use && h.use[p] == Pending && p in h.kpages && h.kpages[p] == 1)
    && c.slots <= h.reserved
    && (forall a :: a in c.blocks ==> a in h.live && h.live[a] == c.blocks[a])
    && (forall p :: p in c.large ==> p in h.use && h.use[p] == Large(c.large[p]))
  }

  /** What has been handed out holds what it held. */
  ghost predicate Untouched(mem: map<nat, nat>, mem': map<nat, nat>, c: Claim) {
    && (forall a, x: nat :: a in c.blocks && a <= x < a + c.blocks[a] ==> SameWord(mem, mem', x))
    && (forall p, x: nat :: p in c.large && p <= x < p + c.large[p] ==> SameWord(mem, mem', x))
  }

  /** Pages of descriptors are never given up. */
  ghost predicate RootsKept(h: Heap, h': Heap) {
    |h'.roots| == |h.roots| && forall r :: 0 <= r < |h.roots| && h.roots[r] != 0 ==> h'.roots[r] == h.roots[r]
  }

  /** A change of the heap that leaves a claim alone. */
  ghost predicate Respects(h: Heap, h': Heap, c: Claim) {
    Upheld(h', c) && RootsKept(h, h') && Untouched(h.mem, h'.mem, c)
  }

  lemma RespectsSame(h: Heap, h': Heap, c: Claim)
    requires Upheld(h, c)
    requires h'.use == h.use && h'.kpages == h.kpages && h'.reserved == h.reserved && h'.live == h.live
    requires h'.roots == h.roots && h'.mem == h.mem
    ensures Respects(h, h', c)
  {
  }

  lemma RespectsTwice(h: Heap, h': Heap, h'': Heap, c: Claim)
    requires Respects(h, h', c) && Respects(h', h'', c)
    ensures Respects(h, h'', c)
  {
    hide Upheld;
    forall a, x: nat | a in c.blocks && a <= x < a + c.blocks[a]
      ensures SameWord(h.mem, h''.mem, x)
    {
      assert SameWord(h.mem, h'.mem, x) && SameWord(h'.mem, h''.mem, x);
    }
    forall p, x: nat | p in c.large && p <= x < p + c.large[p]
      ensures SameWord(h.mem, h''.mem, x)
    {
      assert SameWord(h.mem, h'.mem, x) && SameWord(h'.mem, h''.mem, x);
    }
  }

  /** The claim of the thread at work, and that of the others. */
  function With(c: Claim, pages: set<nat>, slots: set<nat>): Claim {
    c.(pages := c.pages + pages, slots := c.slots + slots)
  }

  lemma WithUpheld(h: Heap, c: Claim, pages: set<nat>, slots: set<nat>)
    ensures Upheld(h, With(c, pages, slots)) <==>
            && Upheld(h, c) && slots <= h.reserved
            && forall p :: p in pages ==> p in h.use && h.use[p] == Pending && p in h.kpages && h.kpages[p] == 1
  {
  }

  lemma RespectsPart(h: Heap, h': Heap, c: Claim, pages: set<nat>, slots: set<nat>)
    requires Respects(h, h', With(c, pages, slots))
    ensures Respects(h, h', c)
  {
  }

  lemma NotClaimed(h: Heap, va: nat, c: Claim)
    requires Upheld(h, c) && va !in h.use
    ensures va !in c.pages && va !in c.large
  {
  }

  lemma HeapPageNotClaimed(h: Heap, va: nat, c: Claim)
    requires Upheld(h, c) && va in h.use && h.use[va].HeapPage?
    ensures va !in c.pages && va !in c.large
  {
  }

  lemma LargeNotClaimed(h: Heap, va: nat, c: Claim)
    requires Upheld(h, c) && va in h.use && h.use[va].Large?
    ensures va !in c.pages
  {
  }

  // ---------------------------------------------------------------- the steps of others

  lemma GrantRespects(h: Heap, va: nat, n: nat, u: Use, c: Claim)
    requires Upheld(h, c) && va !in h.use
    ensures Respects(h, Granted(h, va, n, u), c)
  {
  }

  lemma ReturnRespects(h: Heap, va: nat, c: Claim)
    requires Upheld(h, c) && va !in c.pages && va !in c.large
    ensures Respects(h, Returned(h, va), c)
  {
  }

  lemma TakeRespects(h: Heap, s: nat, bytes: nat, c: Claim)
    requires Upheld(h, c) && FirstFree(h, s) !in h.live
    ensures Respects(h, Taken(h, s, bytes), c) && FirstFree(h, s) !in c.blocks
  {
  }

  lemma ReserveRespects(h: Heap, s: nat, c: Claim)
    requires Kept(h) && Upheld(h, c) && s < TOTAL_PAGEREFS && !h.used[s]
    ensures Respects(h, Reserved(h, s), c) && s !in c.slots
  {
    hide Lists, Counts, Pages, Lives, Uses;
  }

  lemma InstallRespects(h: Heap, r: nat, va: nat, c: Claim)
    requires Shape(h) && Upheld(h, c) && r < NUM_PAGEREFPAGES && h.roots[r] == 0
    requires va in h.use && h.use[va] == Pending && va !in c.pages
    ensures Respects(h, Installed(h, r, va), c)
  {
  }

  /** A block in use, or a whole allocation, lies apart from a page that is neither. */
  lemma ApartFromPage(h: Heap, va: nat, a: nat, x: nat)
    requires Kept(h) && va in h.use && h.use[va] == Pending && va in h.kpages && h.kpages[va] == 1
    requires a in h.live && a <= x < a + h.live[a]
    ensures x < va || va + PAGE_SIZE <= x
  {
    hide Kept, BlockOf, RefOf, SizeOf, Blocks;
    var t, i := WhichBlock(h, a);
    assert Covers(h, t, i, x);
    NoOverlap(h, t, i, x);
    OwnPage(h, t);
  }

  lemma LargeApart(h: Heap, va: nat, p: nat, x: nat)
    requires Kept(h) && va in h.use && h.use[va] == Pending && va in h.kpages && h.kpages[va] == 1
    requires p in h.use && h.use[p].Large? && p <= x < p + h.use[p].bytes
    ensures x < va || va + PAGE_SIZE <= x
  {
    hide Lists, Slots, Counts, Pages, Lives;
    assert UseFits(h, p);
  }

  lemma AddRespects(h: Heap, s: nat, va: nat, k: nat, mem: map<nat, nat>, c: Claim)
    requires Kept(h) && Upheld(h, c) && k < NSIZES && s < TOTAL_PAGEREFS && s !in c.slots
    requires va in h.use && h.use[va] == Pending && va in h.kpages && h.kpages[va] == 1 && va !in c.pages
    requires WrittenIn(h.mem, mem, va, PAGE_SIZE)
    ensures Respects(h, Added(h, s, va, k, mem), c)
  {
    hide Lists, Slots, Counts, Pages, Lives, Uses, Blocks, SizeOf;
    forall a, x: nat | a in c.blocks && a <= x < a + c.blocks[a]
      ensures SameWord(h.mem, mem, x)
    {
      ApartFromPage(h, va, a, x);
    }
    forall p, x: nat | p in c.large && p <= x < p + c.large[p]
      ensures SameWord(h.mem, mem, x)
    {
      LargeApart(h, va, p, x);
    }
  }

  /** Two blocks in use, and a block and a whole allocation, lie apart. */
  lemma ApartFromBlock(h: Heap, s: nat, b: nat, a: nat, x: nat)
    requires Kept(h) && s in h.all && b < Blocks(RefOf(h, s).blktype) && a != BlockOf(h, s, b)
    requires a in h.live && a <= x < a + h.live[a]
    ensures x < BlockOf(h, s, b) || BlockOf(h, s, b) + SizeOf(RefOf(h, s).blktype) <= x
  {
    hide Kept, BlockOf, RefOf, SizeOf, Blocks;
    var t, i := WhichBlock(h, a);
    assert Covers(h, t, i, x);
    NoOverlap(h, t, i, x);
    assert !Covers(h, s, b, x);
  }

  lemma LargeApartFromBlock(h: Heap, s: nat, b: nat, p: nat, x: nat)
    requires Kept(h) && s in h.all && b < Blocks(RefOf(h, s).blktype)
    requires p in h.use && h.use[p].Large? && p <= x < p + h.use[p].bytes
    ensures x < BlockOf(h, s, b) || BlockOf(h, s, b) + SizeOf(RefOf(h, s).blktype) <= x
  {
    hide Lists, Slots, Counts, Pages, Lives, BlockOf, RefOf, SizeOf, Blocks;
    assert UseFits(h, p);
    if Covers(h, s, b, x) {
      NoOverlap(h, s, b, x);
      OwnPage(h, s);
      assert false;
    }
  }

  /** Writing into one's own block. */
  lemma WriteUntouched(h: Heap, mem: map<nat, nat>, s: nat, b: nat, c: Claim)
    requires Kept(h) && Upheld(h, c) && s in h.all && b < Blocks(RefOf(h, s).blktype) && BlockOf(h, s, b) !in c.blocks
    requires WrittenIn(h.mem, mem, BlockOf(h, s, b), SizeOf(RefOf(h, s).blktype))
    ensures Untouched(h.mem, mem, c)
  {
    hide Kept, BlockOf, RefOf, SizeOf, Blocks;
    forall a, x: nat | a in c.blocks && a <= x < a + c.blocks[a]
      ensures SameWord(h.mem, mem, x)
    {
      ApartFromBlock(h, s, b, a, x);
    }
    forall p, x: nat | p in c.large && p <= x < p + c.large[p]
      ensures SameWord(h.mem, mem, x)
    {
      LargeApartFromBlock(h, s, b, p, x);
    }
  }

  lemma WriteRespects(h: Heap, mem: map<nat, nat>, s: nat, b: nat, c: Claim)
    requires Kept(h) && Upheld(h, c) && s in h.all && b < Blocks(RefOf(h, s).blktype) && BlockOf(h, s, b) !in c.blocks
    requires WrittenIn(h.mem, mem, BlockOf(h, s, b), SizeOf(RefOf(h, s).blktype))
    ensures Respects(h, h.(mem := mem), c)
  {
    hide Kept, BlockOf, RefOf, SizeOf, Blocks, WrittenIn, Untouched;
    WriteUntouched(h, mem, s, b, c);
  }

  lemma GiveRespects(h: Heap, mem: map<nat, nat>, s: nat, b: nat, c: Claim)
    requires Kept(h) && Upheld(h, c) && s in h.all && b < Blocks(RefOf(h, s).blktype) && BlockOf(h, s, b) !in c.blocks
    requires WrittenIn(h.mem, mem, BlockOf(h, s, b), SizeOf(RefOf(h, s).blktype))
    ensures Respects(h, Given(h.(mem := mem), s, b), c)
  {
    hide Kept, BlockOf, SizeOf, Blocks, WrittenIn, Untouched;
    WriteUntouched(h, mem, s, b, c);
    SameBlockOf(h, h.(mem := mem), s, b);
  }

  lemma DropRespects(h: Heap, h': Heap, page: nat, c: Claim)
    requires Upheld(h, c) && page in h.use && h.use[page].HeapPage?
    requires h'.use == h.use[page := Pending] && h'.kpages == h.kpages && h'.reserved == h.reserved
    requires h'.live == h.live && h'.roots == h.roots && h'.mem == h.mem
    ensures Respects(h, h', c)
  {
  }

  // ---------------------------------------------------------------- what has been handed out

  /** Different blocks in use have no byte in common, as far as they were asked for; nor have a block
      and whole pages. */
  lemma HandedOutApart(h: Heap, a: nat, x: nat)
    requires Kept(h) && a in h.live && a <= x < a + h.live[a]
    ensures forall b :: b in h.live && b <= x < b + h.live[b] ==> b == a
    ensures forall p :: p in h.use && h.use[p].Large? ==> !(p <= x < p + h.use[p].bytes)
  {
    hide Kept, BlockOf, RefOf, SizeOf, Blocks;
    var s, i := WhichBlock(h, a);
    forall b | b in h.live && b <= x < b + h.live[b]
      ensures b == a
    {
      if b != a {
        ApartFromBlock(h, s, i, b, x);
      }
    }
    forall p | p in h.use && h.use[p].Large?
      ensures !(p <= x < p + h.use[p].bytes)
    {
      if p <= x < p + h.use[p].bytes {
        LargeApartFromBlock(h, s, i, p, x);
      }
    }
  }
}
