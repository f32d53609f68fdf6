/** kmalloc and kfree (vm/kmalloc.c:216-337, 822-1223), in the default configuration.

    The spinlock is free at the points where OtherThreads is called: other threads may then do to
    the heap whatever keeps it sound. alloc_kpages hands out pages that nothing else uses, or none when
    there is no memory left. */
module Kheap {
  import opened KheapPages
  import opened KheapLists
  import opened KheapState
  import opened KheapSteps
  import opened KheapClaims

  const LARGEST_SUBPAGE_SIZE: nat := 2048

  /** How kfree's search ends; the last is an assertion failing. */
  datatype Freed = Freed | NotOnAnyPage | AssertionFailed

  function NoRef(): PageRef {
    PageRef(NONE, NONE, 0, 0, 0, 0)
  }

  class KernelHeap {
    var refs: seq<PageRef>
    var used: seq<bool>
    var numinuse: seq<nat>
    var roots: seq<nat>
    var sizebases: seq<int>
    var allbase: int
    var mem: map<nat, nat>
    var kpages: map<nat, nat>
    ghost var all: seq<nat>
    ghost var same: seq<seq<nat>>
    ghost var free: map<nat, seq<nat>>
    ghost var live: map<nat, nat>
    ghost var use: map<nat, Use>
    ghost var reserved: set<nat>

    ghost function State(): Heap
      reads this
    {
      Heap(refs, used, numinuse, roots, sizebases, allbase, mem, kpages, all, same, free, live, use, reserved)
    }

    ghost predicate Valid()
      reads this
    {
      Inv(State())
    }

    /** An empty heap. */
    constructor ()
      ensures Valid() && State() == Empty()
    {
      refs, used := seq(TOTAL_PAGEREFS, _ => NoRef()), seq(TOTAL_PAGEREFS, _ => false);
      numinuse, roots := seq(NUM_PAGEREFPAGES, _ => 0), seq(NUM_PAGEREFPAGES, _ => 0);
      sizebases, allbase := seq(NSIZES, _ => NONE), NONE;
      mem, kpages := map[], map[];
      all, same, free, live, use, reserved := [], seq(NSIZES, _ => []), map[], map[], map[], {};
      new;
      EmptyHeap();
      assert State() == Empty();
    }

    /** What can happen while the spinlock is free: whatever kmalloc, kfree and writes to blocks by other
        threads come to, which keeps the heap sound and respects what those threads do not hold. A thread
        that is alone meanwhile finds the heap as it was. */
    method OtherThreads(ghost held: Claim, ghost alone: bool)
      requires Valid() && Upheld(State(), held)
      modifies this
      ensures Valid() && Respects(old(State()), State(), held)
      ensures alone ==> State() == old(State())
    {
      hide Inv, Upheld;
      RespectsSame(State(), State(), held);
    }

    method AllocKpages(n: nat, memory: bool, ghost u: Use) returns (va: nat)
      requires Valid() && n > 0 && (u.Pending? || (u.Large? && u.bytes <= n * PAGE_SIZE))
      modifies this`kpages, this`use
      ensures Valid() && (va != 0 <==> memory)
      ensures va == 0 ==> State() == old(State())
      ensures va != 0 ==>
                Vacant(old(kpages), va, n) && va !in old(use) && va !in old(kpages) && State() == Granted(old(State()), va, n, u)
    {
      hide Kept, NoneIdle, Vacant;
      va := 0;
      if memory {
        SomewhereVacant(kpages, n);
        va :| Vacant(kpages, va, n);
        VacantIsPositive(kpages, va, n);
        Grant(State(), va, n, u);
        UsesCover(State());
        IdleSame(State(), Granted(State(), va, n, u));
        kpages := kpages[va := n];
        use := use[va := u];
      }
    }

    /** Asked for no pages, it returns some address or other. */
    method AllocNoKpages(memory: bool) returns (va: nat)
      ensures (va != 0 <==> memory) && va % PAGE_SIZE == 0
    {
      va := 0;
      if memory {
        assert PAGE_SIZE % PAGE_SIZE == 0;
        va :| va > 0 && va % PAGE_SIZE == 0;
      }
    }

    method FreeKpages(va: nat)
      requires Valid() && va in use && (use[va].Pending? || use[va].Large?)
      modifies this`kpages, this`use
      ensures Valid() && State() == Returned(old(State()), va)
    {
      hide Kept, NoneIdle;
      Return(State(), va);
      IdleSame(State(), Returned(State(), va));
      kpages := kpages - {va};
      use := use - {va};
    }

    // -------------------------------------------------------------- allocating

    /** The smallest block type that is large enough; there is none for requests beyond the largest. */
    method BlockType(sz: nat) returns (k: nat)
      requires sz <= LARGEST_SUBPAGE_SIZE
      ensures Best(k, sz)
    {
      assert SizeOf(NSIZES - 1) == LARGEST_SUBPAGE_SIZE;
      for i := 0 to NSIZES
        invariant forall j: nat :: j < i ==> SizeOf(j) < sz
      {
        if sz <= SizeOf(i) {
          return i;
        }
      }
      assert false;
    }

    /** Looks along the list of one block type for a page with a free block. */
    method FindPage(k: nat) returns (pr: int)
      requires Valid() && k < NSIZES
      ensures pr == NONE ==> forall s :: s in all && RefOf(State(), s).blktype == k ==> FreeOf(State(), s) == []
      ensures pr != NONE ==> 0 <= pr < |refs| && pr in all && refs[pr].blktype == k && FreeOf(State(), pr) != []
    {
      hide Slots, Counts, Pages, Lives, Uses, NoneIdle;
      ghost var h, i := State(), 0;
      pr := sizebases[k];
      while pr != NONE
        invariant 0 <= i <= |same[k]| && pr == Head(same[k], i)
        invariant forall j :: 0 <= j < i ==> FreeOf(h, same[k][j]) == []
        decreases |same[k]| - i
      {
        assert same[k][i] in same[k] && ListsType(h, same[k], k) && refs[pr] == RefOf(h, pr);
        assert refs[pr].blktype == k;
        CountsFree(h, pr);
        if refs[pr].nfree > 0 {
          return;
        }
        assert SameNexts(refs)[same[k][i]] == Head(same[k], i + 1);
        pr := refs[pr].nextSame;
        i := i + 1;
      }
      AllOfType(h, k);
    }

    /** The code after doalloc. */
    method TakeFirst(pr: nat, sz: nat) returns (ptr: nat)
      requires Kept(State()) && pr in all && pr < |refs| && FreeOf(State(), pr) != [] && sz <= SizeOf(refs[pr].blktype)
      requires forall s :: s in all && s != pr ==> |FreeOf(State(), s)| < Blocks(RefOf(State(), s).blktype)
      modifies this`refs, this`free, this`live
      ensures Valid() && State() == Taken(old(State()), pr, sz)
      ensures ptr > 0 && ptr == FirstFree(old(State()), pr) && ptr !in old(live) && live == old(live)[ptr := sz]
      ensures PageOf(ptr) in use && use[PageOf(ptr)] == HeapPage(pr) && refs[pr].blktype == old(refs)[pr].blktype
      ensures PageOf(ptr) == old(refs)[pr].page
    {
      hide Kept, BlockOf;
      ghost var h := State();
      TakeBlock(h, pr, sz);
      FirstOnPage(h, pr);
      TakeFacts(h, pr);
      TakeIdle(h, pr, sz);
      assert refs[pr].offset < PAGE_SIZE;
      var prpage := refs[pr].page;
      var fla := prpage + refs[pr].offset;
      ptr := fla;
      var fl := mem[fla];
      refs := refs[pr := refs[pr].(nfree := refs[pr].nfree - 1)];
      if fl != 0 {
        assert refs[pr].nfree > 0;
        fla := fl;
        assert fla - prpage < PAGE_SIZE;
        refs := refs[pr := refs[pr].(offset := fla - prpage)];
      } else {
        assert refs[pr].nfree == 0;
        refs := refs[pr := refs[pr].(offset := INVALID_OFFSET)];
      }
      free := free[pr := Tail(FreeOf(h, pr))];
      live := live[ptr := sz];
      assert refs == SetRef(h, pr, Advanced(RefOf(h, pr), WordOf(h.mem, FirstFree(h, pr))));
      assert State() == Taken(h, pr, sz);
    }

    /** Marks the first descriptor not in use, page of descriptors by page of descriptors. */
    method ReserveSlot() returns (slot: int)
      requires Valid()
      modifies this`used, this`numinuse, this`reserved
      ensures Valid()
      ensures slot == NONE ==> State() == old(State()) && forall r :: 0 <= r < NUM_PAGEREFPAGES ==> numinuse[r] == NPAGEREFS_PER_PAGE
      ensures slot != NONE ==> 0 <= slot < TOTAL_PAGEREFS && !old(used)[slot] && State() == Reserved(old(State()), slot)
      ensures slot != NONE ==> FirstRoot(old(numinuse), RootOf(slot))
    {
      hide Lists, Slots, Pages, Lives, Uses, NoneIdle, Trues, RootBits;
      for whichroot := 0 to NUM_PAGEREFPAGES
        invariant State() == old(State())
        invariant forall r :: 0 <= r < whichroot ==> numinuse[r] == NPAGEREFS_PER_PAGE
      {
        FullOrFree(State(), whichroot);
        if numinuse[whichroot] < NPAGEREFS_PER_PAGE {
          for i := 0 to NPAGEREFS_PER_PAGE
            invariant State() == old(State())
            invariant forall j :: 0 <= j < i ==> RootBits(used, whichroot)[j]
          {
            slot := whichroot * NPAGEREFS_PER_PAGE + i;
            BitOf(used, whichroot, i);
            if !used[slot] {
              assert RootOf(slot) == whichroot;
              Reserve(State(), slot);
              IdleSame(State(), Reserved(State(), slot));
              used := used[slot := true];
              numinuse := numinuse[whichroot := numinuse[whichroot] + 1];
              reserved := reserved + {slot};
              return;
            }
          }
          assert false;
        }
      }
      slot := NONE;
    }

    /** Gets a page of descriptors. The spinlock is free meanwhile, and someone else may get it first. */
    method AllocPageRefPage(root: nat, memory: bool, ghost held: Claim, ghost alone: bool)
      requires Valid() && root < |roots| && roots[root] == 0 && Upheld(State(), held)
      modifies this
      ensures Valid() && Respects(old(State()), State(), held)
      ensures alone ==> (root < |roots| && roots[root] != 0 <==> memory) && live == old(live)
      ensures alone && memory ==> DescriptorPage(old(roots), old(kpages), roots, kpages, root)
      ensures alone && !memory ==> kpages == old(kpages)
    {
      hide Kept, NoneIdle, Upheld, Untouched, Vacant;
      ghost var h0 := State();
      OtherThreads(held, alone);
      ghost var h1 := State();
      var va := AllocKpages(1, memory, Pending);
      if va == 0 {
        OtherThreads(held, alone);
        RespectsTwice(h0, h1, State(), held);
        return;
      }
      AddressFacts(State(), va);
      assert va % PAGE_SIZE == 0;
      GrantRespects(h1, va, 1, Pending, held);
      NotClaimed(h1, va, held);
      ghost var h2, own := State(), With(held, {va}, {});
      WithUpheld(h2, held, {va}, {});
      OtherThreads(own, alone);
      ghost var h3 := State();
      RespectsPart(h2, h3, held, {va}, {});
      RespectsTwice(h0, h1, h2, held);
      RespectsTwice(h0, h2, h3, held);
      WithUpheld(h3, held, {va}, {});
      if roots[root] != 0 {
        OtherThreads(own, alone);
        ghost var h4 := State();
        RespectsPart(h3, h4, held, {va}, {});
        WithUpheld(h4, held, {va}, {});
        FreeKpages(va);
        ghost var h5 := State();
        ReturnRespects(h4, va, held);
        OtherThreads(held, alone);
        assert roots[root] != 0;
        RespectsTwice(h0, h3, h4, held);
        RespectsTwice(h0, h4, h5, held);
        RespectsTwice(h0, h5, State(), held);
        return;
      }
      RootsShape(State());
      Install(State(), root, va);
      IdleSame(State(), Installed(State(), root, va));
      InstallRespects(State(), root, va, held);
      roots := roots[root := va];
      use := use[va := RefPage(root)];
      RespectsTwice(h0, h3, State(), held);
    }

    /** Takes a page descriptor. If its page cannot be got, the descriptor stays marked in use; if the
        page exists, it does not fail. */
    method AllocPageRef(memory: bool, ghost held: Claim, ghost alone: bool) returns (pr: int)
      requires Valid() && Upheld(State(), held)
      modifies this
      ensures Valid() && Respects(old(State()), State(), held)
      ensures alone ==> (pr == NONE <==> NoDescriptor(old(numinuse), old(roots), memory))
      ensures alone ==> live == old(live)
      ensures alone && pr == NONE ==> kpages == old(kpages)
      ensures old(exists r: nat :: FirstRoot(numinuse, r) && r < |roots| && roots[r] != 0) ==> pr != NONE
      ensures pr != NONE ==>
                && 0 <= pr < TOTAL_PAGEREFS == |old(used)| && !old(used)[pr] && pr !in held.slots && pr in reserved
                && |roots| == NUM_PAGEREFPAGES && roots[RootOf(pr)] != 0
      ensures alone && pr != NONE ==>
                FirstRoot(old(numinuse), RootOf(pr)) && DescriptorPage(old(roots), old(kpages), roots, kpages, RootOf(pr))
    {
      hide Kept, NoneIdle, Upheld, Untouched;
      ghost var h0 := State();
      RootsShape(h0);
      pr := ReserveSlot();
      if pr == NONE {
        RespectsSame(h0, State(), held);
        return;
      }
      ReserveRespects(h0, pr, held);
      ghost var h1 := State();
      RootsShape(h1);
      var root := RootOf(pr);
      if roots[root] == 0 {
        WithUpheld(h1, held, {}, {pr});
        AllocPageRefPage(root, memory, With(held, {}, {pr}), alone);
        RespectsPart(h1, State(), held, {}, {pr});
        RespectsTwice(h0, h1, State(), held);
        WithUpheld(State(), held, {}, {pr});
      }
      if roots[root] == 0 {
        pr := NONE;
      }
    }

    /** Makes each block of a page point to the one before it; fl is the last. */
    method ChainBlocks(prpage: nat, k: nat) returns (nfree: nat, fl: nat)
      requires k < NSIZES
      modifies this`mem
      ensures nfree == Blocks(k) && fl == prpage + (Blocks(k) - 1) * SizeOf(k)
      ensures ChainedTo(old(mem), mem, prpage, k, nfree)
    {
      hide SizeOf, Blocks, ChainedTo;
      SizeFacts(k);
      nfree := PAGE_SIZE / SizeOf(k);
      fl := prpage;
      mem := mem[fl := 0];
      ChainStart(old(mem), mem, prpage, k);
      for i := 1 to nfree
        invariant fl == BlockAddr(prpage, k, i - 1)
        invariant ChainedTo(old(mem), mem, prpage, k, i)
      {
        ghost var before := mem;
        fl := BlockAddr(prpage, k, i);
        mem := mem[fl := BlockAddr(prpage, k, i - 1)];
        ChainStep(old(mem), before, mem, prpage, k, i);
        assert fl != mem[fl];
      }
    }

    /** Chains the blocks of a new page and puts its descriptor on both lists. */
    method SetUpPage(pr: nat, prpage: nat, k: nat)
      requires Valid() && k < NSIZES && pr < TOTAL_PAGEREFS && pr in reserved
      requires prpage in use && use[prpage] == Pending && prpage in kpages && kpages[prpage] == 1
      requires |roots| == NUM_PAGEREFPAGES && roots[RootOf(pr)] != 0
      modifies this`refs, this`sizebases, this`allbase, this`mem, this`all, this`same, this`free, this`use, this`reserved
      ensures Kept(State()) && Shape(old(State())) && State() == Added(old(State()), pr, prpage, k, mem)
      ensures WrittenIn(old(mem), mem, prpage, PAGE_SIZE)
      ensures pr in all && pr < |refs| && refs[pr].blktype == k && refs[pr].page == prpage && FreeOf(State(), pr) != []
      ensures forall s :: s in all && s != pr ==> |FreeOf(State(), s)| < Blocks(RefOf(State(), s).blktype)
    {
      hide Kept, NoneIdle, SizeOf, Blocks, ChainedTo, BlockAddr, Added, WrittenIn, Below, Cons, Down, FreeOf, RootOf;
      ghost var h := State();
      RootsShape(h);
      AddressFacts(h, prpage);
      var nfree, fl := ChainBlocks(prpage, k);
      refs := refs[pr := PageRef(sizebases[k], allbase, prpage, k, fl - prpage, nfree)];
      sizebases := sizebases[k := pr];
      allbase := pr;
      all, same := Cons(pr, all), same[k := Cons(pr, same[k])];
      free, use, reserved := free[pr := Down(nfree)], use[prpage := HeapPage(pr)], reserved - {pr};
      AddedIs(h, State(), pr, prpage, k);
      ChainedMeans(h.mem, mem, prpage, k);
      AddPage(h, pr, prpage, k, mem);
      AddIdle(h, pr, prpage, k, mem);
    }

    /** A block from a page that has just been got, once there is a descriptor for it. */
    method TakeFromNew(pr: nat, prpage: nat, k: nat, sz: nat, ghost held: Claim) returns (ptr: nat)
      requires Valid() && Best(k, sz) && pr < TOTAL_PAGEREFS && pr in reserved && pr !in held.slots
      requires Upheld(State(), With(held, {prpage}, {})) && prpage !in held.pages
      requires |roots| == NUM_PAGEREFPAGES && roots[RootOf(pr)] != 0
      modifies this`refs, this`sizebases, this`allbase, this`mem, this`all, this`same, this`free, this`use, this`reserved, this`live
      ensures Valid() && Respects(old(State()), State(), held)
      ensures ptr != 0 && ptr !in held.blocks && ptr in live && live[ptr] == sz && OnBestPage(State(), ptr, sz)
      ensures PageOf(ptr) == prpage && live == old(live)[ptr := sz]
    {
      hide Kept, NoneIdle, SizeOf, Blocks, Best, Upheld, Untouched, Added, WrittenIn, RootOf;
      BestOnly(sz);
      ghost var h0 := State();
      WithUpheld(h0, held, {prpage}, {});
      SetUpPage(pr, prpage, k);
      ghost var h1 := State();
      AddRespects(h0, pr, prpage, k, mem, held);
      ptr := TakeFirst(pr, sz);
      TakeRespects(h1, pr, sz, held);
      RespectsTwice(h0, h1, State(), held);
    }

    /** Gives back a page for which there is no descriptor, with the spinlock dropped. */
    method GiveUpPage(prpage: nat, ghost held: Claim, ghost alone: bool)
      requires Valid() && Upheld(State(), With(held, {prpage}, {})) && prpage !in held.pages && prpage !in held.large
      modifies this
      ensures Valid() && Respects(old(State()), State(), held)
      ensures alone ==> kpages == old(kpages) - {prpage} && live == old(live)
    {
      hide Kept, NoneIdle, Upheld, Untouched;
      ghost var h0 := State();
      OtherThreads(With(held, {prpage}, {}), alone);
      ghost var h1 := State();
      RespectsPart(h0, h1, held, {prpage}, {});
      WithUpheld(h1, held, {prpage}, {});
      FreeKpages(prpage);
      ReturnRespects(h1, prpage, held);
      RespectsTwice(h0, h1, State(), held);
    }

    /** A block from a new page. The spinlock is dropped while pages are got and given back. */
    method FromNewPage(sz: nat, blktype: nat, memory: bool, refMemory: bool, ghost held: Claim, ghost alone: bool) returns (ptr: nat)
      requires Valid() && Best(blktype, sz) && Upheld(State(), held)
      modifies this
      ensures Valid() && Respects(old(State()), State(), held)
      ensures ptr != 0 ==> ptr !in held.blocks && ptr in live && live[ptr] == sz && OnBestPage(State(), ptr, sz)
      ensures alone ==> (ptr == 0 <==> !memory || NoDescriptor(old(numinuse), old(roots), refMemory))
      ensures alone && ptr == 0 ==> kpages == old(kpages) && live == old(live)
      ensures alone && ptr != 0 ==>
                live == old(live)[ptr := sz] && NewPages(old(numinuse), old(roots), old(kpages), roots, kpages, PageOf(ptr))
    {
      hide Kept, NoneIdle, SizeOf, Blocks, Best, Upheld, Untouched, Vacant, OnBestPage, RootOf, NoDescriptor, FirstRoot, DescriptorPage;
      ghost var h0 := State();
      OtherThreads(held, alone);
      ghost var h1 := State();
      var prpage := AllocKpages(1, memory, Pending);
      if prpage == 0 {
        return 0;
      }
      GrantRespects(h1, prpage, 1, Pending, held);
      NotClaimed(h1, prpage, held);
      ghost var h2, own := State(), With(held, {prpage}, {});
      WithUpheld(h2, held, {prpage}, {});
      OtherThreads(own, alone);
      ghost var h3 := State();
      RespectsPart(h2, h3, held, {prpage}, {});
      RespectsTwice(h0, h1, h2, held);
      RespectsTwice(h0, h2, h3, held);
      var pr := AllocPageRef(refMemory, own, alone);
      ghost var h4 := State();
      RespectsPart(h3, h4, held, {prpage}, {});
      RespectsTwice(h0, h3, h4, held);
      if pr == NONE {
        GiveUpPage(prpage, held, alone);
        RespectsTwice(h0, h4, State(), held);
        return 0;
      }
      ptr := TakeFromNew(pr, prpage, blktype, sz, held);
      RespectsTwice(h0, h4, State(), held);
    }

    /** A block from a page of the smallest type that is large enough. If such a page has a free
        block, it cannot fail and takes no new page. The block handed out is none of those that anyone
        has kept hold of. Where no other thread comes in between, it fails only for want of a page or of
        a descriptor. */
    method SubpageKmalloc(sz: nat, memory: bool, refMemory: bool, ghost held: Claim, ghost alone: bool) returns (ptr: nat)
      requires Valid() && sz <= LARGEST_SUBPAGE_SIZE && Upheld(State(), held)
      modifies this
      ensures Valid() && Respects(old(State()), State(), held)
      ensures ptr != 0 ==> ptr !in held.blocks && ptr in live && live[ptr] == sz && OnBestPage(State(), ptr, sz)
      ensures old(RoomFor(State(), sz)) ==> ptr != 0 && ptr !in old(live) && live == old(live)[ptr := sz] && kpages == old(kpages)
      ensures alone ==>
                (ptr == 0 <==> !old(RoomFor(State(), sz)) && (!memory || NoDescriptor(old(numinuse), old(roots), refMemory)))
      ensures alone && ptr == 0 ==> kpages == old(kpages) && live == old(live)
      ensures alone && ptr != 0 && !old(RoomFor(State(), sz)) ==>
                live == old(live)[ptr := sz] && NewPages(old(numinuse), old(roots), old(kpages), roots, kpages, PageOf(ptr))
    {
      hide Kept, NoneIdle, SizeOf, Blocks, Best, Upheld, Untouched, NoDescriptor;
      BestOnly(sz);
      ghost var h := State();
      var blktype := BlockType(sz);
      var pr := FindPage(blktype);
      if pr != NONE {
        IdleMeans(State());
        ptr := TakeFirst(pr, sz);
        TakeRespects(h, pr, sz, held);
        return;
      }
      ptr := FromNewPage(sz, blktype, memory, refMemory, held, alone);
    }

    /** Small requests get a block, and large ones whole pages. What is handed out is in use with the
        size asked for, and is nothing that anyone has kept hold of; that stays as it was. A large request
        fails exactly when alloc_kpages has no pages; so does a small one, where no other thread comes in
        between, or for want of a descriptor, if it needs a new page. A large request gets as many pages as
        its size needs, unless rounding the size up overflows: then it gets none. */
    method Kmalloc(sz: nat, memory: bool, refMemory: bool, ghost held: Claim, ghost alone: bool) returns (ptr: nat)
      requires Valid() && Upheld(State(), held) && sz < SIZE_LIMIT
      modifies this
      ensures Valid() && Respects(old(State()), State(), held)
      ensures ptr != 0 && sz < LARGEST_SUBPAGE_SIZE ==>
                ptr !in held.blocks && ptr in live && live[ptr] == sz && OnBestPage(State(), ptr, sz)
      ensures sz < LARGEST_SUBPAGE_SIZE && old(RoomFor(State(), sz)) ==>
                ptr != 0 && ptr !in old(live) && live == old(live)[ptr := sz] && kpages == old(kpages)
      ensures ptr != 0 && LARGEST_SUBPAGE_SIZE <= sz <= SIZE_LIMIT - PAGE_SIZE ==>
                && ptr !in held.large && ptr !in old(use) && use == old(use)[ptr := Large(sz)] && live == old(live)
                && ptr in kpages && kpages == old(kpages)[ptr := kpages[ptr]] && Vacant(old(kpages), ptr, kpages[ptr])
                && (kpages[ptr] - 1) * PAGE_SIZE < sz <= kpages[ptr] * PAGE_SIZE
      ensures sz > SIZE_LIMIT - PAGE_SIZE ==> State() == old(State())
      ensures sz >= LARGEST_SUBPAGE_SIZE ==> ptr % PAGE_SIZE == 0
      ensures sz >= LARGEST_SUBPAGE_SIZE ==> (ptr == 0 <==> !memory) && (ptr == 0 ==> State() == old(State()))
      ensures sz < LARGEST_SUBPAGE_SIZE && alone ==>
                (ptr == 0 <==> !old(RoomFor(State(), sz)) && (!memory || NoDescriptor(old(numinuse), old(roots), refMemory)))
      ensures sz < LARGEST_SUBPAGE_SIZE && alone && ptr == 0 ==> kpages == old(kpages) && live == old(live)
      ensures sz < LARGEST_SUBPAGE_SIZE && alone && ptr != 0 && !old(RoomFor(State(), sz)) ==>
                live == old(live)[ptr := sz] && NewPages(old(numinuse), old(roots), old(kpages), roots, kpages, PageOf(ptr))
    {
      hide Inv, Upheld, Untouched, OnBestPage, RoomFor, NoDescriptor;
      ghost var h := State();
      if sz >= LARGEST_SUBPAGE_SIZE {
        var npages := (sz + PAGE_SIZE - 1) % SIZE_LIMIT / PAGE_SIZE;
        if npages == 0 {
          ptr := AllocNoKpages(memory);
          RespectsSame(h, State(), held);
          return;
        }
        ptr := AllocKpages(npages, memory, Large(sz));
        if ptr != 0 {
          GrantRespects(h, ptr, npages, Large(sz), held);
          NotClaimed(h, ptr, held);
        } else {
          RespectsSame(h, State(), held);
        }
        return;
      }
      ptr := SubpageKmalloc(sz, memory, refMemory, held, alone);
    }

    // -------------------------------------------------------------- freeing

    /** Looks along the list of all pages for the one an address lies on. */
    method FindOwner(ptr: nat) returns (pr: int)
      requires Valid()
      ensures pr == NONE ==> forall s :: s in all ==> !(RefOf(State(), s).page <= ptr < RefOf(State(), s).page + PAGE_SIZE)
      ensures pr != NONE ==> 0 <= pr < |refs| && pr in all && refs[pr].page <= ptr < refs[pr].page + PAGE_SIZE
    {
      hide Slots, Counts, Lives, Uses, NoneIdle, PageSound, ListsType;
      ghost var h, i := State(), 0;
      pr := allbase;
      while pr != NONE
        invariant 0 <= i <= |all| && pr == Head(all, i)
        invariant forall j :: 0 <= j < i ==> !(RefOf(h, all[j]).page <= ptr < RefOf(h, all[j]).page + PAGE_SIZE)
        decreases |all| - i
      {
        assert all[i] in all && refs[pr] == RefOf(h, pr);
        assert refs[pr].blktype < NSIZES;
        if refs[pr].page <= ptr < refs[pr].page + PAGE_SIZE {
          return;
        }
        assert AllNexts(refs)[all[i]] == Head(all, i + 1);
        pr := refs[pr].nextAll;
        i := i + 1;
      }
    }

    /** Overwrites a block to make uses of dangling pointers show. */
    method FillDeadbeef(addr: nat, len: nat)
      modifies this`mem
      ensures WrittenIn(old(mem), mem, addr, len)
    {
      for i := 0 to len / 4
        invariant WrittenIn(old(mem), mem, addr, len)
      {
        WrittenOnce(old(mem), mem, addr, len, addr + 4 * i, DEADBEEF);
        mem := mem[addr + 4 * i := DEADBEEF];
      }
    }

    /** Overwrites a block and has its first word lead to the first free block of its page. */
    method LinkBlock(pr: nat, ptr: nat, ghost b: nat)
      requires Kept(State()) && pr in all && pr < |refs| && b < Blocks(refs[pr].blktype)
      requires ptr == BlockOf(State(), pr, b) && ptr in live
      modifies this`mem
      ensures Kept(State()) && WrittenIn(old(mem), mem, ptr, SizeOf(refs[pr].blktype))
      ensures ptr in mem && mem[ptr] == if refs[pr].offset == INVALID_OFFSET then 0 else refs[pr].page + refs[pr].offset
    {
      hide Kept, BlockOf, SizeOf, Blocks, WrittenIn;
      ghost var h := State();
      BlockFacts(h, pr, b);
      var k, prpage := refs[pr].blktype, refs[pr].page;
      FillDeadbeef(ptr, SizeOf(k));
      ghost var filled := mem;
      mem := mem[ptr := if refs[pr].offset == INVALID_OFFSET then 0 else prpage + refs[pr].offset];
      WrittenTwice(h.mem, filled, mem, ptr, SizeOf(k));
      WriteBlock(h, mem, pr, b);
      assert State() == h.(mem := mem);
    }

    /** Puts a block in front of its page's free list. */
    method PutFirst(pr: nat, ptr: nat, ghost b: nat)
      requires Kept(State()) && pr in all && pr < |refs| && b < Blocks(refs[pr].blktype)
      requires ptr == BlockOf(State(), pr, b) && ptr in live
      modifies this`mem, this`refs, this`free, this`live
      ensures Kept(State()) && State() == Given(old(State()).(mem := mem), pr, b) && live == old(live) - {ptr}
      ensures WrittenIn(old(mem), mem, ptr, SizeOf(old(refs)[pr].blktype))
      ensures FreeOf(State(), pr) == [b] + FreeOf(old(State()), pr)
    {
      hide Kept, BlockOf, SizeOf, Blocks, WrittenIn;
      ghost var h := State();
      BlockFacts(h, pr, b);
      LinkBlock(pr, ptr, b);
      ghost var u := State();
      assert u == h.(mem := mem);
      SameBlockOf(h, u, pr, b);
      GiveBlock(u, pr, b);
      refs := refs[pr := refs[pr].(offset := ptr - refs[pr].page, nfree := refs[pr].nfree + 1)];
      free := free[pr := [b] + FreeOf(u, pr)];
      live := live - {ptr};
      assert State() == Given(u, pr, b);
    }

    /** Takes a descriptor off the list of its block type: whatever link led to it, the base or
        that of the descriptor before, is redirected. */
    method RemoveSame(pr: nat, k: nat)
      requires Shape(State()) && Lists(State()) && k < NSIZES && pr in same[k] && pr in all
      modifies this`refs, this`sizebases, this`same
      ensures Shape(State()) && SameButLinks(old(refs), refs) && AllNexts(refs) == AllNexts(old(refs))
      ensures sizebases == old(sizebases)[k := sizebases[k]] && same == old(same)[k := same[k]]
      ensures Linked(sizebases[k], SameNexts(refs), same[k])
      ensures forall s :: s in same[k] <==> s in old(same)[k] && s != pr
      ensures forall s :: 0 <= s < |refs| && s !in old(same)[k] ==> refs[s] == old(refs)[s]
    {
      ghost var list, next := same[k], SameNexts(refs);
      ghost var i := 0;
      var prev, cur := NONE, sizebases[k];
      while cur != NONE && cur != pr
        invariant 0 <= i <= |list| && cur == Head(list, i) && prev == (if i == 0 then NONE else list[i - 1])
        invariant forall j :: 0 <= j < i ==> list[j] != pr
        decreases |list| - i
      {
        assert next[list[i]] == Head(list, i + 1);
        prev := cur;
        cur := refs[cur].nextSame;
        i := i + 1;
      }
      assert cur == pr && i < |list|;
      LinkedRemove(sizebases[k], next, list, i);
      WithoutHolds(list, i);
      if prev == NONE {
        sizebases := sizebases[k := refs[pr].nextSame];
      } else {
        refs := refs[prev := refs[prev].(nextSame := refs[pr].nextSame)];
      }
      assert SameNexts(refs) == Unlinked(next, list, i);
      assert AllNexts(refs) == AllNexts(old(refs));
      same := same[k := Without(list, i)];
    }

    /** The same for the list of all pages. */
    method RemoveAll(pr: nat)
      requires Shape(State()) && Linked(allbase, AllNexts(refs), all) && pr in all
      modifies this`refs, this`allbase, this`all
      ensures Shape(State()) && SameButLinks(old(refs), refs) && SameNexts(refs) == SameNexts(old(refs))
      ensures Linked(allbase, AllNexts(refs), all) && forall s :: s in all <==> s in old(all) && s != pr
    {
      ghost var list, next := all, AllNexts(refs);
      ghost var i := 0;
      var prev, cur := NONE, allbase;
      while cur != NONE && cur != pr
        invariant 0 <= i <= |list| && cur == Head(list, i) && prev == (if i == 0 then NONE else list[i - 1])
        invariant forall j :: 0 <= j < i ==> list[j] != pr
        decreases |list| - i
      {
        assert next[list[i]] == Head(list, i + 1);
        prev := cur;
        cur := refs[cur].nextAll;
        i := i + 1;
      }
      assert cur == pr && i < |list|;
      LinkedRemove(allbase, next, list, i);
      WithoutHolds(list, i);
      if prev == NONE {
        allbase := refs[pr].nextAll;
      } else {
        refs := refs[prev := refs[prev].(nextAll := refs[pr].nextAll)];
      }
      assert AllNexts(refs) == Unlinked(next, list, i);
      assert SameNexts(refs) == SameNexts(old(refs));
      all := Without(list, i);
    }

    method RemoveLists(pr: nat)
      requires Kept(State()) && pr in all && pr < |refs|
      modifies this`refs, this`sizebases, this`same, this`allbase, this`all
      ensures Shape(State()) && Lists(State()) && SameContents(old(State()), State())
      ensures forall s :: s in all <==> s in old(all) && s != pr
    {
      hide Slots, Counts, Uses, Lives, PageSound, Linked, AllNexts, SameNexts;
      ghost var h := State();
      var k := refs[pr].blktype;
      assert ListsType(h, h.same[k], k);
      RemoveSame(pr, k);
      ghost var mid := refs;
      RemoveAll(pr);
      ghost var h' := State();
      LinksOnly(h, h', mid);
      forall j | 0 <= j < NSIZES
        ensures Linked(sizebases[j], SameNexts(refs), same[j]) && ListsType(h', same[j], j)
      {
        assert ListsType(h, h.same[j], j);
        if j != k {
          forall s | s in h.same[j]
            ensures s < |h.refs| && s !in h.same[k] && mid[s] == h.refs[s]
          {
          }
          OtherList(h, mid, j);
        }
        RetypedList(h, h', h.same[j], same[j], j, pr);
      }
    }

    /** Marks a descriptor as not in use any more. The search for its page goes past any page of
        descriptors that does not exist, asserting that it has none in use. */
    method FreePageRef(p: nat) returns (ok: bool)
      requires Shape(State()) && Counts(State()) && p < TOTAL_PAGEREFS && used[p] && roots[RootOf(p)] != 0
      modifies this`used, this`numinuse
      ensures ok <==> !Missing(State(), p)
      ensures !ok ==> State() == old(State())
      ensures ok ==> used == old(used)[p := false] && |numinuse| == NUM_PAGEREFPAGES
      ensures ok ==> forall r :: 0 <= r < NUM_PAGEREFPAGES ==>
                numinuse[r] + (if r == RootOf(p) then 1 else 0) == old(numinuse)[r]
    {
      hide Trues, RootBits;
      UsedCounts(State(), p);
      for whichroot := 0 to NUM_PAGEREFPAGES
        invariant State() == old(State()) && whichroot <= RootOf(p)
        invariant forall r :: 0 <= r < whichroot ==> roots[r] != 0
      {
        if roots[whichroot] == 0 {
          if numinuse[whichroot] != 0 {
            return false;
          }
          assert false;
        } else if whichroot * NPAGEREFS_PER_PAGE <= p < (whichroot + 1) * NPAGEREFS_PER_PAGE {
          used := used[p := false];
          assert numinuse[whichroot] > 0;
          numinuse := numinuse[whichroot := numinuse[whichroot] - 1];
          return true;
        }
      }
      assert false;
    }

    /** Takes a page all of whose blocks are free off the lists, and frees its descriptor. */
    method Unlist(pr: nat) returns (ok: bool)
      requires Kept(State()) && pr in all && pr < |refs| && pr < TOTAL_PAGEREFS && |FreeOf(State(), pr)| == Blocks(refs[pr].blktype)
      requires forall s :: s in all && s != pr ==> |FreeOf(State(), s)| < Blocks(RefOf(State(), s).blktype)
      modifies this`refs, this`sizebases, this`same, this`allbase, this`all, this`used, this`numinuse, this`free, this`use
      ensures ok <==> !Missing(old(State()), pr)
      ensures ok ==> Valid() && use == old(use)[old(refs)[pr].page := Pending] && pr !in all
    {
      hide Lists, Slots, Counts, Pages, Lives, Uses, Dropped, Blocks, SizeOf;
      ghost var h := State();
      DescriptorFacts(h, pr);
      WhollyFree(h, pr);
      var prpage := refs[pr].page;
      RemoveLists(pr);
      ghost var mid := State();
      CountsDependOn(h, mid);
      ok := FreePageRef(pr);
      if !ok {
        return;
      }
      free := free - {pr};
      use := use[prpage := Pending];
      ghost var h' := State();
      ListsDependOn(mid, h');
      DroppedIs(h, h', pr);
      Drop(h, h', pr);
      DropIdle(h, h', pr);
    }

    /** Gives up a page all of whose blocks are free. The spinlock is free before the page is returned. */
    method DropPage(pr: nat, ghost held: Claim, ghost alone: bool) returns (ok: bool)
      requires Kept(State()) && pr in all && pr < |refs| && pr < TOTAL_PAGEREFS && |FreeOf(State(), pr)| == Blocks(refs[pr].blktype)
      requires forall s :: s in all && s != pr ==> |FreeOf(State(), s)| < Blocks(RefOf(State(), s).blktype)
      requires Upheld(State(), held)
      modifies this
      ensures ok <==> !Missing(old(State()), pr)
      ensures ok ==> Valid() && Respects(old(State()), State(), held)
      ensures ok ==> old(refs)[pr].page !in use && old(refs)[pr].page !in kpages
      ensures ok && alone ==> live == old(live) && use == old(use) - {old(refs)[pr].page} && kpages == old(kpages) - {old(refs)[pr].page}
    {
      hide Kept, NoneIdle, Missing, Blocks, Upheld, Untouched;
      ghost var h := State();
      var prpage := refs[pr].page;
      OwnPage(h, pr);
      OnePage(h, pr);
      HeapPageNotClaimed(h, prpage, held);
      ok := Unlist(pr);
      if ok {
        ghost var h1, own := State(), With(held, {prpage}, {});
        DropRespects(h, h1, prpage, held);
        WithUpheld(h1, held, {prpage}, {});
        OtherThreads(own, alone);
        ghost var h2 := State();
        RespectsPart(h1, h2, held, {prpage}, {});
        RespectsTwice(h, h1, h2, held);
        WithUpheld(h2, held, {prpage}, {});
        FreeKpages(prpage);
        ReturnRespects(h2, prpage, held);
        RespectsTwice(h, h2, State(), held);
      }
    }

    /** Frees a block of a managed page, and the page with it if it was the last block in use there. */
    method SubpageKfree(ptr: nat, ghost held: Claim, ghost alone: bool) returns (r: Freed)
      requires Valid() && (ptr in live || (ptr in use && use[ptr].Large?))
      requires Upheld(State(), held) && ptr !in held.blocks
      modifies this
      ensures r == NotOnAnyPage <==> ptr !in old(live)
      ensures r == NotOnAnyPage ==> State() == old(State())
      ensures r == AssertionFailed <==> ptr in old(live) && old(LastOnPage(State(), ptr) && PagelessBefore(State(), ptr))
      ensures r == Freed ==> Valid() && Respects(old(State()), State(), held)
      ensures r == Freed && old(LastOnPage(State(), ptr)) ==> PageOf(ptr) !in use && PageOf(ptr) !in kpages
      ensures r == Freed && old(LastOnPage(State(), ptr)) && alone ==>
                live == old(live) - {ptr} && kpages == old(kpages) - {PageOf(ptr)} && use == old(use) - {PageOf(ptr)}
      ensures r == Freed && !old(LastOnPage(State(), ptr)) ==>
                live == old(live) - {ptr} && kpages == old(kpages) && use == old(use)
    {
      hide Kept, NoneIdle, LastOnPage, PagelessBefore, Missing, SizeOf, Blocks, BlockOf, Upheld, Untouched, WrittenIn;
      ghost var h := State();
      var pr := FindOwner(ptr);
      OwnerFacts(h, ptr, pr);
      if pr == NONE {
        return NotOnAnyPage;
      }
      var k, offset := refs[pr].blktype, ptr - refs[pr].page;
      assert offset < PAGE_SIZE && offset % SizeOf(k) == 0;
      ghost var s, b := WhichBlock(h, ptr);
      IdleMeans(h);
      CountsBlocks(h, pr);
      OwnPage(h, s);
      PutFirst(pr, ptr, b);
      ghost var h1 := State();
      GiveRespects(h, mem, pr, b, held);
      GivenFacts(h, h1, pr, b);
      MissingSame(h, h1, pr);
      assert refs[pr].nfree <= PAGE_SIZE / SizeOf(k);
      if refs[pr].nfree == PAGE_SIZE / SizeOf(k) {
        var ok := DropPage(pr, held, alone);
        if ok {
          RespectsTwice(h, h1, State(), held);
        }
        r := if ok then Freed else AssertionFailed;
      } else {
        r := Freed;
      }
    }

    /** Frees what kmalloc returned: a block goes back to its page, anything else back as whole pages.
        What anyone else has kept hold of stays as it was. */
    method Kfree(ptr: nat, ghost held: Claim, ghost alone: bool) returns (r: Freed)
      requires Valid() && (ptr == 0 || ptr in live || (ptr in use && use[ptr].Large?))
      requires Upheld(State(), held) && ptr !in held.blocks && ptr !in held.large
      modifies this
      ensures r != NotOnAnyPage && (r == Freed ==> Valid() && Respects(old(State()), State(), held))
      ensures ptr == 0 ==> State() == old(State()) && r == Freed
      ensures ptr != 0 && ptr !in old(live) ==> r == Freed && State() == Returned(old(State()), ptr)
      ensures r == AssertionFailed <==> ptr in old(live) && old(LastOnPage(State(), ptr) && PagelessBefore(State(), ptr))
      ensures ptr in old(live) && r == Freed && old(LastOnPage(State(), ptr)) ==> PageOf(ptr) !in use && PageOf(ptr) !in kpages
      ensures ptr in old(live) && r == Freed && old(LastOnPage(State(), ptr)) && alone ==>
                live == old(live) - {ptr} && kpages == old(kpages) - {PageOf(ptr)} && use == old(use) - {PageOf(ptr)}
      ensures ptr in old(live) && r == Freed && !old(LastOnPage(State(), ptr)) ==>
                live == old(live) - {ptr} && kpages == old(kpages) && use == old(use)
    {
      hide Kept, NoneIdle, LastOnPage, PagelessBefore, Upheld, Untouched;
      ghost var h := State();
      NullIsNotLive(h);
      RespectsSame(h, h, held);
      if ptr == 0 {
        return Freed;
      }
      r := SubpageKfree(ptr, held, alone);
      if r == NotOnAnyPage {
        AddressFacts(State(), ptr);
        assert ptr % PAGE_SIZE == 0;
        LargeNotClaimed(h, ptr, held);
        FreeKpages(ptr);
        ReturnRespects(h, ptr, held);
        r := Freed;
      }
    }

    /** The owner of a block writes into it. */
    method ClientWrite(a: nat, offset: nat, value: nat, ghost held: Claim)
      requires Valid() && a in live && offset < live[a] && Upheld(State(), held) && a !in held.blocks
      modifies this`mem
      ensures Valid() && State() == old(State()).(mem := old(mem)[a + offset := value]) && Respects(old(State()), State(), held)
    {
      hide Kept, NoneIdle, SizeOf, Blocks, BlockOf, Upheld, Untouched, WrittenIn;
      ghost var h := State();
      ghost var s, b := WhichBlock(h, a);
      WrittenNothing(mem, a, SizeOf(RefOf(h, s).blktype));
      WrittenOnce(mem, mem, a, SizeOf(RefOf(h, s).blktype), a + offset, value);
      WriteBlock(h, mem[a + offset := value], s, b);
      WriteRespects(h, mem[a + offset := value], s, b, held);
      IdleSame(h, h.(mem := mem[a + offset := value]));
      mem := mem[a + offset := value];
    }
  }

  /** The first page of descriptors that is not full. */
  ghost predicate FirstRoot(numinuse: seq<nat>, r: nat) {
    r < |numinuse| && numinuse[r] < NPAGEREFS_PER_PAGE && forall q :: 0 <= q < r ==> numinuse[q] == NPAGEREFS_PER_PAGE
  }

  /** All descriptors are marked in use, or the first that is not lies on a page that does not exist and
      cannot be got. */
  ghost predicate NoDescriptor(numinuse: seq<nat>, roots: seq<nat>, memory: bool) {
    || (forall r :: 0 <= r < |numinuse| ==> numinuse[r] == NPAGEREFS_PER_PAGE)
    || (!memory && exists r: nat :: FirstRoot(numinuse, r) && r < |roots| && roots[r] == 0)
  }

  /** The page of descriptors r was there, or one page has been got for it; nothing else has been. */
  predicate DescriptorPage(roots: seq<nat>, kpages: map<nat, nat>, roots': seq<nat>, kpages': map<nat, nat>, r: nat) {
    && r < |roots| && |roots'| == |roots| && roots' == roots[r := roots'[r]]
    && if roots[r] != 0 then roots' == roots && kpages' == kpages
       else roots'[r] !in kpages && kpages' == kpages[roots'[r] := 1]
  }

  /** One page has been got for blocks, and, if it did not exist, the page for its descriptor. */
  ghost predicate NewPages(numinuse: seq<nat>, roots: seq<nat>, kpages: map<nat, nat>,
                           roots': seq<nat>, kpages': map<nat, nat>, page: nat)
  {
    page !in kpages && exists r: nat :: FirstRoot(numinuse, r) && DescriptorPage(roots, kpages[page := 1], roots', kpages', r)
  }

  /** An address beyond all pages in use. */
  lemma {:induction false} Beyond(kpages: map<nat, nat>) returns (va: nat)
    ensures va > 0 && va % PAGE_SIZE == 0 && forall p :: p in kpages ==> p + kpages[p] * PAGE_SIZE <= va
    decreases |kpages|
  {
    va := PAGE_SIZE;
    if kpages != map[] {
      var p: nat :| p in kpages;
      var rest := kpages - {p};
      var a := Beyond(rest);
      var b := (p + kpages[p] * PAGE_SIZE) / PAGE_SIZE * PAGE_SIZE + PAGE_SIZE;
      va := if a > b then a else b;
      assert forall q :: q in kpages ==> q == p || (q in rest && rest[q] == kpages[q]);
    }
  }

  lemma SomewhereVacant(kpages: map<nat, nat>, n: nat)
    requires n > 0
    ensures exists va: nat :: Vacant(kpages, va, n)
  {
    var va := Beyond(kpages);
    assert Vacant(kpages, va, n);
  }

  lemma VacantIsPositive(kpages: map<nat, nat>, va: nat, n: nat)
    requires Vacant(kpages, va, n)
    ensures va > 0
  {
  }

  /** The smallest block type that is large enough. */
  predicate Best(k: nat, sz: nat) {
    k < NSIZES && sz <= SizeOf(k) && forall j: nat :: j < k ==> SizeOf(j) < sz
  }

  lemma BestOnly(sz: nat)
    ensures forall j: nat, k: nat :: Best(j, sz) && Best(k, sz) ==> j == k
    ensures forall k: nat :: Best(k, sz) ==> k < NSIZES && sz <= SizeOf(k)
  {
    hide SizeOf;
  }

  /** The block lies on a page of that type. */
  ghost predicate OnBestPage(h: Heap, a: nat, sz: nat) {
    PageOf(a) in h.use && h.use[PageOf(a)].HeapPage? && Best(RefOf(h, h.use[PageOf(a)].slot).blktype, sz)
  }

  /** A page of that type has a free block. */
  ghost predicate RoomFor(h: Heap, sz: nat) {
    exists s :: s in h.all && Best(RefOf(h, s).blktype, sz) && FreeOf(h, s) != []
  }

  lemma AllOfType(h: Heap, k: nat)
    requires Shape(h) && Lists(h) && k < NSIZES
    ensures forall s :: s in h.all && RefOf(h, s).blktype == k ==> exists i :: 0 <= i < |h.same[k]| && h.same[k][i] == s
  {
    hide RefOf;
    assert ListsType(h, h.same[k], k);
  }

  lemma FirstOnPage(h: Heap, s: nat)
    requires Kept(h) && s in h.all && FreeOf(h, s) != []
    ensures PageOf(FirstFree(h, s)) == RefOf(h, s).page && RefOf(h, s).page in h.use && h.use[RefOf(h, s).page] == HeapPage(s)
    ensures s < |h.refs|
  {
    hide Lists, Slots, Counts, Lives, Uses, FreeList, BlockAddr, BlockOf;
    FirstFreeFacts(h, s);
    OwnPage(h, s);
    UnfoldBlock(h, s, FreeOf(h, s)[0]);
    BlockPage(RefOf(h, s).page, RefOf(h, s).blktype, FreeOf(h, s)[0]);
  }

  lemma UsesCover(h: Heap)
    requires Kept(h)
    ensures h.use.Keys == h.kpages.Keys
  {
    hide Lists, Slots, Counts, Pages, Lives;
  }

  lemma OnePage(h: Heap, s: nat)
    requires Kept(h) && s in h.all
    ensures RefOf(h, s).page in h.kpages && h.kpages[RefOf(h, s).page] == 1
  {
    hide Lists, Slots, Counts, Pages, Lives;
    assert UseFits(h, RefOf(h, s).page);
  }

  lemma IdleSame(h: Heap, h': Heap)
    requires NoneIdle(h) && h'.all == h.all && h'.refs == h.refs && h'.free == h.free
    ensures NoneIdle(h')
  {
    hide Blocks;
  }

  /** Before anything has been allocated. */
  ghost function Empty(): Heap {
    Heap(seq(TOTAL_PAGEREFS, _ => NoRef()), seq(TOTAL_PAGEREFS, _ => false),
         seq(NUM_PAGEREFPAGES, _ => 0), seq(NUM_PAGEREFPAGES, _ => 0),
         seq(NSIZES, _ => NONE), NONE, map[], map[], [], seq(NSIZES, _ => []), map[], map[], map[], {})
  }

  lemma EmptyHeap()
    ensures Inv(Empty())
  {
    hide Trues;
    var h := Empty();
    forall r | 0 <= r < NUM_PAGEREFPAGES
      ensures Trues(RootBits(h.used, r)) == 0
    {
      TruesExtremes(RootBits(h.used, r));
    }
  }

  lemma CountsFree(h: Heap, s: nat)
    requires Pages(h) && s in h.all
    ensures RefOf(h, s).nfree == |FreeOf(h, s)|
  {
    assert PageSound(h.mem, RefOf(h, s), FreeOf(h, s));
  }

  lemma TakeFacts(h: Heap, s: nat)
    requires Kept(h) && s in h.all && FreeOf(h, s) != []
    ensures var r, next := RefOf(h, s), WordOf(h.mem, FirstFree(h, s));
            && r.offset < PAGE_SIZE && FirstFree(h, s) in h.mem && r.nfree > 0 && r.page > 0 && s < |h.refs|
            && (next != 0 <==> r.nfree > 1) && (next != 0 ==> r.page <= next < r.page + PAGE_SIZE)
  {
    hide Lists, Slots, Counts, Lives, Uses, BlockAddr, FreeList;
    FirstFreeFacts(h, s);
  }

  /** With a block taken from it, a page is not wholly free. */
  lemma TakeIdle(h: Heap, s: nat, bytes: nat)
    requires Kept(h) && s in h.all && FreeOf(h, s) != []
    requires forall t :: t in h.all && t != s ==> |FreeOf(h, t)| < Blocks(RefOf(h, t).blktype)
    ensures NoneIdle(Taken(h, s, bytes))
  {
    hide Lists, Slots, Counts, Lives, Uses, BlockAddr, Threaded, Describes, Blocks, FirstFree;
    assert PageSound(h.mem, RefOf(h, s), FreeOf(h, s));
    AllFree(RefOf(h, s).blktype, FreeOf(h, s));
    var h' := Taken(h, s, bytes);
    forall t | t in h'.all
      ensures |FreeOf(h', t)| < Blocks(RefOf(h', t).blktype)
    {
      assert t != s ==> FreeOf(h', t) == FreeOf(h, t) && RefOf(h', t) == RefOf(h, t);
    }
  }

  lemma FullOrFree(h: Heap, r: nat)
    requires Shape(h) && Counts(h) && r < NUM_PAGEREFPAGES
    ensures h.numinuse[r] <= NPAGEREFS_PER_PAGE
    ensures h.numinuse[r] < NPAGEREFS_PER_PAGE ==>
              exists i :: 0 <= i < NPAGEREFS_PER_PAGE && !RootBits(h.used, r)[i]
  {
    TruesExtremes(RootBits(h.used, r));
  }

  lemma BitOf(used: seq<bool>, r: nat, i: nat)
    requires |used| == TOTAL_PAGEREFS && r < NUM_PAGEREFPAGES && i < NPAGEREFS_PER_PAGE
    ensures r * NPAGEREFS_PER_PAGE + i < TOTAL_PAGEREFS && RootOf(r * NPAGEREFS_PER_PAGE + i) == r
    ensures RootBits(used, r)[i] == used[r * NPAGEREFS_PER_PAGE + i]
  {
  }

  lemma AddressFacts(h: Heap, va: nat)
    requires Kept(h) && va in h.use
    ensures va > 0 && va % PAGE_SIZE == 0
  {
    AddressIsPositive(h, va);
  }

  lemma RootsShape(h: Heap)
    requires Kept(h)
    ensures Shape(h)
  {
  }

  lemma SizeFacts(k: nat)
    requires k < NSIZES
    ensures SizeOf(k) > 0 && Blocks(k) == PAGE_SIZE / SizeOf(k) >= 2
  {
  }

  /** The first i blocks of a page have been chained, and nothing outside the page written. */
  ghost predicate ChainedTo(mem0: map<nat, nat>, mem: map<nat, nat>, page: nat, k: nat, i: nat) {
    && WrittenIn(mem0, mem, page, PAGE_SIZE)
    && forall b :: 0 <= b < i ==> BlockAddr(page, k, b) in mem && mem[BlockAddr(page, k, b)] == Below(page, k, b)
  }

  lemma ChainStart(mem0: map<nat, nat>, mem: map<nat, nat>, page: nat, k: nat)
    requires mem == mem0[page := 0]
    ensures ChainedTo(mem0, mem, page, k, 1) && BlockAddr(page, k, 0) == page
  {
  }

  lemma ChainedMeans(mem0: map<nat, nat>, mem: map<nat, nat>, page: nat, k: nat)
    requires k < NSIZES && ChainedTo(mem0, mem, page, k, Blocks(k))
    ensures WrittenIn(mem0, mem, page, PAGE_SIZE)
    ensures forall b :: 0 <= b < Blocks(k) ==> BlockAddr(page, k, b) in mem && mem[BlockAddr(page, k, b)] == Below(page, k, b)
  {
    hide Below, BlockAddr, Blocks, WrittenIn;
  }

  function LastOffset(k: nat): nat {
    (Blocks(k) - 1) * SizeOf(k)
  }

  lemma AddedIs(h: Heap, h': Heap, s: nat, va: nat, k: nat)
    requires Shape(h) && k < NSIZES && s < TOTAL_PAGEREFS
    requires h'.refs == h.refs[s := PageRef(h.sizebases[k], h.allbase, va, k, LastOffset(k), Blocks(k))]
    requires h'.sizebases == h.sizebases[k := s] && h'.allbase == s && h'.all == Cons(s, h.all)
    requires h'.same == h.same[k := Cons(s, h.same[k])] && h'.free == h.free[s := Down(Blocks(k))]
    requires h'.use == h.use[va := HeapPage(s)] && h'.reserved == h.reserved - {s}
    requires h'.used == h.used && h'.numinuse == h.numinuse && h'.roots == h.roots
    requires h'.kpages == h.kpages && h'.live == h.live
    ensures h' == Added(h, s, va, k, h'.mem)
  {
  }

  lemma BelowIs(page: nat, k: nat, i: nat)
    requires i > 0
    ensures Below(page, k, i) == BlockAddr(page, k, i - 1)
  {
  }

  lemma ChainStep(mem0: map<nat, nat>, before: map<nat, nat>, mem: map<nat, nat>, page: nat, k: nat, i: nat)
    requires k < NSIZES && 0 < i < Blocks(k) && ChainedTo(mem0, before, page, k, i)
    requires mem == before[BlockAddr(page, k, i) := BlockAddr(page, k, i - 1)]
    ensures ChainedTo(mem0, mem, page, k, i + 1)
    ensures BlockAddr(page, k, i) != BlockAddr(page, k, i - 1)
  {
    hide SizeOf, Blocks, BlockAddr, Below;
    BelowIs(page, k, i);
    BlockInPage(page, k, i);
    BlocksApart(page, k, i - 1, i);
    forall b | 0 <= b < i + 1
      ensures BlockAddr(page, k, b) in mem && mem[BlockAddr(page, k, b)] == Below(page, k, b)
    {
      if b < i {
        BlocksApart(page, k, b, i);
        assert mem[BlockAddr(page, k, b)] == before[BlockAddr(page, k, b)];
      }
    }
    forall x: nat | x < page || page + PAGE_SIZE <= x
      ensures SameWord(mem0, mem, x)
    {
      assert SameWord(mem0, before, x);
    }
  }

  lemma AddIdle(h: Heap, s: nat, va: nat, k: nat, mem: map<nat, nat>)
    requires Shape(h) && k < NSIZES && s < TOTAL_PAGEREFS && NoneIdle(h)
    ensures var h' := Added(h, s, va, k, mem);
            forall t :: t in h'.all && t != s ==> |FreeOf(h', t)| < Blocks(RefOf(h', t).blktype)
  {
    hide Cons, Blocks, SizeOf;
    InCons(s, h.all);
  }

  lemma IdleMeans(h: Heap)
    requires NoneIdle(h)
    ensures forall s :: s in h.all ==> |FreeOf(h, s)| < Blocks(RefOf(h, s).blktype)
  {
  }

  ghost predicate SameButLinks(refs: seq<PageRef>, refs': seq<PageRef>) {
    && |refs'| == |refs|
    && forall s :: 0 <= s < |refs| ==> refs'[s] == refs[s].(nextSame := refs'[s].nextSame, nextAll := refs'[s].nextAll)
  }

  lemma WrittenOnce(mem: map<nat, nat>, before: map<nat, nat>, addr: nat, size: nat, a: nat, v: nat)
    requires WrittenIn(mem, before, addr, size) && addr <= a < addr + size
    ensures WrittenIn(mem, before[a := v], addr, size)
  {
    var after := before[a := v];
    forall x: nat | x < addr || addr + size <= x
      ensures SameWord(mem, after, x)
    {
      assert SameWord(mem, before, x);
    }
  }

  lemma WrittenTwice(mem: map<nat, nat>, filled: map<nat, nat>, mem': map<nat, nat>, addr: nat, size: nat)
    requires WrittenIn(mem, filled, addr, size) && size > 0 && forall x :: x != addr ==> SameWord(filled, mem', x)
    ensures WrittenIn(mem, mem', addr, size)
  {
    forall x: nat | x < addr || addr + size <= x
      ensures SameWord(mem, mem', x)
    {
      assert SameWord(mem, filled, x) && SameWord(filled, mem', x);
    }
  }

  lemma BlockFacts(h: Heap, s: nat, b: nat)
    requires Kept(h) && s in h.all && b < Blocks(RefOf(h, s).blktype)
    ensures BlockOf(h, s, b) == RefOf(h, s).page + b * SizeOf(RefOf(h, s).blktype)
    ensures SizeOf(RefOf(h, s).blktype) > 0 && RefOf(h, s).page > 0
  {
    hide Lists, Slots, Counts, Lives, Uses;
    assert PageSound(h.mem, RefOf(h, s), FreeOf(h, s));
  }

  lemma UsedCounts(h: Heap, p: nat)
    requires Shape(h) && Counts(h) && p < TOTAL_PAGEREFS && h.used[p]
    ensures RootOf(p) < NUM_PAGEREFPAGES && h.numinuse[RootOf(p)] > 0
    ensures forall r :: 0 <= r < RootOf(p) ==> h.roots[r] != 0 || h.numinuse[r] == NPAGEREFS_PER_PAGE
  {
    var r, i := RootOf(p), p % NPAGEREFS_PER_PAGE;
    BitOf(h.used, r, i);
    assert p == r * NPAGEREFS_PER_PAGE + i;
    TruesExtremes(RootBits(h.used, r));
  }

  lemma LinksOnly(h: Heap, h': Heap, mid: seq<PageRef>)
    requires SameButLinks(h.refs, mid) && SameButLinks(mid, h'.refs)
    ensures SameContents(h, h')
  {
    forall t: nat
      ensures RefOf(h', t) == RefOf(h, t).(nextSame := RefOf(h', t).nextSame, nextAll := RefOf(h', t).nextAll)
    {
    }
  }

  lemma OtherList(h: Heap, refs: seq<PageRef>, j: nat)
    requires Shape(h) && Lists(h) && j < NSIZES && |refs| == |h.refs|
    requires forall s :: s in h.same[j] ==> s < |h.refs| && refs[s] == h.refs[s]
    ensures Linked(h.sizebases[j], SameNexts(refs), h.same[j])
  {
    hide Linked;
    LinkedFrame(h.sizebases[j], SameNexts(h.refs), SameNexts(refs), h.same[j]);
  }

  lemma RetypedList(h: Heap, h': Heap, list: seq<nat>, list': seq<nat>, j: nat, pr: nat)
    requires ListsType(h, list, j) && SameContents(h, h')
    requires forall s :: s in h'.all <==> s in h.all && s != pr
    requires forall s :: s in list' <==> s in list && s != pr
    ensures ListsType(h', list', j)
  {
    hide RefOf;
  }

  /** No other block of the same page is in use. */
  ghost predicate LastOnPage(h: Heap, a: nat) {
    forall c :: c in h.live && PageOf(c) == PageOf(a) ==> c == a
  }

  /** A page of descriptors that does not exist, before the one with this descriptor. */
  ghost predicate Missing(h: Heap, s: nat) {
    exists r :: 0 <= r < RootOf(s) && r < |h.roots| && h.roots[r] == 0
  }

  /** The same, for the descriptor of a block's page. */
  ghost predicate PagelessBefore(h: Heap, a: nat) {
    PageOf(a) in h.use && h.use[PageOf(a)].HeapPage? && Missing(h, h.use[PageOf(a)].slot)
  }

  lemma MissingSame(h: Heap, h': Heap, s: nat)
    requires h'.roots == h.roots
    ensures Missing(h', s) <==> Missing(h, s)
  {
  }

  lemma WrittenNothing(mem: map<nat, nat>, addr: nat, size: nat)
    ensures WrittenIn(mem, mem, addr, size)
  {
  }

  lemma NullIsNotLive(h: Heap)
    requires Kept(h)
    ensures 0 !in h.live && 0 !in h.use
  {
    hide Lists, Slots, Counts, Pages, LiveOrFree;
    forall a | a in h.live
      ensures a > 0
    {
      LiveIsPositive(h, a);
    }
  }

  lemma LiveIsPositive(h: Heap, a: nat)
    requires Kept(h) && a in h.live
    ensures a > 0
  {
    hide Lists, Slots, Counts, Lives, Uses, BlockAddr, BlockOf;
    var s, b := WhichBlock(h, a);
    BlockFacts(h, s, b);
    assert b * SizeOf(RefOf(h, s).blktype) >= 0;
  }

  lemma DescriptorFacts(h: Heap, s: nat)
    requires Kept(h) && s in h.all && s < |h.refs|
    ensures Shape(h) && Counts(h) && s < TOTAL_PAGEREFS && h.used[s] && RootOf(s) < NUM_PAGEREFPAGES && h.roots[RootOf(s)] != 0
  {
    hide Lists, Pages, Lives, Uses, Trues, RootBits;
  }

  lemma WhollyFree(h: Heap, s: nat)
    requires Kept(h) && s in h.all && |FreeOf(h, s)| == Blocks(RefOf(h, s).blktype)
    ensures forall b :: 0 <= b < Blocks(RefOf(h, s).blktype) ==> b in FreeOf(h, s)
  {
    hide Lists, Slots, Counts, Lives, Uses, Threaded, Describes, Blocks;
    assert PageSound(h.mem, RefOf(h, s), FreeOf(h, s));
    AllFree(RefOf(h, s).blktype, FreeOf(h, s));
  }

  lemma CountsDependOn(h: Heap, h': Heap)
    requires Shape(h) && Counts(h) && Shape(h') && h'.used == h.used && h'.numinuse == h.numinuse && h'.roots == h.roots
    ensures Counts(h')
  {
    hide Trues, RootBits;
  }

  lemma ListsDependOn(h: Heap, h': Heap)
    requires Shape(h) && Lists(h) && Shape(h')
    requires h'.refs == h.refs && h'.sizebases == h.sizebases && h'.allbase == h.allbase && h'.all == h.all && h'.same == h.same
    ensures Lists(h')
  {
    hide Linked;
    forall k | 0 <= k < NSIZES
      ensures ListsType(h', h'.same[k], k)
    {
      assert ListsType(h, h.same[k], k);
    }
  }

  lemma DroppedIs(h: Heap, h': Heap, s: nat)
    requires Shape(h) && s < TOTAL_PAGEREFS && s < |h.refs| && SameContents(h, h')
    requires forall t :: t in h'.all <==> t in h.all && t != s
    requires h' == h.(refs := h'.refs, sizebases := h'.sizebases, allbase := h'.allbase, all := h'.all, same := h'.same,
                      used := h.used[s := false], numinuse := h'.numinuse,
                      free := h.free - {s}, use := h.use[h.refs[s].page := Pending])
    requires |h'.numinuse| == NUM_PAGEREFPAGES
    requires forall r :: 0 <= r < NUM_PAGEREFPAGES ==> h'.numinuse[r] + (if r == RootOf(s) then 1 else 0) == h.numinuse[r]
    ensures Dropped(h, h', s)
  {
    hide SameContents;
  }

  lemma DropIdle(h: Heap, h': Heap, s: nat)
    requires Shape(h) && s < TOTAL_PAGEREFS && Dropped(h, h', s)
    requires forall t :: t in h.all && t != s ==> |FreeOf(h, t)| < Blocks(RefOf(h, t).blktype)
    ensures NoneIdle(h')
  {
    hide Blocks, RefOf;
    forall t | t in h'.all
      ensures FreeOf(h', t) == FreeOf(h, t)
    {
    }
  }

  /** Which page the search finds: the one of a block in use, and none for whole pages. */
  lemma OwnerFacts(h: Heap, ptr: nat, pr: int)
    requires Kept(h) && (ptr in h.live || (ptr in h.use && h.use[ptr].Large?))
    requires pr == NONE ==> forall s :: s in h.all ==> !(RefOf(h, s).page <= ptr < RefOf(h, s).page + PAGE_SIZE)
    requires pr != NONE ==> 0 <= pr < |h.refs| && pr in h.all && h.refs[pr].page <= ptr < h.refs[pr].page + PAGE_SIZE
    ensures pr == NONE <==> ptr !in h.live
    ensures pr != NONE ==>
              && h.refs[pr].page == PageOf(ptr) && PageOf(ptr) in h.use && h.use[PageOf(ptr)] == HeapPage(pr)
              && h.refs[pr].blktype < NSIZES && (ptr - PageOf(ptr)) % SizeOf(h.refs[pr].blktype) == 0
  {
    hide Lists, Slots, Counts, LiveOrFree, PageSound, SizeOf;
    if ptr in h.live {
      assert LiveFits(h, ptr);
      assert UseFits(h, PageOf(ptr));
    }
    AlignedPage(ptr);
    if pr != NONE {
      OwnPage(h, pr);
      assert PageOf(ptr) == RefOf(h, pr).page;
    }
    if ptr in h.use {
      AddressFacts(h, ptr);
    }
  }

  lemma AlignedPage(a: nat)
    ensures a % PAGE_SIZE == 0 ==> PageOf(a) == a
    ensures PageOf(a) <= a < PageOf(a) + PAGE_SIZE
  {
  }

  lemma CountsBlocks(h: Heap, s: nat)
    requires Kept(h) && s in h.all && s < |h.refs|
    ensures h.refs[s].nfree == |FreeOf(h, s)| && h.refs[s].blktype < NSIZES && SizeOf(h.refs[s].blktype) > 0
    ensures Blocks(h.refs[s].blktype) == PAGE_SIZE / SizeOf(h.refs[s].blktype)
    ensures s < TOTAL_PAGEREFS
  {
    hide Lists, Slots, Counts, Lives, Uses, Threaded;
    assert PageSound(h.mem, RefOf(h, s), FreeOf(h, s));
  }

  lemma OtherPagesSame(h: Heap, h': Heap, s: nat, b: nat, t: nat)
    requires h' == Given(h.(mem := h'.mem), s, b) && t != s
    ensures FreeOf(h', t) == FreeOf(h, t) && RefOf(h', t) == RefOf(h, t) && h'.all == h.all
  {
  }

  /** After a block has been put back: its page is wholly free exactly if that was the last block in
      use on it, and the other pages are not. */
  lemma GivenFacts(h: Heap, h': Heap, s: nat, b: nat)
    requires Kept(h) && NoneIdle(h) && s in h.all && s < |h.refs| && b < Blocks(RefOf(h, s).blktype) && BlockOf(h, s, b) in h.live
    requires h' == Given(h.(mem := h'.mem), s, b) && Kept(h')
    ensures RefOf(h', s).nfree == |FreeOf(h', s)| <= Blocks(RefOf(h', s).blktype)
    ensures |FreeOf(h', s)| == Blocks(RefOf(h', s).blktype) <==> LastOnPage(h, BlockOf(h, s, b))
    ensures |FreeOf(h', s)| < Blocks(RefOf(h', s).blktype) ==> NoneIdle(h')
    ensures forall t :: t in h'.all && t != s ==> |FreeOf(h', t)| < Blocks(RefOf(h', t).blktype)
    ensures PagelessBefore(h, BlockOf(h, s, b)) <==> Missing(h, s)
  {
    hide Kept, Missing, Blocks, SizeOf, BlockOf, RefOf, FreeOf, Given, LastOnPage, Missing;
    forall t | t in h.all && t != s
      ensures |FreeOf(h', t)| < Blocks(RefOf(h', t).blktype)
    {
      OtherPagesSame(h, h', s, b, t);
    }
    GivenSame(h, h', s, b);
    LastMeansFree(h, h', s, b);
    OwnPage(h, s);
    BlockIn(h, s, b);
  }

  lemma GivenSame(h: Heap, h': Heap, s: nat, b: nat)
    requires h' == Given(h.(mem := h'.mem), s, b) && s < |h.refs|
    ensures FreeOf(h', s) == [b] + FreeOf(h, s) && RefOf(h', s).blktype == RefOf(h, s).blktype
    ensures RefOf(h', s).page == RefOf(h, s).page && h'.all == h.all
  {
  }

  lemma BlockIn(h: Heap, s: nat, b: nat)
    requires Kept(h) && s in h.all && b < Blocks(RefOf(h, s).blktype)
    ensures PageOf(BlockOf(h, s, b)) == RefOf(h, s).page
  {
    hide Lists, Slots, Counts, Lives, Uses, Blocks, SizeOf;
    assert PageSound(h.mem, RefOf(h, s), FreeOf(h, s));
    BlockPage(RefOf(h, s).page, RefOf(h, s).blktype, b);
  }

  /** A free list as long as there are blocks has them all. */
  lemma FreeCount(h: Heap, s: nat)
    requires Kept(h) && s in h.all
    ensures RefOf(h, s).nfree == |FreeOf(h, s)| <= Blocks(RefOf(h, s).blktype)
    ensures |FreeOf(h, s)| == Blocks(RefOf(h, s).blktype) <==> forall c :: 0 <= c < Blocks(RefOf(h, s).blktype) ==> c in FreeOf(h, s)
  {
    hide Lists, Slots, Counts, Lives, Uses, Blocks, SizeOf, Threaded;
    assert PageSound(h.mem, RefOf(h, s), FreeOf(h, s));
    AllFree(RefOf(h, s).blktype, FreeOf(h, s));
  }

  lemma LastMeansFree(h: Heap, h': Heap, s: nat, b: nat)
    requires Kept(h) && s in h.all && s < |h.refs| && b < Blocks(RefOf(h, s).blktype) && BlockOf(h, s, b) in h.live
    requires h' == Given(h.(mem := h'.mem), s, b) && Kept(h')
    ensures RefOf(h', s).nfree == |FreeOf(h', s)| <= Blocks(RefOf(h', s).blktype)
    ensures |FreeOf(h', s)| == Blocks(RefOf(h', s).blktype) <==> LastOnPage(h, BlockOf(h, s, b))
  {
    hide Kept, Blocks, SizeOf, BlockOf, RefOf, FreeOf, Given, PageOf;
    GivenSame(h, h', s, b);
    FreeCount(h', s);
    var a := BlockOf(h, s, b);
    if |FreeOf(h', s)| == Blocks(RefOf(h', s).blktype) {
      forall c | c in h.live && PageOf(c) == PageOf(a)
        ensures c == a
      {
        assert forall i :: i in FreeOf(h', s) ==> i == b || i in FreeOf(h, s);
        OnlyOneInUse(h, s, b, c);
      }
    } else {
      var c: nat :| c < Blocks(RefOf(h', s).blktype) && c !in FreeOf(h', s);
      AnotherInUse(h, s, b, c);
    }
  }

  lemma OnlyOneInUse(h: Heap, s: nat, b: nat, c: nat)
    requires Kept(h) && s in h.all && b < Blocks(RefOf(h, s).blktype) && c in h.live && PageOf(c) == PageOf(BlockOf(h, s, b))
    requires forall i :: 0 <= i < Blocks(RefOf(h, s).blktype) ==> i == b || i in FreeOf(h, s)
    ensures c == BlockOf(h, s, b)
  {
    hide Kept, Blocks, SizeOf, BlockOf, RefOf, FreeOf, PageOf;
    var t, i := WhichBlock(h, c);
    BlockIn(h, s, b);
    OwnPage(h, s);
    OwnPage(h, t);
    assert t == s && i == b;
  }

  lemma AnotherInUse(h: Heap, s: nat, b: nat, c: nat)
    requires Kept(h) && s in h.all && b < Blocks(RefOf(h, s).blktype)
    requires c < Blocks(RefOf(h, s).blktype) && c != b && c !in FreeOf(h, s)
    ensures !LastOnPage(h, BlockOf(h, s, b))
  {
    hide Lists, Slots, Counts, Uses, Pages, LiveFits, Blocks, SizeOf, BlockOf, RefOf, FreeOf, PageOf;
    BlockIn(h, s, b);
    BlockIn(h, s, c);
    if BlockOf(h, s, c) == BlockOf(h, s, b) {
      OneBlock(h, s, b, s, c);
    }
  }
}
