/** The elementary changes to the kernel heap, and why each keeps its books (vm/kmalloc.c:256-337, 822-1160). */
module KheapSteps {
  import opened KheapPages
  import opened KheapLists
  import opened KheapState

  /** Descriptors whose page, type and links stay: only the free lists move. */
  ghost predicate SameLinks(h: Heap, h': Heap) {
    && |h'.refs| == |h.refs|
    && forall s: nat ::
         && RefOf(h', s).nextSame == RefOf(h, s).nextSame && RefOf(h', s).nextAll == RefOf(h, s).nextAll
         && RefOf(h', s).page == RefOf(h, s).page && RefOf(h', s).blktype == RefOf(h, s).blktype
  }

  lemma LinksKeepLists(h: Heap, h': Heap)
    requires Shape(h) && Lists(h) && SameLinks(h, h')
    requires h' == h.(refs := h'.refs, mem := h'.mem, free := h'.free, live := h'.live)
    ensures Shape(h') && Lists(h')
  {
    hide Linked, RefOf, ListsType;
    NextsSame(h, h');
    forall k | 0 <= k < NSIZES
      ensures ListsType(h', h'.same[k], k)
    {
      SameType(h, h', h.same[k], k);
    }
  }

  lemma SameType(h: Heap, h': Heap, list: seq<nat>, k: nat)
    requires ListsType(h, list, k) && h'.all == h.all && |h'.refs| == |h.refs|
    requires forall s: nat :: RefOf(h', s).blktype == RefOf(h, s).blktype
    ensures ListsType(h', list, k)
  {
    hide RefOf;
  }

  lemma NextsSame(h: Heap, h': Heap)
    requires SameLinks(h, h')
    ensures AllNexts(h'.refs) == AllNexts(h.refs) && SameNexts(h'.refs) == SameNexts(h.refs)
  {
    assert forall s :: 0 <= s < |h.refs| ==> h'.refs[s] == RefOf(h', s) && h.refs[s] == RefOf(h, s);
  }

  lemma LinksKeepUses(h: Heap, h': Heap)
    requires Shape(h) && Uses(h) && SameLinks(h, h')
    requires h' == h.(refs := h'.refs, mem := h'.mem, free := h'.free, live := h'.live)
    ensures Shape(h') && Uses(h')
  {
    hide RefOf;
    forall p | p in h'.use
      ensures UseFits(h', p)
    {
      assert UseFits(h, p);
    }
  }

  // ---------------------------------------------------------------- taking and giving back a block

  function SetRef(h: Heap, s: nat, r: PageRef): seq<PageRef> {
    if s < |h.refs| then h.refs[s := r] else h.refs
  }

  /** A descriptor after its first free block has been taken: what the block's first word leads to
      becomes the start of the list. */
  function Advanced(r: PageRef, next: nat): PageRef {
    r.(nfree := if r.nfree > 0 then r.nfree - 1 else 0,
       offset := if next != 0 && next >= r.page then next - r.page else INVALID_OFFSET)
  }

  function Tail(q: seq<nat>): seq<nat> {
    if q == [] then [] else q[1..]
  }

  /** The code after doalloc: the first block of the page's free list is handed out. */
  ghost function Taken(h: Heap, s: nat, bytes: nat): Heap {
    h.(refs := SetRef(h, s, Advanced(RefOf(h, s), WordOf(h.mem, FirstFree(h, s)))),
       free := h.free[s := Tail(FreeOf(h, s))],
       live := h.live[FirstFree(h, s) := bytes])
  }

  /** The list as the code finds it: its start is a free block, and its next entry is on the page. */
  lemma FirstFreeFacts(h: Heap, s: nat)
    requires Pages(h) && s in h.all && FreeOf(h, s) != []
    ensures var r, next := RefOf(h, s), WordOf(h.mem, FirstFree(h, s));
            && r.offset < PAGE_SIZE && FirstFree(h, s) in h.mem && r.nfree > 0 && r.page > 0 && s < |h.refs|
            && (next != 0 <==> r.nfree > 1) && (next != 0 ==> r.page <= next < r.page + PAGE_SIZE)
            && FirstFree(h, s) == BlockOf(h, s, FreeOf(h, s)[0]) && FreeOf(h, s)[0] < Blocks(r.blktype)
            && PageSound(h.mem, Advanced(r, next), Tail(FreeOf(h, s)))
  {
    hide FreeList, BlockAddr;
    var r := RefOf(h, s);
    assert PageSound(h.mem, r, FreeOf(h, s));
    Popped(h.mem, r.page, r.blktype, r.offset, r.nfree, FreeOf(h, s));
  }

  lemma TakeBlock(h: Heap, s: nat, bytes: nat)
    requires Kept(h) && s in h.all && FreeOf(h, s) != [] && bytes <= SizeOf(RefOf(h, s).blktype)
    ensures Kept(Taken(h, s, bytes))
    ensures FirstFree(h, s) !in h.live && FirstFree(h, s) > 0
  {
    hide Lists, Uses, Lives, Slots, Counts, Pages, BlockAddr, BlockOf, FirstFree, Advanced, PageSound;
    var h' := Taken(h, s, bytes);
    FirstFreeFacts(h, s);
    assert h'.refs == SetRef(h, s, Advanced(RefOf(h, s), WordOf(h.mem, FirstFree(h, s))));
    AdvancedLinks(RefOf(h, s), WordOf(h.mem, FirstFree(h, s)));
    LinksKeepLists(h, h');
    LinksKeepUses(h, h');
    BooksSame(h, h');
    TakePages(h, s, bytes);
    TakeLives(h, s, bytes);
    FirstFreePositive(h, s);
  }

  lemma AdvancedLinks(r: PageRef, next: nat)
    ensures var r' := Advanced(r, next);
            r'.nextSame == r.nextSame && r'.nextAll == r.nextAll && r'.page == r.page && r'.blktype == r.blktype
  {
  }

  lemma BooksSame(h: Heap, h': Heap)
    requires Shape(h) && Slots(h) && Counts(h) && Shape(h')
    requires h'.used == h.used && h'.numinuse == h.numinuse && h'.roots == h.roots && h'.all == h.all && h'.reserved == h.reserved
    ensures Slots(h') && Counts(h')
  {
    hide Trues, RootBits;
  }

  lemma FirstFreePositive(h: Heap, s: nat)
    requires RefOf(h, s).page > 0
    ensures FirstFree(h, s) > 0
  {
  }

  lemma TakePages(h: Heap, s: nat, bytes: nat)
    requires Pages(h) && s in h.all && FreeOf(h, s) != []
    ensures Pages(Taken(h, s, bytes))
  {
    hide FreeList, BlockOf, BlockAddr;
    FirstFreeFacts(h, s);
  }

  lemma TakeLives(h: Heap, s: nat, bytes: nat)
    requires Kept(h) && s in h.all && FreeOf(h, s) != [] && bytes <= SizeOf(RefOf(h, s).blktype)
    ensures Lives(Taken(h, s, bytes))
    ensures FirstFree(h, s) !in h.live
  {
    hide Lists, Slots, Counts, Uses, FreeList, BlockAddr, BlockOf, LiveFits;
    FirstFreeFacts(h, s);
    var h', b := Taken(h, s, bytes), FreeOf(h, s)[0];
    FirstOnly(h, s);
    forall t, c | t in h'.all && 0 <= c < Blocks(RefOf(h', t).blktype)
      ensures BlockOf(h', t, c) in h'.live <==> c !in FreeOf(h', t)
    {
      SameBlockOf(h, h', t, c);
      if BlockOf(h, t, c) == FirstFree(h, s) {
        OneBlock(h, t, c, s, b);
      }
    }
    forall a | a in h'.live
      ensures LiveFits(h', a)
    {
      TakeFits(h, s, bytes, a);
    }
  }

  lemma TakeFits(h: Heap, s: nat, bytes: nat, a: nat)
    requires Kept(h) && s in h.all && FreeOf(h, s) != [] && bytes <= SizeOf(RefOf(h, s).blktype)
    requires a in Taken(h, s, bytes).live
    ensures LiveFits(Taken(h, s, bytes), a)
  {
    hide Lists, Slots, Counts, Uses, FreeList, BlockAddr, BlockOf, LiveOrFree;
    FirstFreeFacts(h, s);
    var h', r, b := Taken(h, s, bytes), RefOf(h, s), FreeOf(h, s)[0];
    OwnPage(h, s);
    BlockPage(r.page, r.blktype, b);
    UnfoldBlock(h, s, b);
    if a != FirstFree(h, s) {
      assert LiveFits(h, a);
    }
  }

  lemma UnfoldBlock(h: Heap, s: nat, b: nat)
    ensures BlockOf(h, s, b) == BlockAddr(RefOf(h, s).page, RefOf(h, s).blktype, b)
  {
  }

  lemma SameBlockOf(h: Heap, h': Heap, s: nat, b: nat)
    requires RefOf(h, s).page == RefOf(h', s).page && RefOf(h, s).blktype == RefOf(h', s).blktype
    ensures BlockOf(h, s, b) == BlockOf(h', s, b)
  {
  }

  lemma OwnPage(h: Heap, s: nat)
    requires Kept(h) && s in h.all
    ensures RefOf(h, s).page in h.use && h.use[RefOf(h, s).page] == HeapPage(s) && RefOf(h, s).page % PAGE_SIZE == 0
  {
    hide Lists, Slots, Counts, Lives;
    assert PageSound(h.mem, RefOf(h, s), FreeOf(h, s));
  }

  lemma FirstOnly(h: Heap, s: nat)
    requires Pages(h) && s in h.all && FreeOf(h, s) != []
    ensures forall c :: c in Tail(FreeOf(h, s)) <==> c in FreeOf(h, s) && c != FreeOf(h, s)[0]
  {
    var free := FreeOf(h, s);
    assert PageSound(h.mem, RefOf(h, s), free);
    assert free == [free[0]] + free[1..];
  }

  /** Memory changed only within one block. */
  ghost predicate WrittenIn(mem: map<nat, nat>, mem': map<nat, nat>, addr: nat, size: nat) {
    forall x: nat :: x < addr || addr + size <= x ==> SameWord(mem, mem', x)
  }

  /** Whatever the owner of a block writes into it, the heap's own structures stay intact. */
  lemma WriteBlock(h: Heap, mem': map<nat, nat>, s: nat, b: nat)
    requires Kept(h) && s in h.all && b < Blocks(RefOf(h, s).blktype) && BlockOf(h, s, b) in h.live
    requires WrittenIn(h.mem, mem', BlockOf(h, s, b), SizeOf(RefOf(h, s).blktype))
    ensures Kept(h.(mem := mem'))
  {
    hide Lists, Slots, Counts, Uses, Pages, Lives, BlockAddr, BlockOf, SizeOf, Blocks, WrittenIn;
    var h' := h.(mem := mem');
    WritePages(h, mem', s, b);
    LinksKeepLists(h, h');
    LinksKeepUses(h, h');
    WriteRest(h, h');
  }

  lemma WritePages(h: Heap, mem': map<nat, nat>, s: nat, b: nat)
    requires Kept(h) && s in h.all && b < Blocks(RefOf(h, s).blktype) && BlockOf(h, s, b) in h.live
    requires WrittenIn(h.mem, mem', BlockOf(h, s, b), SizeOf(RefOf(h, s).blktype))
    ensures Pages(h.(mem := mem'))
  {
    hide Lists, Slots, Counts, Uses, Lives, BlockAddr, BlockOf, SizeOf, Blocks, WrittenIn, PageSound;
    forall t | t in h.all
      ensures PageSound(mem', RefOf(h, t), FreeOf(h, t))
    {
      WritePage(h, mem', s, b, t);
    }
  }

  lemma WriteRest(h: Heap, h': Heap)
    requires Kept(h) && h' == h.(mem := h'.mem)
    ensures Slots(h') && Counts(h') && Lives(h')
  {
    hide Lists, Uses, FreeList, BlockAddr, SizeOf, Blocks, Trues, RootBits;
  }

  lemma WritePage(h: Heap, mem': map<nat, nat>, s: nat, b: nat, t: nat)
    requires Kept(h) && s in h.all && b < Blocks(RefOf(h, s).blktype) && BlockOf(h, s, b) in h.live && t in h.all
    requires WrittenIn(h.mem, mem', BlockOf(h, s, b), SizeOf(RefOf(h, s).blktype))
    ensures PageSound(mem', RefOf(h, t), FreeOf(h, t))
  {
    hide Lists, Slots, Counts, Uses, BlockAddr, Threaded, Describes, SizeOf, Blocks, SameWord;
    var r, free := RefOf(h, t), FreeOf(h, t);
    assert PageSound(h.mem, r, free);
    forall i | 0 <= i < |free|
      ensures SameWord(h.mem, mem', BlockAddr(r.page, r.blktype, free[i]))
    {
      assert free[i] in free;
      assert BlockOf(h, t, free[i]) !in h.live;
      OutsideBlock(h, s, b, t, free[i]);
      UnfoldBlock(h, t, free[i]);
    }
    FreeListFrame(h.mem, mem', r.page, r.blktype, r.offset, r.nfree, free);
  }

  /** The start of another block is not within this one. */
  lemma OutsideBlock(h: Heap, s: nat, b: nat, t: nat, c: nat)
    requires Kept(h) && s in h.all && t in h.all && b < Blocks(RefOf(h, s).blktype) && c < Blocks(RefOf(h, t).blktype)
    requires BlockOf(h, s, b) != BlockOf(h, t, c)
    ensures BlockOf(h, t, c) < BlockOf(h, s, b) || BlockOf(h, s, b) + SizeOf(RefOf(h, s).blktype) <= BlockOf(h, t, c)
  {
    hide Lists, Slots, Counts, Uses, Pages, Lives, BlockOf, Blocks;
    var x := BlockOf(h, t, c);
    assert Covers(h, t, c, x);
    NoOverlap(h, t, c, x);
    assert !Covers(h, s, b, x);
  }

  /** A block put in front of its page's free list. */
  ghost function Given(h: Heap, s: nat, b: nat): Heap {
    var r := RefOf(h, s);
    h.(refs := SetRef(h, s, r.(offset := b * SizeOf(r.blktype), nfree := r.nfree + 1)),
       free := h.free[s := [b] + FreeOf(h, s)],
       live := h.live - {BlockOf(h, s, b)})
  }

  lemma GiveBlock(h: Heap, s: nat, b: nat)
    requires Kept(h) && s in h.all && b < Blocks(RefOf(h, s).blktype) && BlockOf(h, s, b) in h.live
    requires BlockOf(h, s, b) in h.mem
    requires h.mem[BlockOf(h, s, b)] == if RefOf(h, s).offset == INVALID_OFFSET then 0 else FirstFree(h, s)
    ensures Kept(Given(h, s, b))
  {
    hide Lists, Uses, Lives, FreeList, BlockAddr, BlockOf, Blocks, SizeOf, Trues, RootBits;
    var h' := Given(h, s, b);
    LinksKeepLists(h, h');
    LinksKeepUses(h, h');
    LiveIsNotFree(h, s, b);
    GivePages(h, s, b);
    GiveLives(h, s, b);
  }

  lemma LiveIsNotFree(h: Heap, s: nat, b: nat)
    requires Lives(h) && s in h.all && b < Blocks(RefOf(h, s).blktype) && BlockOf(h, s, b) in h.live
    ensures b !in FreeOf(h, s)
  {
    hide BlockOf, Blocks;
  }

  lemma GivePages(h: Heap, s: nat, b: nat)
    requires Pages(h) && s in h.all && b < Blocks(RefOf(h, s).blktype) && b !in FreeOf(h, s)
    requires BlockOf(h, s, b) in h.mem
    requires h.mem[BlockOf(h, s, b)] == if RefOf(h, s).offset == INVALID_OFFSET then 0 else FirstFree(h, s)
    ensures Pages(Given(h, s, b))
  {
    hide FreeList, BlockAddr, BlockOf, Blocks, SizeOf;
    var r, h' := RefOf(h, s), Given(h, s, b);
    assert PageSound(h.mem, r, FreeOf(h, s));
    UnfoldBlock(h, s, b);
    Pushed(h.mem, r.page, r.blktype, r.offset, r.nfree, FreeOf(h, s), b);
    forall t | t in h.all && t != s
      ensures PageSound(h'.mem, RefOf(h', t), FreeOf(h', t)) && RefOf(h', t) == RefOf(h, t)
    {
      assert PageSound(h.mem, RefOf(h, t), FreeOf(h, t));
    }
  }

  lemma GiveLives(h: Heap, s: nat, b: nat)
    requires Kept(h) && s in h.all && b < Blocks(RefOf(h, s).blktype) && BlockOf(h, s, b) in h.live
    ensures Lives(Given(h, s, b))
  {
    hide Lists, Slots, Counts, Uses, FreeList, BlockAddr, BlockOf, Blocks, SizeOf, LiveFits;
    var h' := Given(h, s, b);
    forall t, c | t in h'.all && 0 <= c < Blocks(RefOf(h', t).blktype)
      ensures BlockOf(h', t, c) in h'.live <==> c !in FreeOf(h', t)
    {
      SameBlockOf(h, h', t, c);
      if BlockOf(h, t, c) == BlockOf(h, s, b) {
        OneBlock(h, t, c, s, b);
      }
    }
    forall a | a in h'.live
      ensures LiveFits(h', a)
    {
      FitsBySameType(h, h', a);
    }
  }

  lemma FitsBySameType(h: Heap, h': Heap, a: nat)
    requires a in h.live && LiveFits(h, a) && a in h'.live && h'.live[a] == h.live[a] && h'.use == h.use && h'.all == h.all
    requires forall t: nat :: RefOf(h', t).blktype == RefOf(h, t).blktype
    ensures LiveFits(h', a)
  {
    hide RefOf, SizeOf;
  }

  // ---------------------------------------------------------------- descriptors

  lemma OneBit(used: seq<bool>, s: nat, v: bool, r: nat)
    requires |used| == TOTAL_PAGEREFS && s < TOTAL_PAGEREFS && r < NUM_PAGEREFPAGES
    ensures RootOf(s) < NUM_PAGEREFPAGES
    ensures r != RootOf(s) ==> RootBits(used[s := v], r) == RootBits(used, r)
    ensures r == RootOf(s) ==>
              Trues(RootBits(used[s := v], r)) + (if used[s] then 1 else 0) == Trues(RootBits(used, r)) + if v then 1 else 0
  {
    var i := s % NPAGEREFS_PER_PAGE;
    assert s == RootOf(s) * NPAGEREFS_PER_PAGE + i;
    if r == RootOf(s) {
      assert RootBits(used[s := v], r) == RootBits(used, r)[i := v];
      TruesUpdate(RootBits(used, r), i, v);
    }
  }

  /** A descriptor is marked in use; it is on no list yet. */
  ghost function Reserved(h: Heap, s: nat): Heap
    requires Shape(h) && s < TOTAL_PAGEREFS
  {
    h.(used := h.used[s := true], numinuse := h.numinuse[RootOf(s) := h.numinuse[RootOf(s)] + 1], reserved := h.reserved + {s})
  }

  lemma Reserve(h: Heap, s: nat)
    requires Kept(h) && s < TOTAL_PAGEREFS && !h.used[s]
    requires forall r :: 0 <= r < RootOf(s) ==> h.numinuse[r] == NPAGEREFS_PER_PAGE
    ensures Kept(Reserved(h, s)) && s !in h.all
  {
    hide Pages, Lives, Linked, Trues, RootBits;
    var h' := Reserved(h, s);
    forall r | 0 <= r < NUM_PAGEREFPAGES
      ensures h'.numinuse[r] == Trues(RootBits(h'.used, r))
    {
      OneBit(h.used, s, true, r);
    }
    forall p | p in h'.use
      ensures UseFits(h', p)
    {
      assert UseFits(h, p);
    }
    PagesDependOn(h, h');
  }

  /** Free lists and blocks in use do not depend on the rest. */
  lemma PagesDependOn(h: Heap, h': Heap)
    requires Pages(h) && Lives(h)
    requires h'.refs == h.refs && h'.mem == h.mem && h'.all == h.all && h'.free == h.free && h'.live == h.live
    requires forall p :: p in h.use && h.use[p].HeapPage? ==> p in h'.use && h'.use[p] == h.use[p]
    ensures Pages(h') && Lives(h')
  {
    hide PageSound, BlockAddr, SizeOf, Blocks;
  }

  /** Nor do the lists, the use bits and the counts. */
  lemma BooksDependOn(h: Heap, h': Heap)
    requires Shape(h) && Lists(h) && Slots(h) && Counts(h)
    requires h' == h.(kpages := h'.kpages, use := h'.use)
    ensures Shape(h') && Lists(h') && Slots(h') && Counts(h')
  {
    hide Linked, Trues, RootBits;
  }

  /** A page for descriptors has been got. */
  ghost function Installed(h: Heap, r: nat, va: nat): Heap
    requires Shape(h) && r < NUM_PAGEREFPAGES
  {
    h.(roots := h.roots[r := va], use := h.use[va := RefPage(r)])
  }

  lemma Install(h: Heap, r: nat, va: nat)
    requires Kept(h) && r < NUM_PAGEREFPAGES && h.roots[r] == 0
    requires va in h.use && h.use[va] == Pending && h.kpages[va] == 1
    ensures Kept(Installed(h, r, va))
  {
    hide Lists, Slots, Counts, Pages, Lives, Apart;
    AddressIsPositive(h, va);
    var h' := Installed(h, r, va);
    forall p | p in h'.use
      ensures UseFits(h', p)
    {
      AddressIsPositive(h, p);
      assert UseFits(h, p);
    }
    InstallBooks(h, r, va);
    PagesDependOn(h, h');
  }

  lemma InstallBooks(h: Heap, r: nat, va: nat)
    requires Kept(h) && r < NUM_PAGEREFPAGES && h.roots[r] == 0 && va > 0
    ensures var h' := Installed(h, r, va); Shape(h') && Lists(h') && Slots(h') && Counts(h')
  {
    hide Pages, Lives, Uses, Linked, Trues, RootBits;
  }

  lemma AddressIsPositive(h: Heap, va: nat)
    requires Kept(h) && va in h.use
    ensures va > 0 && va % PAGE_SIZE == 0
  {
    hide Lists, Slots, Counts, Pages, Lives;
  }

  // ---------------------------------------------------------------- whole pages

  /** A run of pages that nothing outstanding overlaps. */
  predicate Vacant(kpages: map<nat, nat>, va: nat, n: nat) {
    && va > 0 && va % PAGE_SIZE == 0 && n > 0
    && forall p :: p in kpages ==> p + kpages[p] * PAGE_SIZE <= va || va + n * PAGE_SIZE <= p
  }

  lemma VacantApart(kpages: map<nat, nat>, va: nat, n: nat)
    requires Apart(kpages) && Vacant(kpages, va, n)
    ensures va !in kpages && Apart(kpages[va := n])
  {
  }

  lemma LessApart(kpages: map<nat, nat>, va: nat)
    requires Apart(kpages)
    ensures Apart(kpages - {va})
  {
  }

  ghost function Granted(h: Heap, va: nat, n: nat, u: Use): Heap {
    h.(kpages := h.kpages[va := n], use := h.use[va := u])
  }

  lemma Grant(h: Heap, va: nat, n: nat, u: Use)
    requires Kept(h) && Vacant(h.kpages, va, n) && (u.Pending? || (u.Large? && u.bytes <= n * PAGE_SIZE))
    ensures va !in h.kpages && Kept(Granted(h, va, n, u))
  {
    hide Lists, Slots, Counts, Pages, Lives, Apart, Vacant;
    var h' := Granted(h, va, n, u);
    VacantApart(h.kpages, va, n);
    forall p | p in h'.use
      ensures UseFits(h', p)
    {
      assert p != va ==> UseFits(h, p);
    }
    BooksDependOn(h, h');
    PagesDependOn(h, h');
  }

  ghost function Returned(h: Heap, va: nat): Heap {
    h.(kpages := h.kpages - {va}, use := h.use - {va})
  }

  lemma Return(h: Heap, va: nat)
    requires Kept(h) && va in h.use && (h.use[va].Pending? || h.use[va].Large?)
    ensures Kept(Returned(h, va))
  {
    hide Lists, Slots, Counts, Pages, Lives, Apart, Vacant;
    var h' := Returned(h, va);
    LessApart(h.kpages, va);
    forall p | p in h'.use
      ensures UseFits(h', p)
    {
      assert UseFits(h, p);
    }
    BooksDependOn(h, h');
    PagesDependOn(h, h');
  }

  // ---------------------------------------------------------------- a new managed page

  /** The descriptor of a new page, put at the front of both lists. */
  ghost function NewRef(h: Heap, va: nat, k: nat): PageRef
    requires Shape(h) && k < NSIZES
  {
    PageRef(h.sizebases[k], h.allbase, va, k, (Blocks(k) - 1) * SizeOf(k), Blocks(k))
  }

  ghost function Added(h: Heap, s: nat, va: nat, k: nat, mem: map<nat, nat>): Heap
    requires Shape(h) && k < NSIZES && s < TOTAL_PAGEREFS
  {
    h.(refs := h.refs[s := NewRef(h, va, k)],
       sizebases := h.sizebases[k := s], allbase := s, mem := mem,
       all := Cons(s, h.all), same := h.same[k := Cons(s, h.same[k])],
       free := h.free[s := Down(Blocks(k))], use := h.use[va := HeapPage(s)], reserved := h.reserved - {s})
  }

  lemma InCons(s: nat, list: seq<nat>)
    ensures forall t :: t in Cons(s, list) <==> t == s || t in list
  {
  }

  lemma AddPage(h: Heap, s: nat, va: nat, k: nat, mem: map<nat, nat>)
    requires Kept(h) && k < NSIZES && s in h.reserved && s < TOTAL_PAGEREFS && h.roots[RootOf(s)] != 0
    requires va in h.use && h.use[va] == Pending && h.kpages[va] == 1
    requires WrittenIn(h.mem, mem, va, PAGE_SIZE)
    requires forall b :: 0 <= b < Blocks(k) ==> BlockAddr(va, k, b) in mem && mem[BlockAddr(va, k, b)] == Below(va, k, b)
    ensures Kept(Added(h, s, va, k, mem))
    ensures FreeOf(Added(h, s, va, k, mem), s) == Down(Blocks(k)) && RefOf(Added(h, s, va, k, mem), s).blktype == k
    ensures s in Added(h, s, va, k, mem).all
  {
    hide Lists, Slots, Counts, Uses, Pages, Lives, Cons, BlockAddr, SizeOf, Blocks, WrittenIn;
    NotListed(h, s);
    AddressIsPositive(h, va);
    InCons(s, h.all);
    AddLists(h, s, va, k, mem);
    AddBooks(h, s, va, k, mem);
    AddUses(h, s, va, k, mem);
    AddPages(h, s, va, k, mem);
    AddLives(h, s, va, k, mem);
  }

  lemma NotListed(h: Heap, s: nat)
    requires Kept(h) && s in h.reserved
    ensures s !in h.all
  {
    hide Lists, Counts, Uses, Pages, Lives;
  }

  lemma AddLists(h: Heap, s: nat, va: nat, k: nat, mem: map<nat, nat>)
    requires Kept(h) && k < NSIZES && s < TOTAL_PAGEREFS && s !in h.all
    ensures Shape(Added(h, s, va, k, mem)) && Lists(Added(h, s, va, k, mem))
  {
    hide Slots, Counts, Uses, Pages, Lives, Cons, Linked;
    var h' := Added(h, s, va, k, mem);
    assert AllNexts(h'.refs) == AllNexts(h.refs)[s := h.allbase];
    assert SameNexts(h'.refs) == SameNexts(h.refs)[s := h.sizebases[k]];
    LinkedPush(h.allbase, AllNexts(h.refs), h.all, s);
    LinkedPush(h.sizebases[k], SameNexts(h.refs), h.same[k], s);
    InCons(s, h.all);
    InCons(s, h.same[k]);
    forall j | 0 <= j < NSIZES && j != k
      ensures Linked(h'.sizebases[j], SameNexts(h'.refs), h'.same[j])
    {
      forall t | t in h.same[j]
        ensures t < |h.refs| && SameNexts(h'.refs)[t] == SameNexts(h.refs)[t]
      {
        assert t in h.all;
      }
      LinkedFrame(h.sizebases[j], SameNexts(h.refs), SameNexts(h'.refs), h.same[j]);
    }
    assert forall t: nat :: t != s ==> RefOf(h', t) == RefOf(h, t);
  }

  lemma AddBooks(h: Heap, s: nat, va: nat, k: nat, mem: map<nat, nat>)
    requires Kept(h) && k < NSIZES && s in h.reserved && s < TOTAL_PAGEREFS && h.roots[RootOf(s)] != 0
    requires Shape(Added(h, s, va, k, mem))
    ensures Slots(Added(h, s, va, k, mem)) && Counts(Added(h, s, va, k, mem))
  {
    hide Lists, Uses, Pages, Lives, Cons, Trues, RootBits;
    InCons(s, h.all);
  }

  lemma AddUses(h: Heap, s: nat, va: nat, k: nat, mem: map<nat, nat>)
    requires Kept(h) && k < NSIZES && s < TOTAL_PAGEREFS && s !in h.all
    requires va in h.use && h.use[va] == Pending && h.kpages[va] == 1
    requires Shape(Added(h, s, va, k, mem))
    ensures Uses(Added(h, s, va, k, mem))
  {
    hide Lists, Slots, Counts, Pages, Lives, Cons, Apart;
    var h' := Added(h, s, va, k, mem);
    InCons(s, h.all);
    assert forall t: nat :: t != s ==> RefOf(h', t) == RefOf(h, t);
    forall p | p in h'.use
      ensures UseFits(h', p)
    {
      assert UseFits(h, p);
    }
  }

  lemma AddPages(h: Heap, s: nat, va: nat, k: nat, mem: map<nat, nat>)
    requires Kept(h) && k < NSIZES && s < TOTAL_PAGEREFS && s !in h.all && va > 0 && va % PAGE_SIZE == 0
    requires va in h.use && h.use[va] == Pending && h.kpages[va] == 1
    requires WrittenIn(h.mem, mem, va, PAGE_SIZE)
    requires forall b :: 0 <= b < Blocks(k) ==> BlockAddr(va, k, b) in mem && mem[BlockAddr(va, k, b)] == Below(va, k, b)
    ensures Pages(Added(h, s, va, k, mem))
  {
    hide Lists, Slots, Counts, Uses, Lives, Cons, BlockAddr, SizeOf, Blocks, WrittenIn, FreeList, Below;
    var h' := Added(h, s, va, k, mem);
    InCons(s, h.all);
    Chained(mem, va, k);
    forall t | t in h.all
      ensures PageSound(mem, RefOf(h, t), FreeOf(h, t))
    {
      OtherPage(h, va, mem, t);
    }
    assert forall t: nat :: t != s ==> RefOf(h', t) == RefOf(h, t) && FreeOf(h', t) == FreeOf(h, t);
  }

  /** Writing to a page that is not managed. */
  lemma OtherPage(h: Heap, va: nat, mem: map<nat, nat>, t: nat)
    requires Kept(h) && t in h.all && va in h.use && h.use[va] == Pending && h.kpages[va] == 1 && va % PAGE_SIZE == 0
    requires WrittenIn(h.mem, mem, va, PAGE_SIZE)
    ensures PageSound(mem, RefOf(h, t), FreeOf(h, t))
  {
    hide Lists, Slots, Counts, Lives, BlockAddr, SizeOf, Blocks, Threaded, Describes, SameWord;
    var r, free := RefOf(h, t), FreeOf(h, t);
    assert PageSound(h.mem, r, free);
    assert r.page != va;
    forall i | 0 <= i < |free|
      ensures SameWord(h.mem, mem, BlockAddr(r.page, r.blktype, free[i]))
    {
      BlockInPage(r.page, r.blktype, free[i]);
      if r.page < va {
        PagesApart(r.page, va);
      } else {
        PagesApart(va, r.page);
      }
    }
    FreeListFrame(h.mem, mem, r.page, r.blktype, r.offset, r.nfree, free);
  }

  lemma AddLives(h: Heap, s: nat, va: nat, k: nat, mem: map<nat, nat>)
    requires Kept(h) && k < NSIZES && s < TOTAL_PAGEREFS && s !in h.all && va > 0 && va % PAGE_SIZE == 0
    requires va in h.use && h.use[va] == Pending
    ensures Lives(Added(h, s, va, k, mem))
  {
    hide Lists, Slots, Counts, Uses, Cons, BlockAddr, SizeOf, Blocks, FreeList, LiveFits;
    var h' := Added(h, s, va, k, mem);
    InCons(s, h.all);
    assert forall t: nat :: t != s ==> RefOf(h', t) == RefOf(h, t) && FreeOf(h', t) == FreeOf(h, t);
    forall t, c | t in h'.all && 0 <= c < Blocks(RefOf(h', t).blktype)
      ensures BlockOf(h', t, c) in h'.live <==> c !in FreeOf(h', t)
    {
      if t == s {
        BlockPage(va, k, c);
        UnfoldBlock(h', s, c);
        NoLiveThere(h, BlockOf(h', s, c));
        assert FreeOf(h', s)[Blocks(k) - 1 - c] == c;
      } else {
        SameBlockOf(h, h', t, c);
      }
    }
    forall a | a in h'.live
      ensures LiveFits(h', a)
    {
      AddFits(h, s, va, k, mem, a);
    }
  }

  lemma NoLiveThere(h: Heap, a: nat)
    requires Lives(h) && PageOf(a) in h.use && h.use[PageOf(a)].Pending?
    ensures a !in h.live
  {
    hide LiveOrFree;
    assert a in h.live ==> LiveFits(h, a);
  }

  lemma AddFits(h: Heap, s: nat, va: nat, k: nat, mem: map<nat, nat>, a: nat)
    requires Kept(h) && k < NSIZES && s < TOTAL_PAGEREFS && s !in h.all
    requires va in h.use && h.use[va] == Pending && a in h.live
    ensures LiveFits(Added(h, s, va, k, mem), a)
  {
    hide Lists, Slots, Counts, Uses, Pages, LiveOrFree, Cons, SizeOf;
    InCons(s, h.all);
    assert LiveFits(h, a);
  }

  // ---------------------------------------------------------------- a managed page given up

  /** Descriptors that differ at most in their links. */
  ghost predicate SameContents(h: Heap, h': Heap) {
    && |h'.refs| == |h.refs|
    && forall t: nat :: RefOf(h', t) == RefOf(h, t).(nextSame := RefOf(h', t).nextSame, nextAll := RefOf(h', t).nextAll)
  }

  /** A wholly free page has been taken off the lists, its descriptor freed, and the page itself is
      about to be returned. */
  ghost predicate Dropped(h: Heap, h': Heap, s: nat)
    requires Shape(h) && s < TOTAL_PAGEREFS
  {
    && SameContents(h, h')
    && (forall t :: t in h'.all <==> t in h.all && t != s)
    && h' == h.(refs := h'.refs, sizebases := h'.sizebases, allbase := h'.allbase, all := h'.all, same := h'.same,
                used := h.used[s := false], numinuse := h'.numinuse,
                free := h.free - {s}, use := h.use[RefOf(h, s).page := Pending])
    && |h'.numinuse| == NUM_PAGEREFPAGES
    && forall r :: 0 <= r < NUM_PAGEREFPAGES ==> h'.numinuse[r] + (if r == RootOf(s) then 1 else 0) == h.numinuse[r]
  }

  lemma Drop(h: Heap, h': Heap, s: nat)
    requires Kept(h) && s in h.all && s < TOTAL_PAGEREFS && (forall b :: 0 <= b < Blocks(RefOf(h, s).blktype) ==> b in FreeOf(h, s))
    requires Dropped(h, h', s) && Shape(h') && Lists(h')
    ensures Kept(h')
  {
    hide Lists, Slots, Counts, Uses, Pages, Lives, Dropped, BlockAddr, SizeOf, Blocks;
    DropBooks(h, h', s);
    DropUses(h, h', s);
    DropPages(h, h', s);
    DropLives(h, h', s);
  }

  lemma DropBooks(h: Heap, h': Heap, s: nat)
    requires Kept(h) && s in h.all && s < TOTAL_PAGEREFS && Dropped(h, h', s) && Shape(h')
    ensures Slots(h') && Counts(h')
  {
    hide Lists, Uses, Pages, Lives, SameContents, Trues, RootBits;
    forall r | 0 <= r < NUM_PAGEREFPAGES
      ensures h'.numinuse[r] == Trues(RootBits(h'.used, r))
    {
      OneBit(h.used, s, false, r);
    }
  }

  lemma DropUses(h: Heap, h': Heap, s: nat)
    requires Kept(h) && s in h.all && s < TOTAL_PAGEREFS && Dropped(h, h', s) && Shape(h')
    ensures Uses(h')
  {
    hide Lists, Slots, Counts, Pages, Lives, Apart, RefOf;
    forall p | p in h'.use
      ensures UseFits(h', p)
    {
      assert UseFits(h, p);
    }
  }

  lemma DropPages(h: Heap, h': Heap, s: nat)
    requires Kept(h) && s in h.all && s < TOTAL_PAGEREFS && Dropped(h, h', s) && Shape(h')
    ensures Pages(h')
  {
    hide Lists, Slots, Counts, Uses, Lives, RefOf, FreeList;
    forall t | t in h'.all
      ensures PageSound(h'.mem, RefOf(h', t), FreeOf(h', t))
    {
      assert PageSound(h.mem, RefOf(h, t), FreeOf(h, t));
    }
  }

  lemma DropLives(h: Heap, h': Heap, s: nat)
    requires Kept(h) && s in h.all && s < TOTAL_PAGEREFS && (forall b :: 0 <= b < Blocks(RefOf(h, s).blktype) ==> b in FreeOf(h, s))
    requires Dropped(h, h', s) && Shape(h')
    ensures Lives(h')
  {
    hide Lists, Slots, Counts, Uses, Pages, RefOf, FreeList, BlockAddr, SizeOf, Blocks, LiveFits;
    forall t, c | t in h'.all && 0 <= c < Blocks(RefOf(h', t).blktype)
      ensures BlockOf(h', t, c) in h'.live <==> c !in FreeOf(h', t)
    {
      SameBlockOf(h, h', t, c);
      assert FreeOf(h', t) == FreeOf(h, t);
    }
    forall a | a in h'.live
      ensures LiveFits(h', a)
    {
      DropFits(h, h', s, a);
    }
  }

  lemma DropFits(h: Heap, h': Heap, s: nat, a: nat)
    requires Kept(h) && s in h.all && s < TOTAL_PAGEREFS && (forall b :: 0 <= b < Blocks(RefOf(h, s).blktype) ==> b in FreeOf(h, s))
    requires Dropped(h, h', s) && Shape(h') && a in h.live
    ensures LiveFits(h', a)
  {
    hide Lists, Slots, Counts, Uses, Pages, RefOf, FreeList, BlockAddr, BlockOf, SizeOf, Blocks;
    var t, b := WhichBlock(h, a);
    assert LiveFits(h, a);
    OwnPage(h, t);
    OwnPage(h, s);
  }
}
