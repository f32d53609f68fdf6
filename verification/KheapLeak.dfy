/** When freeing trips the assertion in freepageref (vm/kmalloc.c:299-337): descriptors that were
    marked in use for a page that could then not be got are never unmarked. */
module KheapLeak {
  import opened KheapPages
  import opened KheapLists
  import opened KheapState
  import opened KheapSteps
  import opened Kheap

  /** A page of descriptors that does not exist is passed over only if all its descriptors have
      leaked that way. */
  lemma MissingMeansLeaked(h: Heap, a: nat)
    requires Kept(h) && a in h.live
    ensures PagelessBefore(h, a) <==>
            exists r :: 0 <= r < RootOf(h.use[PageOf(a)].slot) && r < |h.roots| && h.roots[r] == 0 && h.numinuse[r] == NPAGEREFS_PER_PAGE
  {
    hide Lists, Slots, Counts, Pages, Uses, LiveOrFree;
    assert LiveFits(h, a);
    var s := h.use[PageOf(a)].slot;
    LeakedRoot(h, s);
  }

  lemma LeakedRoot(h: Heap, s: nat)
    requires Kept(h) && s in h.all
    ensures RootOf(s) < |h.roots|
    ensures forall r :: 0 <= r < RootOf(s) && h.roots[r] == 0 ==> h.numinuse[r] == NPAGEREFS_PER_PAGE
  {
    hide Lists, Pages, Lives, Uses, Trues, RootBits;
    UsedCounts(h, s);
  }

  // ---------------------------------------------------------------- a run to such a heap

  /** What a thread in kmalloc does to the heap between two points where the spinlock is free. */
  datatype Move =
    | GetPage(va: nat)           // alloc_kpages hands out a page
    | ReturnPage(va: nat)          // free_kpages
    | MarkSlot(slot: nat)            // allocpageref
    | InstallRoot(root: nat, va: nat) // allocpagerefpage
    | NewBlock(slot: nat, va: nat, k: nat, mem: map<nat, nat>, bytes: nat) // subpage_kmalloc from a new page

  ghost predicate Possible(h: Heap, m: Move) {
    && Shape(h)
    && match m
       case GetPage(va) => Vacant(h.kpages, va, 1)
       case ReturnPage(va) => IsPending(h, va)
       case MarkSlot(slot) => slot < TOTAL_PAGEREFS && !h.used[slot] && forall s :: 0 <= s < slot ==> h.used[s]
       case InstallRoot(root, va) => root < NUM_PAGEREFPAGES && h.roots[root] == 0 && IsPending(h, va)
       case NewBlock(slot, va, k, mem, bytes) =>
         && slot < TOTAL_PAGEREFS && slot in h.reserved && RootOf(slot) < |h.roots| && h.roots[RootOf(slot)] != 0
         && IsPending(h, va) && k < NSIZES && bytes <= SizeOf(k) && ChainedTo(h.mem, mem, va, k, Blocks(k))
  }

  ghost predicate IsPending(h: Heap, va: nat) {
    va in h.use && h.use[va] == Pending && va in h.kpages && h.kpages[va] == 1
  }

  ghost function After(h: Heap, m: Move): Heap
    requires Possible(h, m)
  {
    match m
    case GetPage(va) => Granted(h, va, 1, Pending)
    case ReturnPage(va) => Returned(h, va)
    case MarkSlot(slot) => Reserved(h, slot)
    case InstallRoot(root, va) => Installed(h, root, va)
    case NewBlock(slot, va, k, mem, bytes) => Taken(Added(h, slot, va, k, mem), slot, bytes)
  }

  ghost predicate Next(h: Heap, h': Heap) {
    exists m :: Possible(h, m) && h' == After(h, m)
  }

  ghost predicate IsRun(run: seq<Heap>) {
    run != [] && run[0] == Empty() && forall i :: 0 <= i < |run| - 1 ==> Next(run[i], run[i + 1])
  }

  lemma MarkKeeps(h: Heap, slot: nat)
    requires Inv(h) && Possible(h, MarkSlot(slot))
    ensures Inv(Reserved(h, slot))
  {
    hide Lists, Slots, Pages, Lives, Uses, NoneIdle, Trues, RootBits;
    forall r | 0 <= r < RootOf(slot)
      ensures h.numinuse[r] == NPAGEREFS_PER_PAGE
    {
      TruesExtremes(RootBits(h.used, r));
      forall i | 0 <= i < NPAGEREFS_PER_PAGE
        ensures RootBits(h.used, r)[i]
      {
        BitOf(h.used, r, i);
      }
    }
    Reserve(h, slot);
    IdleSame(h, Reserved(h, slot));
  }

  lemma NewBlockKeeps(h: Heap, slot: nat, va: nat, k: nat, mem: map<nat, nat>, bytes: nat)
    requires Inv(h) && Possible(h, NewBlock(slot, va, k, mem, bytes))
    ensures Inv(Taken(Added(h, slot, va, k, mem), slot, bytes))
  {
    hide Kept, NoneIdle, SizeOf, Blocks, ChainedTo, BlockAddr, Added, WrittenIn, Below, Taken, FreeOf;
    ChainedMeans(h.mem, mem, va, k);
    AddPage(h, slot, va, k, mem);
    AddIdle(h, slot, va, k, mem);
    SizeFacts(k);
    var h' := Added(h, slot, va, k, mem);
    assert FreeOf(h', slot) != [];
    TakeBlock(h', slot, bytes);
    TakeIdle(h', slot, bytes);
  }

  lemma MoveKeeps(h: Heap, m: Move)
    requires Inv(h) && Possible(h, m)
    ensures Inv(After(h, m))
  {
    hide Kept, NoneIdle, Vacant, ChainedTo, Added, Taken, Reserved;
    match m
    case GetPage(va) =>
      Grant(h, va, 1, Pending);
      IdleSame(h, Granted(h, va, 1, Pending));
    case ReturnPage(va) =>
      Return(h, va);
      IdleSame(h, Returned(h, va));
    case MarkSlot(slot) => MarkKeeps(h, slot);
    case InstallRoot(root, va) =>
      Install(h, root, va);
      IdleSame(h, Installed(h, root, va));
    case NewBlock(slot, va, k, mem, bytes) => NewBlockKeeps(h, slot, va, k, mem, bytes);
  }

  lemma {:induction false} RunKeeps(run: seq<Heap>, i: nat)
    requires IsRun(run) && i < |run|
    ensures Inv(run[i])
  {
    hide Inv, Possible, After;
    if i == 0 {
      EmptyHeap();
    } else {
      RunKeeps(run, i - 1);
      assert Next(run[i - 1], run[i]);
      var m :| Possible(run[i - 1], m) && run[i] == After(run[i - 1], m);
      MoveKeeps(run[i - 1], m);
    }
  }

  lemma OneMore(run: seq<Heap>, m: Move) returns (longer: seq<Heap>)
    requires IsRun(run) && Possible(Last(run), m)
    ensures IsRun(longer) && Last(longer) == After(Last(run), m)
  {
    hide Inv, Possible, After;
    longer := run + [After(Last(run), m)];
    assert Next(Last(run), After(Last(run), m));
    forall i | 0 <= i < |longer| - 1
      ensures Next(longer[i], longer[i + 1])
    {
      assert i < |run| - 1 ==> Next(run[i], run[i + 1]);
    }
  }

  ghost function Last(run: seq<Heap>): Heap
    requires run != []
  {
    run[|run| - 1]
  }

  const DATA_PAGE: nat := 2 * PAGE_SIZE

  predicate OnFirstRoot(s: nat) {
    s < NPAGEREFS_PER_PAGE
  }

  /** The heap after n requests that got a page, but no page of descriptors. */
  ghost function Leaked(n: nat): Heap
    requires n <= NPAGEREFS_PER_PAGE
  {
    Empty().(used := seq(TOTAL_PAGEREFS, s requires s >= 0 => s < n), numinuse := Empty().numinuse[0 := n],
             reserved := set s: nat | s < n && OnFirstRoot(s))
  }

  lemma LeakOne(n: nat)
    requires n < NPAGEREFS_PER_PAGE
    ensures var h := Leaked(n);
            && Possible(h, GetPage(DATA_PAGE))
            && Possible(After(h, GetPage(DATA_PAGE)), MarkSlot(n))
            && var h' := After(After(h, GetPage(DATA_PAGE)), MarkSlot(n));
            Possible(h', ReturnPage(DATA_PAGE)) && After(h', ReturnPage(DATA_PAGE)) == Leaked(n + 1)
  {
    var h := Leaked(n);
    assert RootOf(n) == 0;
    assert h.used[n := true] == Leaked(n + 1).used;
    assert h.numinuse[0 := n + 1] == Leaked(n + 1).numinuse;
    assert h.reserved + {n} == Leaked(n + 1).reserved;
    assert map[DATA_PAGE := 1] - {DATA_PAGE} == map[];
    assert map[DATA_PAGE := Pending] - {DATA_PAGE} == map[];
  }

  lemma {:induction false} LeakRun(n: nat) returns (run: seq<Heap>)
    requires n <= NPAGEREFS_PER_PAGE
    ensures IsRun(run) && Last(run) == Leaked(n)
  {
    hide Possible, After, Leaked;
    if n == 0 {
      run := [Empty()];
      NoneLeaked();
    } else {
      run := LeakRun(n - 1);
      LeakOne(n - 1);
      run := OneMore(run, GetPage(DATA_PAGE));
      run := OneMore(run, MarkSlot(n - 1));
      run := OneMore(run, ReturnPage(DATA_PAGE));
    }
  }

  lemma NoneLeaked()
    ensures Leaked(0) == Empty()
  {
    assert Leaked(0).used == Empty().used && Leaked(0).numinuse == Empty().numinuse;
  }

  /** A page of two blocks, chained. */
  function Chain(): map<nat, nat> {
    map[DATA_PAGE := 0, DATA_PAGE + 2048 := DATA_PAGE]
  }

  /** The request after those: it gets a page of descriptors as well. */
  ghost function Served(): (h: Heap)
    ensures Shape(h)
  {
    var h := Granted(Leaked(NPAGEREFS_PER_PAGE), DATA_PAGE, 1, Pending);
    Installed(Granted(Reserved(h, NPAGEREFS_PER_PAGE), PAGE_SIZE, 1, Pending), 1, PAGE_SIZE)
  }

  lemma ServeRun() returns (run: seq<Heap>)
    ensures IsRun(run) && Last(run) == Served()
  {
    hide IsRun;
    var n := NPAGEREFS_PER_PAGE;
    run := LeakRun(n);
    run := OneMore(run, GetPage(DATA_PAGE));
    assert RootOf(n) == 1;
    run := OneMore(run, MarkSlot(n));
    run := OneMore(run, GetPage(PAGE_SIZE));
    run := OneMore(run, InstallRoot(1, PAGE_SIZE));
  }

  lemma BlockPossible()
    ensures Possible(Served(), NewBlock(NPAGEREFS_PER_PAGE, DATA_PAGE, 7, Chain(), 2048))
  {
    assert SizeOf(7) == 2048 && Blocks(7) == 2 && RootOf(NPAGEREFS_PER_PAGE) == 1;
    assert ChainedTo(map[], Chain(), DATA_PAGE, 7, 2);
  }

  /** Where the block is, and what the heap says about it. */
  lemma BlockThere()
    ensures var h := Taken(Added(Served(), NPAGEREFS_PER_PAGE, DATA_PAGE, 7, Chain()), NPAGEREFS_PER_PAGE, 2048);
            && h.live == map[DATA_PAGE + 2048 := 2048] && |h.roots| > 0 && h.roots[0] == 0
            && DATA_PAGE in h.use && h.use[DATA_PAGE] == HeapPage(NPAGEREFS_PER_PAGE)
  {
    assert SizeOf(7) == 2048 && Blocks(7) == 2;
  }

  /** The assertion can fail: 256 requests in a row that get no page of descriptors, then one that does,
      and the block it returned is freed. */
  lemma AssertionCanFail() returns (run: seq<Heap>)
    ensures IsRun(run)
    ensures var h, a := Last(run), DATA_PAGE + 2048; Inv(h) && a in h.live && LastOnPage(h, a) && PagelessBefore(h, a)
  {
    hide Inv, Possible, Served, Added, Taken;
    run := ServeRun();
    BlockPossible();
    run := OneMore(run, NewBlock(NPAGEREFS_PER_PAGE, DATA_PAGE, 7, Chain(), 2048));
    RunKeeps(run, |run| - 1);
    BlockThere();
    var h, a := Last(run), DATA_PAGE + 2048;
    assert PageOf(a) == DATA_PAGE && RootOf(NPAGEREFS_PER_PAGE) == 1;
    assert Missing(h, NPAGEREFS_PER_PAGE);
  }
}
