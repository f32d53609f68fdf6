/** The state of the kernel heap (vm/kmalloc.c) and what holds whenever its spinlock is free. */
module KheapState {
  import opened KheapPages
  import opened KheapLists

  const NPAGEREFS_PER_PAGE: nat := 256
  const NUM_PAGEREFPAGES: nat := 16
  const TOTAL_PAGEREFS: nat := NUM_PAGEREFPAGES * NPAGEREFS_PER_PAGE

  /** A page descriptor: its links, and the page it is for. */
  datatype PageRef = PageRef(nextSame: int, nextAll: int, page: nat, blktype: nat, offset: nat, nfree: nat)

  /** What an outstanding allocation of whole pages is for. */
  datatype Use =
    | HeapPage(slot: nat)     // cut into blocks
    | RefPage(root: nat)      // holds page descriptors
    | Large(bytes: nat)       // handed out as it is
    | Pending                 // in the hands of a thread inside kmalloc or kfree

  /** The heap's variables, and, from all on, what they stand for: the descriptors on each list, the
      free blocks of each page, the blocks in use with the sizes asked for, the use of each page
      allocation, and the descriptors taken but not on a list. */
  datatype Heap = Heap(
    refs: seq<PageRef>,
    used: seq<bool>,
    numinuse: seq<nat>,
    roots: seq<nat>,
    sizebases: seq<int>,
    allbase: int,
    mem: map<nat, nat>,
    kpages: map<nat, nat>,
    all: seq<nat>,
    same: seq<seq<nat>>,
    free: map<nat, seq<nat>>,
    live: map<nat, nat>,
    use: map<nat, Use>,
    reserved: set<nat>)

  function RefOf(h: Heap, s: nat): PageRef {
    if s < |h.refs| then h.refs[s] else PageRef(NONE, NONE, 0, 0, 0, 0)
  }

  function FreeOf(h: Heap, s: nat): seq<nat> {
    if s in h.free then h.free[s] else []
  }

  function WordOf(mem: map<nat, nat>, a: nat): nat {
    if a in mem then mem[a] else 0
  }

  /** The address of the first free block of a page, as its descriptor gives it. */
  function FirstFree(h: Heap, s: nat): nat {
    RefOf(h, s).page + RefOf(h, s).offset
  }

  ghost predicate Shape(h: Heap) {
    && |h.refs| == TOTAL_PAGEREFS && |h.used| == TOTAL_PAGEREFS
    && |h.numinuse| == NUM_PAGEREFPAGES && |h.roots| == NUM_PAGEREFPAGES
    && |h.sizebases| == NSIZES && |h.same| == NSIZES
  }

  function AllNexts(refs: seq<PageRef>): (r: seq<int>)
    ensures |r| == |refs| && forall s :: 0 <= s < |refs| ==> r[s] == refs[s].nextAll
  {
    seq(|refs|, s requires 0 <= s < |refs| => refs[s].nextAll)
  }

  function SameNexts(refs: seq<PageRef>): (r: seq<int>)
    ensures |r| == |refs| && forall s :: 0 <= s < |refs| ==> r[s] == refs[s].nextSame
  {
    seq(|refs|, s requires 0 <= s < |refs| => refs[s].nextSame)
  }

  /** Every managed page is on the list of all pages once, and on the list of its block type. */
  ghost predicate Lists(h: Heap)
    requires Shape(h)
  {
    && Linked(h.allbase, AllNexts(h.refs), h.all)
    && (forall k :: 0 <= k < NSIZES ==> Linked(h.sizebases[k], SameNexts(h.refs), h.same[k]))
    && forall k :: 0 <= k < NSIZES ==> ListsType(h, h.same[k], k)
  }

  /** A list holds exactly the managed pages of one block type. */
  ghost predicate ListsType(h: Heap, list: seq<nat>, k: nat) {
    forall s :: s in list <==> s in h.all && s < |h.refs| && RefOf(h, s).blktype == k
  }

  function RootOf(slot: nat): nat {
    slot / NPAGEREFS_PER_PAGE
  }

  function RootBits(used: seq<bool>, r: nat): (bits: seq<bool>)
    requires r < NUM_PAGEREFPAGES && |used| == TOTAL_PAGEREFS
    ensures |bits| == NPAGEREFS_PER_PAGE
  {
    used[r * NPAGEREFS_PER_PAGE..(r + 1) * NPAGEREFS_PER_PAGE]
  }

  /** Descriptors on the lists are marked in use and lie on a page that exists. */
  ghost predicate Slots(h: Heap)
    requires Shape(h)
  {
    && (forall s :: s in h.all ==> s < TOTAL_PAGEREFS && h.used[s] && h.roots[RootOf(s)] != 0 && s !in h.reserved)
    && (forall s :: s in h.reserved ==> s < TOTAL_PAGEREFS && h.used[s])
  }

  /** The use counts are right; and while a page of descriptors is in use, every earlier one exists
      or is full. */
  ghost predicate Counts(h: Heap)
    requires Shape(h)
  {
    && (forall r :: 0 <= r < NUM_PAGEREFPAGES ==> h.numinuse[r] == Trues(RootBits(h.used, r)))
    && forall q, r :: 0 <= r < q < NUM_PAGEREFPAGES && h.numinuse[q] > 0 ==>
         h.roots[r] != 0 || h.numinuse[r] == NPAGEREFS_PER_PAGE
  }

  /** Every managed page's free list is sound. */
  ghost predicate Pages(h: Heap) {
    && (forall s :: s in h.free <==> s in h.all)
    && forall s :: s in h.all ==> s < |h.refs| && RefOf(h, s).blktype < NSIZES && PageSound(h.mem, RefOf(h, s), FreeOf(h, s))
  }

  ghost predicate PageSound(mem: map<nat, nat>, r: PageRef, free: seq<nat>) {
    FreeList(mem, r.page, r.blktype, r.offset, r.nfree, free)
  }

  /** Block b of the page of descriptor s. */
  ghost function BlockOf(h: Heap, s: nat, b: nat): nat
  {
    BlockAddr(RefOf(h, s).page, RefOf(h, s).blktype, b)
  }

  function PageOf(a: nat): nat {
    a / PAGE_SIZE * PAGE_SIZE
  }

  /** The blocks in use are exactly those not on a free list. */
  ghost predicate LiveOrFree(h: Heap) {
    forall s, b :: s in h.all && 0 <= b < Blocks(RefOf(h, s).blktype) ==>
      (BlockOf(h, s, b) in h.live <==> b !in FreeOf(h, s))
  }

  /** A block in use is a block of a managed page, and as large as was asked for. */
  ghost predicate LiveFits(h: Heap, a: nat)
    requires a in h.live
  {
    && PageOf(a) in h.use && h.use[PageOf(a)].HeapPage?
    && var s := h.use[PageOf(a)].slot;
    && s in h.all && (a - PageOf(a)) % SizeOf(RefOf(h, s).blktype) == 0 && h.live[a] <= SizeOf(RefOf(h, s).blktype)
  }

  ghost predicate Lives(h: Heap) {
    LiveOrFree(h) && forall a :: a in h.live ==> LiveFits(h, a)
  }

  /** Allocations of whole pages, each n pages from an address on, do not overlap. */
  ghost predicate Apart(kpages: map<nat, nat>) {
    && (forall p :: p in kpages ==> p > 0 && p % PAGE_SIZE == 0 && kpages[p] > 0)
    && (forall p, q :: p in kpages && q in kpages && p < q ==> p + kpages[p] * PAGE_SIZE <= q)
  }

  /** Each page allocation has one use, and the allocations do not overlap. */
  ghost predicate Uses(h: Heap)
    requires Shape(h)
  {
    && h.use.Keys == h.kpages.Keys
    && Apart(h.kpages)
    && (forall s :: s in h.all ==> s < |h.refs| && RefOf(h, s).page in h.use && h.use[RefOf(h, s).page] == HeapPage(s))
    && (forall r :: 0 <= r < NUM_PAGEREFPAGES && h.roots[r] != 0 ==> h.roots[r] in h.use && h.use[h.roots[r]] == RefPage(r))
    && (forall p :: p in h.use ==> UseFits(h, p))
  }

  ghost predicate UseFits(h: Heap, p: nat)
    requires Shape(h) && p in h.use && h.use.Keys == h.kpages.Keys
  {
    match h.use[p]
    case HeapPage(s) => s in h.all && s < |h.refs| && RefOf(h, s).page == p && h.kpages[p] == 1
    case RefPage(r) => r < NUM_PAGEREFPAGES && h.roots[r] == p && h.kpages[p] == 1
    case Large(bytes) => bytes <= h.kpages[p] * PAGE_SIZE
    case Pending => true
  }

  /** The bookkeeping, without saying that every managed page has a block in use. */
  ghost predicate Kept(h: Heap) {
    Shape(h) && Lists(h) && Slots(h) && Counts(h) && Pages(h) && Lives(h) && Uses(h)
  }

  /** No managed page is wholly free. */
  ghost predicate NoneIdle(h: Heap) {
    forall s :: s in h.all ==> |FreeOf(h, s)| < Blocks(RefOf(h, s).blktype)
  }

  /** What holds whenever the heap's spinlock is free. */
  ghost predicate Inv(h: Heap) {
    Kept(h) && NoneIdle(h)
  }

  // ---------------------------------------------------------------- what it means

  lemma BlockPage(page: nat, k: nat, b: nat)
    requires b < Blocks(k) && page % PAGE_SIZE == 0
    ensures PageOf(BlockAddr(page, k, b)) == page
    ensures (BlockAddr(page, k, b) - page) % SizeOf(k) == 0
  {
    BlockInPage(page, k, b);
    BlockMultiple(k, b);
  }

  lemma SameBlock(page: nat, k: nat, b: nat, c: nat)
    requires b < Blocks(k) && c < Blocks(k) && BlockAddr(page, k, b) == BlockAddr(page, k, c)
    ensures b == c
  {
    if b < c {
      BlocksApart(page, k, b, c);
    } else if c < b {
      BlocksApart(page, k, c, b);
    }
  }

  /** A block belongs to one page and one place on it. */
  lemma OneBlock(h: Heap, s: nat, b: nat, t: nat, c: nat)
    requires Kept(h) && s in h.all && t in h.all
    requires b < Blocks(RefOf(h, s).blktype) && c < Blocks(RefOf(h, t).blktype) && BlockOf(h, s, b) == BlockOf(h, t, c)
    ensures s == t && b == c
  {
    hide Lists, Slots, Counts, Lives, Numbers, Threaded, Describes, BlockAddr;
    BlockPage(RefOf(h, s).page, RefOf(h, s).blktype, b);
    BlockPage(RefOf(h, t).page, RefOf(h, t).blktype, c);
    assert h.use[RefOf(h, s).page] == HeapPage(s) && h.use[RefOf(h, t).page] == HeapPage(t);
    SameBlock(RefOf(h, s).page, RefOf(h, s).blktype, b, c);
  }

  /** The descriptor and the place of a block in use. */
  lemma WhichBlock(h: Heap, a: nat) returns (s: nat, b: nat)
    requires Kept(h) && a in h.live
    ensures s in h.all && s < |h.refs| && b < Blocks(RefOf(h, s).blktype) && a == BlockOf(h, s, b) && b !in FreeOf(h, s)
    ensures RefOf(h, s).page == PageOf(a) && h.live[a] <= SizeOf(RefOf(h, s).blktype)
  {
    hide Lists, Slots, Counts, Numbers, Threaded, Describes, BlockAddr;
    s := h.use[PageOf(a)].slot;
    assert LiveFits(h, a) && PageOf(a) <= a < PageOf(a) + PAGE_SIZE;
    assert UseFits(h, PageOf(a));
    b := BlockAt(RefOf(h, s).page, RefOf(h, s).blktype, a);
    assert BlockOf(h, s, b) == a;
  }

  /** The room a block takes up. */
  ghost predicate Covers(h: Heap, s: nat, b: nat, x: nat)
  {
    BlockOf(h, s, b) <= x < BlockOf(h, s, b) + SizeOf(RefOf(h, s).blktype)
  }

  /** Two different blocks, free or in use, on the same page or not, have no byte in common; nor has
      a block with any other page allocation. */
  lemma NoOverlap(h: Heap, s: nat, b: nat, x: nat)
    requires Kept(h) && s in h.all && b < Blocks(RefOf(h, s).blktype) && Covers(h, s, b, x)
    ensures forall t, c :: t in h.all && 0 <= c < Blocks(RefOf(h, t).blktype) && Covers(h, t, c, x) ==> t == s && c == b
    ensures forall p :: p in h.kpages && p <= x < p + h.kpages[p] * PAGE_SIZE ==> p == RefOf(h, s).page
  {
    hide Lists, Slots, Counts, Lives, Numbers, Threaded, Describes, BlockAddr;
    var page := RefOf(h, s).page;
    BlockInPage(page, RefOf(h, s).blktype, b);
    assert UseFits(h, page);
    assert page in h.kpages && page <= x < page + h.kpages[page] * PAGE_SIZE;
    forall t, c | t in h.all && 0 <= c < Blocks(RefOf(h, t).blktype) && Covers(h, t, c, x)
      ensures t == s && c == b
    {
      BlockInPage(RefOf(h, t).page, RefOf(h, t).blktype, c);
      assert UseFits(h, RefOf(h, t).page);
      assert RefOf(h, t).page == page && h.use[page] == HeapPage(t) && t == s;
      if b < c {
        BlocksApart(page, RefOf(h, s).blktype, b, c);
      } else if c < b {
        BlocksApart(page, RefOf(h, s).blktype, c, b);
      }
    }
  }

  /** The blocks of a page that are in use. */
  ghost function InUse(h: Heap, s: nat): set<nat>
  {
    set b: nat | b < Blocks(RefOf(h, s).blktype) && BlockOf(h, s, b) in h.live
  }

  /** Free blocks and blocks in use make up the page. */
  lemma Conservation(h: Heap, s: nat)
    requires Kept(h) && s in h.all
    ensures RefOf(h, s).nfree == |FreeOf(h, s)| && RefOf(h, s).nfree + |InUse(h, s)| == Blocks(RefOf(h, s).blktype)
  {
    hide Lists, Slots, Counts, Uses, Threaded, BlockAddr, BlockOf;
    var k, listed := RefOf(h, s).blktype, Elements(FreeOf(h, s));
    DistinctCount(FreeOf(h, s));
    Partition(k, InUse(h, s), listed);
  }

  lemma Partition(k: nat, a: set<nat>, b: set<nat>)
    requires forall x: nat :: x < Blocks(k) ==> (x in a <==> x !in b)
    requires forall x :: x in a || x in b ==> x < Blocks(k)
    ensures |a| + |b| == Blocks(k)
  {
    assert a + b == UpTo(Blocks(k)) && a * b == {};
  }
}
