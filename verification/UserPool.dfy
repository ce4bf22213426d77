/**
 * The loader's pool of user pages: up to sixteen slots keyed by virtual page, each backed
 * by one physical page, and what the pool shows at a user address.
 */
module UserPool {
  import opened Memory
  import opened Mmu
  import opened UserSpace

  /** First physical address the linker gives to kernel objects. */
  const KERNEL_START := 0x4003_0000

  /**
   * Physical addresses of the loader's page-aligned static arrays, and the bytes of RAM that the
   * kernel also writes but that nothing here describes: its stacks, and the statics
   * user_page_vaddrs, user_page_flags, user_page_count and user_syscall_observed, whose values
   * are fields of the model's classes.
   */
  datatype ArrayLayout = ArrayLayout(romTables: int, userTable: int, imagePages: int, userStack: int, scratch: set<int>) {
    predicate Valid() {
      && romTables % PAGE_SIZE == 0 && userTable % PAGE_SIZE == 0
      && imagePages % PAGE_SIZE == 0 && userStack % PAGE_SIZE == 0
      && KERNEL_START <= romTables <= PHYS_TOP - 0x4000 && KERNEL_START <= userTable <= PHYS_TOP - 0x1000
      && KERNEL_START <= imagePages <= PHYS_TOP - 0x1_0000 && KERNEL_START <= userStack <= PHYS_TOP - 0x1000
      && Apart(romTables, 0x4000, userTable, 0x1000)
      && Apart(romTables, 0x4000, imagePages, 0x1_0000)
      && Apart(romTables, 0x4000, userStack, 0x1000)
      && Apart(userTable, 0x1000, imagePages, 0x1_0000)
      && Apart(userTable, 0x1000, userStack, 0x1000)
      && Apart(imagePages, 0x1_0000, userStack, 0x1000)
      && forall i {:trigger i in scratch} :: i in scratch ==> KERNEL_START <= i < PHYS_TOP && !InArrays(i)
    }

    predicate InArrays(i: int) {
      || romTables <= i < romTables + 0x4000 || userTable <= i < userTable + 0x1000
      || imagePages <= i < imagePages + 0x1_0000 || userStack <= i < userStack + 0x1000
    }

    function PageAddress(k: int): int { imagePages + PAGE_SIZE * k }
  }

  type Layout = l: ArrayLayout | l.Valid() witness ArrayLayout(0x4004_0000, 0x4005_0000, 0x4006_0000, 0x4007_0000, {})

  predicate Apart(a: int, n: int, b: int, k: int) {
    a + n <= b || b + k <= a
  }

  datatype Slot = Slot(vaddr: u32, flags: u32)

  /** The first slot for a page, or -1. */
  function IndexOf(pool: seq<Slot>, page: int): (k: int)
    ensures -1 <= k < |pool|
    ensures k >= 0 ==> pool[k].vaddr == page
    ensures forall j {:trigger pool[j]} :: 0 <= j < |pool| && (k < 0 || j < k) ==> pool[j].vaddr != page
  {
    if pool == [] then -1
    else
      var k := IndexOf(pool[..|pool| - 1], page);
      if k >= 0 then k
      else if pool[|pool| - 1].vaddr == page then |pool| - 1
      else -1
  }

  predicate IsUserPage(page: int) {
    USER_IMAGE_BASE <= page < USER_STACK_BOTTOM && page % PAGE_SIZE == 0
  }

  /** The pool invariant: at most sixteen live slots for distinct user image pages. */
  ghost predicate PoolOk(pool: seq<Slot>) {
    && |pool| <= MAX_USER_IMAGE_PAGES
    && (forall k {:trigger pool[k]} :: 0 <= k < |pool| ==> IsUserPage(pool[k].vaddr))
    && forall j, k {:trigger pool[j], pool[k]} :: 0 <= j < k < |pool| ==> pool[j].vaddr != pool[k].vaddr
  }

  lemma IndexOfAppend(pool: seq<Slot>, s: Slot, page: int)
    ensures IndexOf(pool + [s], page) ==
      if IndexOf(pool, page) >= 0 then IndexOf(pool, page) else if s.vaddr == page then |pool| else -1
  {
    assert (pool + [s])[..|pool|] == pool;
  }

  lemma IndexOfSlot(pool: seq<Slot>, k: int)
    requires PoolOk(pool) && 0 <= k < |pool|
    ensures IndexOf(pool, pool[k].vaddr) == k
  {
  }

  /** The byte the pool holds for user address va; None when its page is not in the pool. */
  function UserByte(m: Mem, layout: Layout, pool: seq<Slot>, va: int): Option<byte>
    requires |pool| <= MAX_USER_IMAGE_PAGES
  {
    var k := IndexOf(pool, PageOf(va));
    if k < 0 then None else Some(m[layout.PageAddress(k) + (va - PageOf(va))])
  }

  /** A new slot shows a page of zeros and disturbs nothing else. */
  lemma CreatePage(m: Mem, layout: Layout, pool: seq<Slot>, page: u32, flags: u32, va: int)
    requires |pool| < MAX_USER_IMAGE_PAGES
    requires IndexOf(pool, page) < 0
    ensures UserByte(Store(m, layout.PageAddress(|pool|), Zeros(PAGE_SIZE)), layout, pool + [Slot(page, flags)], va) ==
      if PageOf(va) == page then Some(0) else UserByte(m, layout, pool, va)
  {
    IndexOfAppend(pool, Slot(page, flags), PageOf(va));
    PageBounds(va);
    ZeroPage(m, layout, |pool|, IndexOf(pool, PageOf(va)), va - PageOf(va));
  }

  /** Clearing page n of the pool leaves the pages below it alone. */
  lemma ZeroPage(m: Mem, layout: Layout, n: nat, k: int, offset: int)
    requires k < n < MAX_USER_IMAGE_PAGES && 0 <= offset < PAGE_SIZE
    ensures Store(m, layout.PageAddress(n), Zeros(PAGE_SIZE))[layout.PageAddress(n) + offset] == 0
    ensures k >= 0 ==>
      Store(m, layout.PageAddress(n), Zeros(PAGE_SIZE))[layout.PageAddress(k) + offset] == m[layout.PageAddress(k) + offset]
  {
  }

  /** Writing inside one pool page is a flat write at the user addresses of that page. */
  lemma WriteInPage(m: Mem, layout: Layout, pool: seq<Slot>, k: int, offset: int, bs: seq<byte>, va: int)
    requires PoolOk(pool) && 0 <= k < |pool|
    requires 0 <= offset && offset + |bs| <= PAGE_SIZE
    ensures UserByte(Store(m, layout.PageAddress(k) + offset, bs), layout, pool, va) ==
      var start := pool[k].vaddr + offset;
      if start <= va < start + |bs| then Some(bs[va - start]) else UserByte(m, layout, pool, va)
  {
    PageBounds(va);
    var start := pool[k].vaddr + offset;
    if start <= va < start + |bs| {
      PageIsUnique(pool[k].vaddr, va);
      IndexOfSlot(pool, k);
    }
  }

  ghost function PoolPages(pool: seq<Slot>): set<int> {
    set k | 0 <= k < |pool| :: pool[k].vaddr as int
  }

  lemma {:induction false} PoolPagesCount(pool: seq<Slot>)
    requires forall j, k {:trigger pool[j], pool[k]} :: 0 <= j < k < |pool| ==> pool[j].vaddr != pool[k].vaddr
    ensures |PoolPages(pool)| == |pool|
  {
    if pool != [] {
      var n := |pool| - 1;
      var rest := pool[..n];
      PoolPagesCount(rest);
      assert PoolPages(pool) == PoolPages(rest) + {pool[n].vaddr as int};
      assert pool[n].vaddr !in PoolPages(rest);
    }
  }

  /** The pool after some segments: exactly their pages, with their permissions. */
  ghost predicate PoolFor(pool: seq<Slot>, segs: seq<Segment>, imageSize: u32)
  {
    && PoolOk(pool) && AllAcceptable(segs, imageSize)
    && (forall page {:trigger IndexOf(pool, page)} :: page % PAGE_SIZE == 0 ==>
          (IndexOf(pool, page) >= 0 <==> Touched(segs, page)))
    && forall s, k {:trigger s in segs, pool[k]} :: s in segs && 0 <= k < |pool| && s.Touches(pool[k].vaddr)
         ==> pool[k].flags == PteFlags(s.flags)
  }

  /** The number of live slots is the number of distinct pages touched. */
  lemma PoolCount(pool: seq<Slot>, segs: seq<Segment>, imageSize: u32)
    requires PoolFor(pool, segs, imageSize)
    ensures PoolPages(pool) == TouchedPages(segs) && |TouchedPages(segs)| == |pool|
  {
    PoolPagesCount(pool);
    forall page ensures page in PoolPages(pool) <==> page in TouchedPages(segs)
    {
      if page in PoolPages(pool) {
        var k :| 0 <= k < |pool| && pool[k].vaddr == page;
        assert IndexOf(pool, page) >= 0;
      }
      if page in TouchedPages(segs) {
        assert IndexOf(pool, page) >= 0;
      }
    }
  }

  /** A pool that exists for all segments proves them consistent. */
  lemma PoolConsistent(pool: seq<Slot>, segs: seq<Segment>, imageSize: u32)
    requires PoolFor(pool, segs, imageSize)
    ensures Consistent(segs)
  {
    forall s, t, page | s in segs && t in segs && page % PAGE_SIZE == 0 && s.Touches(page) && t.Touches(page)
      ensures s.flags == t.flags
    {
      assert Touched(segs, page);
      var k := IndexOf(pool, page);
      assert s.Acceptable(imageSize) && t.Acceptable(imageSize);
      PteFlagsInjective(s.flags, t.flags);
    }
  }
}
