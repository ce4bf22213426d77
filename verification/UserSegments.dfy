/** Loading a segment table into the pool: each step keeps the pool equal to the overlay so far. */
module UserSegments {
  import opened Memory
  import opened Mmu
  import opened UserSpace
  import opened UserPool
  import opened UserLoader
  import opened ImageChecks

  /** At every user address the pool shows the overlay of segs, read from the ROM of m0. */
  ghost predicate Shows(m0: Mem, segs: seq<Segment>, m: Mem, layout: Layout, pool: seq<Slot>)
    requires |pool| <= MAX_USER_IMAGE_PAGES && AllAcceptable(segs, SYSTEM_ROM_SIZE)
  {
    forall va {:trigger UserByte(m, layout, pool, va)} :: UserByte(m, layout, pool, va) == Overlay(m0, segs, va)
  }

  /** The loader's state after the segments segs, all of them accepted. */
  ghost predicate Holding(m0: Mem, segs: seq<Segment>, imageSize: u32, m: Mem, layout: Layout, pool: seq<Slot>) {
    && imageSize <= SYSTEM_ROM_SIZE
    && PoolFor(pool, segs, imageSize)
    && SameOn(m0, m, 0, RAM_BASE)
    && (forall s {:trigger s in segs} :: s in segs ==> s.Acceptable(SYSTEM_ROM_SIZE))
    && Shows(m0, segs, m, layout, pool)
  }

  lemma HoldingNothing(m0: Mem, imageSize: u32, m: Mem, layout: Layout)
    requires imageSize <= SYSTEM_ROM_SIZE && SameOn(m0, m, 0, RAM_BASE)
    ensures Holding(m0, [], imageSize, m, layout, [])
  {
  }

  /** The pages a preparation loop ran over are the pages its segment touches. */
  lemma RangePages(s: Segment, stop: int, page: int)
    requires page % PAGE_SIZE == 0 && stop % PAGE_SIZE == 0
    requires s.vaddr + s.memorySize <= stop < s.vaddr + s.memorySize + PAGE_SIZE
    ensures PageOf(s.vaddr) <= page < stop <==> s.Touches(page)
  {
    PageBounds(s.vaddr);
    if page < PageOf(s.vaddr) { NextPage(page, PageOf(s.vaddr)); }
    if page < stop { NextPage(page, stop); }
  }

  lemma PoolStep(pool: seq<Slot>, pool1: seq<Slot>, segs: seq<Segment>, s: Segment, imageSize: u32, stop: int)
    requires PoolFor(pool, segs, imageSize) && s.Acceptable(imageSize)
    requires PoolGrown(pool, pool1, PageOf(s.vaddr), stop, PteFlags(s.flags))
    requires stop % PAGE_SIZE == 0 && s.vaddr + s.memorySize <= stop < s.vaddr + s.memorySize + PAGE_SIZE
    ensures PoolFor(pool1, segs + [s], imageSize)
  {
    forall page | page % PAGE_SIZE == 0 ensures IndexOf(pool1, page) >= 0 <==> Touched(segs + [s], page) {
      RangePages(s, stop, page);
      TouchedAppend(segs, s, page);
      assert IndexOf(pool, page) >= 0 <==> Touched(segs, page);
    }
    forall t, k | t in segs + [s] && 0 <= k < |pool1| && t.Touches(pool1[k].vaddr)
      ensures pool1[k].flags == PteFlags(t.flags)
    {
      var page := pool1[k].vaddr;
      assert IsUserPage(page);
      if t == s {
        RangePages(s, stop, page);
      } else {
        assert t in segs && Touched(segs, page);
        var j := IndexOf(pool, page);
        assert pool1[j] == pool[j];
        IndexOfSlot(pool1, j);
        IndexOfSlot(pool1, k);
      }
    }
  }

  /** Prepare, zero, copy: together they lay the segment over what was shown before. */
  lemma BytesStep(m0: Mem, segs: seq<Segment>, s: Segment, layout: Layout, pool: seq<Slot>, pool1: seq<Slot>,
                  m1: Mem, m2: Mem, m3: Mem, m4: Mem, stop: int, va: int)
    requires |pool| <= MAX_USER_IMAGE_PAGES && |pool1| <= MAX_USER_IMAGE_PAGES
    requires AllAcceptable(segs, SYSTEM_ROM_SIZE) && s.Acceptable(SYSTEM_ROM_SIZE)
    requires UserByte(m1, layout, pool, va) == Overlay(m0, segs, va)
    requires BytesGrown(m1, pool, m2, pool1, layout, PageOf(s.vaddr), stop)
    requires stop % PAGE_SIZE == 0 && s.vaddr + s.memorySize <= stop < s.vaddr + s.memorySize + PAGE_SIZE
    requires Written(m2, m3, layout, pool1, s.vaddr, Zeros(s.memorySize))
    requires SameOn(m0, m3, 0, RAM_BASE)
    requires Written(m3, m4, layout, pool1, s.vaddr, SourceBytes(m3, Some(SYSTEM_ROM_BASE + s.dataOffset), s.fileSize))
    ensures AllAcceptable(segs + [s], SYSTEM_ROM_SIZE)
    ensures UserByte(m4, layout, pool1, va) == Overlay(m0, segs + [s], va)
  {
    OverlayAppend(m0, segs, s, va);
    PageBounds(va);
    RangePages(s, stop, PageOf(va));
    var file := SourceBytes(m3, Some(SYSTEM_ROM_BASE + s.dataOffset), s.fileSize);
    var b := UserByte(m4, layout, pool1, va);
    if s.Holds(va) {
      if va - s.vaddr < s.fileSize {
        assert b == Some(file[va - s.vaddr]);
        assert file[va - s.vaddr] == m3[SYSTEM_ROM_BASE + s.dataOffset + (va - s.vaddr)];
      } else {
        assert b == UserByte(m3, layout, pool1, va) == Some(Zeros(s.memorySize)[va - s.vaddr]);
      }
    } else {
      assert b == UserByte(m3, layout, pool1, va) == UserByte(m2, layout, pool1, va);
    }
  }

  lemma HoldingFits(m0: Mem, segs: seq<Segment>, imageSize: u32, m: Mem, layout: Layout, pool: seq<Slot>)
    requires Holding(m0, segs, imageSize, m, layout, pool)
    ensures Fits(segs, imageSize)
  {
    PoolConsistent(pool, segs, imageSize);
    PoolCount(pool, segs, imageSize);
  }

  /** A page that could not be had shows that the segments do not fit together. */
  lemma StuckDoesNotFit(segs: seq<Segment>, s: Segment, imageSize: u32, pool: seq<Slot>, pool1: seq<Slot>, page: int)
    requires PoolFor(pool, segs, imageSize) && s.Acceptable(imageSize)
    requires page % PAGE_SIZE == 0 && PageOf(s.vaddr) <= page < s.vaddr + s.memorySize
    requires PoolGrown(pool, pool1, PageOf(s.vaddr), page, PteFlags(s.flags))
    requires Stuck(pool, pool1, page, PteFlags(s.flags))
    ensures !Fits(segs + [s], imageSize)
  {
    var all := segs + [s];
    PageBounds(s.vaddr);
    assert s in all && s.Touches(page);
    var k := IndexOf(pool, page);
    if k >= 0 {
      assert Touched(segs, page);
      var t :| t in segs && t.Touches(page);
      assert t in all && pool[k].flags == PteFlags(t.flags);
      assert !Consistent(all);
    } else {
      PoolPagesCount(pool1);
      forall p | p in PoolPages(pool1) ensures p in TouchedPages(all)
      {
        var j :| 0 <= j < |pool1| && pool1[j].vaddr == p;
        TouchedAppend(segs, s, p);
        assert IsUserPage(pool1[j].vaddr) && IndexOf(pool1, p) >= 0;
        if IndexOf(pool, p) < 0 {
          assert s.Touches(p);
        } else {
          assert Touched(segs, p);
        }
      }
      PageNotBelow(USER_IMAGE_BASE, s.vaddr);
      assert page in TouchedPages(all) && page !in PoolPages(pool1);
      SubsetCount(PoolPages(pool1) + {page}, TouchedPages(all));
    }
  }

  /** The body of the segment loop: succeeds exactly when the segment fits on top of the others. */
  method LoadSegment(loader: Loader, ghost m0: Mem, ghost segs: seq<Segment>, s: Segment, imageSize: u32)
    returns (ok: bool)
    requires loader.Valid()
    requires Holding(m0, segs, imageSize, loader.mem[..], loader.layout, loader.pool)
    modifies loader.mem, loader.vaddrs, loader.flags, loader`count, loader`pool
    ensures loader.Valid()
    ensures ok <==> Fits(segs + [s], imageSize)
    ensures ok ==> Holding(m0, segs + [s], imageSize, loader.mem[..], loader.layout, loader.pool)
    ensures SameBut(old(loader.mem[..]), loader.mem[..], loader.layout.imagePages, loader.layout.imagePages + 0x1_0000)
  {
    ghost var m1: Mem, pool, layout := loader.mem[..], loader.pool, loader.layout;
    if SegmentRejected(s, imageSize) {
      assert s in segs + [s];
      return false;
    }
    var pteFlags := PteFlagsFromSegment(s.flags);
    ghost var stop;
    ok, stop := loader.PrepareUserRange(s.vaddr, s.memorySize, pteFlags);
    ghost var m2: Mem, pool1 := loader.mem[..], loader.pool;
    if !ok {
      StuckDoesNotFit(segs, s, imageSize, pool, pool1, stop);
      return;
    }
    PoolStep(pool, pool1, segs, s, imageSize, stop);
    SegmentCovered(pool1, segs, s, imageSize);
    ok := loader.WriteUserRange(s.vaddr, None, s.memorySize);
    ghost var m3: Mem := loader.mem[..];
    ok := loader.WriteUserRange(s.vaddr, Some(SYSTEM_ROM_BASE + s.dataOffset), s.fileSize);
    ghost var m4: Mem := loader.mem[..];
    forall va ensures UserByte(m4, layout, pool1, va) == Overlay(m0, segs + [s], va) {
      assert UserByte(m1, layout, pool, va) == Overlay(m0, segs, va);
      BytesStep(m0, segs, s, layout, pool, pool1, m1, m2, m3, m4, stop, va);
    }
    HoldingFits(m0, segs + [s], imageSize, m4, layout, pool1);
  }

  /** After preparation no write into the segment's range can fail. */
  lemma SegmentCovered(pool: seq<Slot>, segs: seq<Segment>, s: Segment, imageSize: u32)
    requires PoolFor(pool, segs + [s], imageSize)
    ensures Covered(pool, s.vaddr, s.vaddr + s.memorySize)
    ensures Covered(pool, s.vaddr, s.vaddr + s.fileSize)
  {
    assert s in segs + [s] && s.Acceptable(imageSize);
    forall va | s.Holds(va) ensures IndexOf(pool, PageOf(va)) >= 0 {
      HoldsTouches(s, va);
      PageBounds(va);
      assert Touched(segs + [s], PageOf(va));
    }
  }
}
