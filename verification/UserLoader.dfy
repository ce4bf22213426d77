/** The user module loader over its statically allocated arrays. */
module UserLoader {
  import opened Bits
  import opened Memory
  import opened Mmu
  import opened UserSpace
  import opened UserPool

  /** pool' adds to pool the pages from lo up to hi that it lacked, and all of those ask for flags. */
  ghost predicate PoolGrown(pool: seq<Slot>, pool': seq<Slot>, lo: int, hi: int, flags: u32) {
    && pool <= pool' && PoolOk(pool')
    && (forall page {:trigger IndexOf(pool', page)} :: page % PAGE_SIZE == 0 ==>
          (IndexOf(pool', page) >= 0 <==> IndexOf(pool, page) >= 0 || lo <= page < hi))
    && forall k {:trigger pool'[k]} :: 0 <= k < |pool'| && lo <= pool'[k].vaddr < hi ==> pool'[k].flags == flags
  }

  /** Pages that were there keep their contents; the missing ones from lo up to hi appear as zeros. */
  ghost predicate BytesGrown(m: Mem, pool: seq<Slot>, m': Mem, pool': seq<Slot>, layout: Layout, lo: int, hi: int)
    requires |pool| <= MAX_USER_IMAGE_PAGES && |pool'| <= MAX_USER_IMAGE_PAGES
  {
    forall va {:trigger UserByte(m', layout, pool', va)} ::
      UserByte(m', layout, pool', va) ==
        if UserByte(m, layout, pool, va).Some? then UserByte(m, layout, pool, va)
        else if lo <= PageOf(va) < hi then Some(0)
        else None
  }

  ghost predicate Prepared(m: Mem, pool: seq<Slot>, m': Mem, pool': seq<Slot>, layout: Layout,
                           lo: int, hi: int, flags: u32)
    requires PoolOk(pool)
  {
    && PoolGrown(pool, pool', lo, hi, flags)
    && BytesGrown(m, pool, m', pool', layout, lo, hi)
    && SameBut(m, m', layout.imagePages, layout.imagePages + 0x1_0000)
  }

  lemma PreparedNothing(m: Mem, pool: seq<Slot>, layout: Layout, lo: int, flags: u32)
    requires PoolOk(pool)
    ensures Prepared(m, pool, m, pool, layout, lo, lo, flags)
  {
  }

  lemma OnePage(hi: int, page: int)
    requires hi % PAGE_SIZE == 0 && page % PAGE_SIZE == 0 && hi <= page < hi + PAGE_SIZE
    ensures page == hi
  {
  }

  /** The page at hi was there already, with the right flags. */
  lemma FoundPool(pool: seq<Slot>, pool1: seq<Slot>, lo: int, hi: int, flags: u32, k: int)
    requires PoolGrown(pool, pool1, lo, hi, flags)
    requires hi % PAGE_SIZE == 0 && lo <= hi && k == IndexOf(pool1, hi) >= 0 && pool1[k].flags == flags
    ensures PoolGrown(pool, pool1, lo, hi + PAGE_SIZE, flags)
  {
    forall page | page % PAGE_SIZE == 0
      ensures IndexOf(pool1, page) >= 0 <==> IndexOf(pool, page) >= 0 || lo <= page < hi + PAGE_SIZE
    {
      if hi <= page < hi + PAGE_SIZE { OnePage(hi, page); }
    }
    forall j | 0 <= j < |pool1| && lo <= pool1[j].vaddr < hi + PAGE_SIZE ensures pool1[j].flags == flags {
      if hi <= pool1[j].vaddr {
        OnePage(hi, pool1[j].vaddr);
        IndexOfSlot(pool1, j);
      }
    }
  }

  lemma FoundBytes(m: Mem, pool: seq<Slot>, m1: Mem, pool1: seq<Slot>, layout: Layout, lo: int, hi: int)
    requires |pool| <= MAX_USER_IMAGE_PAGES && |pool1| <= MAX_USER_IMAGE_PAGES
    requires BytesGrown(m, pool, m1, pool1, layout, lo, hi)
    requires hi % PAGE_SIZE == 0 && IndexOf(pool, hi) >= 0
    ensures BytesGrown(m, pool, m1, pool1, layout, lo, hi + PAGE_SIZE)
  {
    forall va | hi <= PageOf(va) < hi + PAGE_SIZE ensures UserByte(m, layout, pool, va).Some? {
      PageBounds(va);
      OnePage(hi, PageOf(va));
    }
  }

  /** The page at hi is new. */
  lemma CreatedPool(pool: seq<Slot>, pool1: seq<Slot>, lo: int, hi: u32, flags: u32)
    requires PoolGrown(pool, pool1, lo, hi, flags)
    requires IsUserPage(hi) && lo <= hi && IndexOf(pool1, hi) < 0 && |pool1| < MAX_USER_IMAGE_PAGES
    ensures PoolGrown(pool, pool1 + [Slot(hi, flags)], lo, hi + PAGE_SIZE, flags)
  {
    var pool2 := pool1 + [Slot(hi, flags)];
    forall page | page % PAGE_SIZE == 0
      ensures IndexOf(pool2, page) >= 0 <==> IndexOf(pool, page) >= 0 || lo <= page < hi + PAGE_SIZE
    {
      IndexOfAppend(pool1, Slot(hi, flags), page);
      if hi <= page < hi + PAGE_SIZE { OnePage(hi, page); }
    }
    forall k | 0 <= k < |pool2| && lo <= pool2[k].vaddr < hi + PAGE_SIZE ensures pool2[k].flags == flags {
      if k < |pool1| {
        assert pool2[k] == pool1[k];
        if hi <= pool1[k].vaddr { OnePage(hi, pool1[k].vaddr); }
      }
    }
  }

  lemma CreatedBytes(m: Mem, pool: seq<Slot>, m1: Mem, pool1: seq<Slot>, layout: Layout,
                     lo: int, hi: u32, flags: u32)
    requires |pool| <= MAX_USER_IMAGE_PAGES && |pool1| < MAX_USER_IMAGE_PAGES
    requires BytesGrown(m, pool, m1, pool1, layout, lo, hi)
    requires hi % PAGE_SIZE == 0 && lo <= hi && IndexOf(pool1, hi) < 0 && IndexOf(pool, hi) < 0
    ensures BytesGrown(m, pool, Store(m1, layout.PageAddress(|pool1|), Zeros(PAGE_SIZE)), pool1 + [Slot(hi, flags)],
                       layout, lo, hi + PAGE_SIZE)
  {
    var m2 := Store(m1, layout.PageAddress(|pool1|), Zeros(PAGE_SIZE));
    var pool2 := pool1 + [Slot(hi, flags)];
    forall va
      ensures UserByte(m2, layout, pool2, va) ==
        if UserByte(m, layout, pool, va).Some? then UserByte(m, layout, pool, va)
        else if lo <= PageOf(va) < hi + PAGE_SIZE then Some(0)
        else None
    {
      CreatePage(m1, layout, pool1, hi, flags, va);
      var page := PageOf(va);
      PageBounds(va);
      assert UserByte(m1, layout, pool1, va) ==
        if UserByte(m, layout, pool, va).Some? then UserByte(m, layout, pool, va)
        else if lo <= page < hi then Some(0)
        else None;
      if hi <= page < hi + PAGE_SIZE { OnePage(hi, page); }
    }
  }

  /** m' is m with bytes written at consecutive user addresses from vaddr on. */
  ghost predicate Written(m: Mem, m': Mem, layout: Layout, pool: seq<Slot>, vaddr: int, bytes: seq<byte>)
    requires |pool| <= MAX_USER_IMAGE_PAGES
  {
    && (forall va {:trigger UserByte(m', layout, pool, va)} ::
          UserByte(m', layout, pool, va) ==
            if vaddr <= va < vaddr + |bytes| then Some(bytes[va - vaddr]) else UserByte(m, layout, pool, va))
    && SameBut(m, m', layout.imagePages, layout.imagePages + 0x1_0000)
  }

  lemma WrittenMore(m: Mem, m1: Mem, layout: Layout, pool: seq<Slot>, vaddr: int, bytes: seq<byte>,
                    k: int, offset: int, chunk: seq<byte>)
    requires PoolOk(pool) && Written(m, m1, layout, pool, vaddr, bytes)
    requires 0 <= k < |pool| && 0 <= offset && offset + |chunk| <= PAGE_SIZE
    requires pool[k].vaddr + offset == vaddr + |bytes|
    ensures Written(m, Store(m1, layout.PageAddress(k) + offset, chunk), layout, pool, vaddr, bytes + chunk)
  {
    var m2 := Store(m1, layout.PageAddress(k) + offset, chunk);
    var all := bytes + chunk;
    forall va
      ensures UserByte(m2, layout, pool, va) ==
        if vaddr <= va < vaddr + |all| then Some(all[va - vaddr]) else UserByte(m, layout, pool, va)
    {
      WriteInPage(m1, layout, pool, k, offset, chunk, va);
    }
  }

  /** What write_user_range writes: zeros for a null source. */
  function SourceBytes(m: Mem, source: Option<int>, length: nat): (bs: seq<byte>)
    requires source.Some? ==> 0 <= source.value && source.value + length <= PHYS_TOP
    ensures |bs| == length
  {
    if source.None? then Zeros(length) else m[source.value..source.value + length]
  }

  /** Every page of the user addresses from lo up to hi is in the pool. */
  ghost predicate Covered(pool: seq<Slot>, lo: int, hi: int) {
    forall va {:trigger PageOf(va)} :: lo <= va < hi ==> IndexOf(pool, PageOf(va)) >= 0
  }

  /** A pointer advanced by d, null staying null. */
  function Advance(source: Option<int>, d: nat): Option<int> {
    if source.None? then None else Some(source.value + d)
  }

  lemma CoveredPage(pool: seq<Slot>, lo: int, hi: int)
    requires hi <= PageOf(lo) + PAGE_SIZE && IndexOf(pool, PageOf(lo)) >= 0
    ensures Covered(pool, lo, hi)
  {
    var page := PageOf(lo);
    PageBounds(lo);
    forall va | lo <= va < hi ensures IndexOf(pool, PageOf(va)) >= 0 { PageIsUnique(page, va); }
  }

  lemma CoveredJoin(pool: seq<Slot>, lo: int, mid: int, hi: int)
    requires Covered(pool, lo, mid) && Covered(pool, mid, hi)
    ensures Covered(pool, lo, hi)
  {
  }

  /** The rest of the page, or the rest of the range if that is less. */
  method ChunkLength(offset: int, left: nat) returns (chunk: nat)
    requires 0 <= offset < PAGE_SIZE && left > 0
    ensures 0 < chunk <= left && offset + chunk <= PAGE_SIZE
  {
    chunk := PAGE_SIZE - offset;
    if chunk > left {
      chunk := left;
    }
  }

  method SplitAddress(v: u32) returns (page: u32, offset: int)
    ensures page == PageOf(v) && page % PAGE_SIZE == 0 && 0 <= offset < PAGE_SIZE && page + offset == v
  {
    PageMask(v);
    page := And(v, PAGE_MASK);
    offset := v - page;
  }

  /** Advancing the source pointer reads the next part of the same bytes. */
  lemma SourceAdvance(m: Mem, m1: Mem, source: Option<int>, length: nat, d: nat, chunk: nat)
    requires d + chunk <= length && SameOn(m, m1, 0, RAM_BASE)
    requires source.Some? ==> 0 <= source.value && source.value + length <= RAM_BASE
    ensures SourceBytes(m, source, length)[..d] + SourceBytes(m1, Advance(source, d), chunk) ==
      SourceBytes(m, source, length)[..d + chunk]
  {
    var all, bytes := SourceBytes(m, source, length), SourceBytes(m1, Advance(source, d), chunk);
    forall i | 0 <= i < chunk ensures bytes[i] == all[d + i] {
      if source.Some? {
        assert m1[source.value + d + i] == m[source.value + d + i];
      }
    }
  }

  /** The first d bytes of the source have been written. */
  ghost predicate WrittenUpTo(m: Mem, m': Mem, layout: Layout, pool: seq<Slot>, vaddr: int,
                              source: Option<int>, length: nat, d: int)
    requires |pool| <= MAX_USER_IMAGE_PAGES
    requires source.Some? ==> 0 <= source.value && source.value + length <= RAM_BASE
  {
    0 <= d <= length && Written(m, m', layout, pool, vaddr, SourceBytes(m, source, length)[..d])
  }

  lemma WrittenNothing(m: Mem, layout: Layout, pool: seq<Slot>, vaddr: int, source: Option<int>, length: nat)
    requires |pool| <= MAX_USER_IMAGE_PAGES
    requires source.Some? ==> 0 <= source.value && source.value + length <= RAM_BASE
    ensures WrittenUpTo(m, m, layout, pool, vaddr, source, length, 0)
  {
  }

  lemma WrittenAll(m: Mem, m': Mem, layout: Layout, pool: seq<Slot>, vaddr: int, source: Option<int>, length: nat)
    requires |pool| <= MAX_USER_IMAGE_PAGES
    requires source.Some? ==> 0 <= source.value && source.value + length <= RAM_BASE
    requires WrittenUpTo(m, m', layout, pool, vaddr, source, length, length)
    ensures Written(m, m', layout, pool, vaddr, SourceBytes(m, source, length))
  {
    var all := SourceBytes(m, source, length);
    assert all[..length] == all;
  }

  lemma ChunkStep(m: Mem, m1: Mem, m2: Mem, layout: Layout, pool: seq<Slot>, vaddr: int, source: Option<int>,
                  length: nat, from: Option<int>, d: nat, k: int, offset: int, chunk: nat)
    requires PoolOk(pool) && d + chunk <= length
    requires source.Some? ==> 0 <= source.value && source.value + length <= RAM_BASE
    requires WrittenUpTo(m, m1, layout, pool, vaddr, source, length, d)
    requires 0 <= k < |pool| && 0 <= offset && offset + chunk <= PAGE_SIZE && pool[k].vaddr + offset == vaddr + d
    requires from == Advance(source, d) && m2 == Store(m1, layout.PageAddress(k) + offset, SourceBytes(m1, from, chunk))
    ensures WrittenUpTo(m, m2, layout, pool, vaddr, source, length, d + chunk)
  {
    SourceAdvance(m, m1, source, length, d, chunk);
    WrittenMore(m, m1, layout, pool, vaddr, SourceBytes(m, source, length)[..d], k, offset,
                SourceBytes(m1, Advance(source, d), chunk));
  }

  /** Where write_user_range stands: v, from and left have advanced together over the bytes written. */
  ghost predicate Progress(m: Mem, m': Mem, layout: Layout, pool: seq<Slot>, vaddr: int, source: Option<int>, length: nat,
                           v: int, from: Option<int>, left: int)
    requires |pool| <= MAX_USER_IMAGE_PAGES
    requires source.Some? ==> 0 <= source.value && source.value + length <= RAM_BASE
  {
    && 0 <= left <= length && v == vaddr + (length - left) && from == Advance(source, length - left)
    && Covered(pool, vaddr, v)
    && WrittenUpTo(m, m', layout, pool, vaddr, source, length, length - left)
  }

  lemma ProgressStep(m: Mem, m1: Mem, m2: Mem, layout: Layout, pool: seq<Slot>, vaddr: int, source: Option<int>,
                     length: nat, v: int, from: Option<int>, left: int, k: int, offset: int, chunk: nat)
    requires PoolOk(pool) && chunk <= left
    requires source.Some? ==> 0 <= source.value && source.value + length <= RAM_BASE
    requires Progress(m, m1, layout, pool, vaddr, source, length, v, from, left)
    requires k == IndexOf(pool, PageOf(v)) >= 0 && offset == v - PageOf(v) && 0 <= offset && offset + chunk <= PAGE_SIZE
    requires m2 == Store(m1, layout.PageAddress(k) + offset, SourceBytes(m1, from, chunk))
    ensures Progress(m, m2, layout, pool, vaddr, source, length, v + chunk, Advance(from, chunk), left - chunk)
  {
    CoveredPage(pool, v, v + chunk);
    CoveredJoin(pool, vaddr, v, v + chunk);
    var d := length - left;
    ChunkStep(m, m1, m2, layout, pool, vaddr, source, length, from, d, k, offset, chunk);
    assert length - (left - chunk) == d + chunk && Advance(from, chunk) == Advance(source, d + chunk);
  }

  class Loader {
    const mem: array<byte>
    const layout: Layout
    const vaddrs: array<u32>
    const flags: array<u32>
    var count: nat

    /** The live slots. */
    ghost var pool: seq<Slot>

    ghost predicate Valid()
      reads this, vaddrs, flags
    {
      && mem.Length == PHYS_TOP
      && vaddrs.Length == flags.Length == MAX_USER_IMAGE_PAGES && count == |pool| <= MAX_USER_IMAGE_PAGES
      && vaddrs != flags && mem as object != vaddrs && mem as object != flags
      && forall k {:trigger pool[k]} :: 0 <= k < |pool| ==> pool[k] == Slot(vaddrs[k], flags[k])
    }

    constructor (mem: array<byte>, layout: Layout)
      requires mem.Length == PHYS_TOP
      ensures Valid() && this.mem == mem && this.layout == layout && fresh(vaddrs) && fresh(flags)
      ensures pool == []
    {
      this.mem := mem;
      this.layout := layout;
      vaddrs := new u32[MAX_USER_IMAGE_PAGES];
      flags := new u32[MAX_USER_IMAGE_PAGES];
      count := 0;
      pool := [];
    }

    method UserPageIndex(page: u32, wanted: u32, create: bool) returns (r: int)
      requires Valid()
      modifies mem, vaddrs, flags, this`count, this`pool
      ensures Valid()
      ensures var k := IndexOf(old(pool), page);
        if k < 0 && create && |old(pool)| < MAX_USER_IMAGE_PAGES then
          && r == |old(pool)| && pool == old(pool) + [Slot(page, wanted)]
          && mem[..] == Store(old(mem[..]), layout.PageAddress(|old(pool)|), Zeros(PAGE_SIZE))
        else
          && r == (if k >= 0 && create && old(pool)[k].flags != wanted then -1 else k)
          && pool == old(pool) && mem[..] == old(mem[..])
    {
      var index := 0;
      while index < count
        invariant 0 <= index <= count == old(count)
        invariant forall j :: 0 <= j < index ==> pool[j].vaddr != page
      {
        assert pool[index] == Slot(vaddrs[index], flags[index]);
        if vaddrs[index] == page {
          if create && flags[index] != wanted {
            return -1;
          }
          return index;
        }
        index := index + 1;
      }
      if !create || count == MAX_USER_IMAGE_PAGES {
        return -1;
      }
      index := count;
      count := count + 1;
      vaddrs[index] := page;
      flags[index] := wanted;
      pool := pool + [Slot(page, wanted)];
      ZeroBytes(mem, layout.PageAddress(index), PAGE_SIZE);
      return index;
    }

    /** One turn of the loop in PrepareUserRange, on a pool that has grown from (m0, pool0) so far. */
    method PreparePage(ghost m0: Mem, ghost pool0: seq<Slot>, ghost lo: int, page: u32, wanted: u32)
      returns (k: int)
      requires Valid() && PoolOk(pool0) && IsUserPage(page) && lo <= page
      requires Prepared(m0, pool0, mem[..], pool, layout, lo, page, wanted)
      modifies mem, vaddrs, flags, this`count, this`pool
      ensures Valid()
      ensures k >= 0 ==> Prepared(m0, pool0, mem[..], pool, layout, lo, page + PAGE_SIZE, wanted)
      ensures k < 0 ==> Prepared(m0, pool0, mem[..], pool, layout, lo, page, wanted)
      ensures k < 0 ==> Stuck(pool0, pool, page, wanted)
    {
      ghost var m1: Mem, pool1 := mem[..], pool;
      assert PoolOk(pool1) && (IndexOf(pool1, page) >= 0 <==> IndexOf(pool0, page) >= 0);
      k := UserPageIndex(page, wanted, true);
      if IndexOf(pool1, page) < 0 {
        if k >= 0 {
          CreatedPool(pool0, pool1, lo, page, wanted);
          CreatedBytes(m0, pool0, m1, pool1, layout, lo, page, wanted);
        }
      } else {
        assert IndexOf(pool0, page) == IndexOf(pool1, page) by {
          IndexOfSlot(pool1, IndexOf(pool0, page));
        }
        if k >= 0 {
          FoundPool(pool0, pool1, lo, page, wanted, k);
          FoundBytes(m0, pool0, m1, pool1, layout, lo, page);
        }
      }
    }

    /** A failed call names in stop the page it stopped at; otherwise stop is where the loop ended. */
    method PrepareUserRange(vaddr: u32, length: u32, wanted: u32) returns (ok: bool, ghost stop: int)
      requires Valid() && PoolOk(pool)
      requires USER_IMAGE_BASE <= vaddr && 0 < length && vaddr + length <= USER_STACK_BOTTOM
      modifies mem, vaddrs, flags, this`count, this`pool
      ensures Valid() && stop % PAGE_SIZE == 0 && PageOf(vaddr) <= stop
      ensures Prepared(old(mem[..]), old(pool), mem[..], pool, layout, PageOf(vaddr), stop, wanted)
      ensures ok ==> vaddr + length <= stop < vaddr + length + PAGE_SIZE
      ensures !ok ==> stop < vaddr + length && Stuck(old(pool), pool, stop, wanted)
    {
      ghost var m0: Mem, pool0 := mem[..], pool;
      var end := Add32(vaddr, length);
      assert end == vaddr + length;
      var page, offset := SplitAddress(vaddr);
      ghost var lo := page;
      PageNotBelow(USER_IMAGE_BASE, vaddr);
      PreparedNothing(m0, pool0, layout, lo, wanted);
      while page < end
        invariant Valid()
        invariant lo <= page < end + PAGE_SIZE && page % PAGE_SIZE == 0
        invariant Prepared(m0, pool0, mem[..], pool, layout, lo, page, wanted)
        decreases end - page
      {
        var k := PreparePage(m0, pool0, lo, page, wanted);
        if k < 0 {
          return false, page;
        }
        AddPage(page);
        page := Add32(page, PAGE_SIZE);
      }
      return true, page;
    }

    /** Fails exactly when some page of the range is not in the pool; otherwise writes the whole range. */
    method WriteUserRange(vaddr: u32, source: Option<int>, length: u32) returns (ok: bool)
      requires Valid() && PoolOk(pool)
      requires vaddr + length <= USER_STACK_BOTTOM
      requires source.Some? ==> 0 <= source.value && source.value + length <= RAM_BASE
      modifies mem, vaddrs, flags, this`count, this`pool
      ensures Valid() && pool == old(pool)
      ensures ok <==> Covered(pool, vaddr, vaddr + length)
      ensures ok ==> Written(old(mem[..]), mem[..], layout, pool, vaddr, SourceBytes(old(mem[..]), source, length))
      ensures SameBut(old(mem[..]), mem[..], layout.imagePages, layout.imagePages + 0x1_0000)
    {
      ghost var m0: Mem, pool0 := mem[..], pool;
      var v, from, left := vaddr, source, length;
      WrittenNothing(m0, layout, pool0, vaddr, source, length);
      while left != 0
        invariant Valid() && pool == pool0
        invariant Progress(m0, mem[..], layout, pool0, vaddr, source, length, v, from, left)
        decreases left
      {
        var chunk := WriteNext(m0, vaddr, source, length, v, from, left);
        if chunk == 0 {
          return false;
        }
        from := Advance(from, chunk);
        v := Add32(v, chunk);
        left := left - chunk;
      }
      WrittenAll(m0, mem[..], layout, pool0, vaddr, source, length);
      return true;
    }

    /** One turn of the loop in WriteUserRange, on memory that started out as m0. */
    method WriteNext(ghost m0: Mem, ghost vaddr: u32, ghost source: Option<int>, ghost length: nat,
                     v: u32, from: Option<int>, left: nat) returns (chunk: nat)
      requires Valid() && PoolOk(pool) && 0 < left
      requires source.Some? ==> 0 <= source.value && source.value + length <= RAM_BASE
      requires Progress(m0, mem[..], layout, pool, vaddr, source, length, v, from, left)
      modifies mem, vaddrs, flags, this`count, this`pool
      ensures Valid() && pool == old(pool)
      ensures chunk == 0 <==> IndexOf(pool, PageOf(v)) < 0
      ensures chunk == 0 ==> mem[..] == old(mem[..])
      ensures chunk > 0 ==> chunk <= left
      ensures chunk > 0 ==> Progress(m0, mem[..], layout, pool, vaddr, source, length, v + chunk, Advance(from, chunk), left - chunk)
    {
      ghost var m1: Mem, slots := mem[..], pool;
      ghost var index, offset;
      chunk, index, offset := WriteStep(v, from, left);
      ghost var m2: Mem := mem[..];
      if chunk > 0 {
        ProgressStep(m0, m1, m2, layout, slots, vaddr, source, length, v, from, left, index, offset, chunk);
      }
    }

    /** The bytes one turn writes: none if the page at v is missing. */
    method WriteStep(v: u32, from: Option<int>, left: nat) returns (chunk: nat, ghost index: int, ghost offset: int)
      requires Valid() && 0 < left
      requires from.Some? ==> 0 <= from.value && from.value + left <= RAM_BASE
      modifies mem, vaddrs, flags, this`count, this`pool
      ensures Valid() && pool == old(pool)
      ensures index == IndexOf(pool, PageOf(v)) && offset == v - PageOf(v)
      ensures chunk == 0 <==> index < 0
      ensures chunk == 0 ==> mem[..] == old(mem[..])
      ensures chunk > 0 ==> chunk <= left && 0 <= offset && offset + chunk <= PAGE_SIZE
      ensures chunk > 0 ==> mem[..] == Store(old(mem[..]), layout.PageAddress(index) + offset, SourceBytes(old(mem[..]), from, chunk))
    {
      var page, start := SplitAddress(v);
      var slot := FindUserPage(page);
      index, offset := slot, start;
      if slot < 0 {
        chunk := 0;
        return;
      }
      chunk := ChunkLength(start, left);
      WriteChunk(from, slot, start, chunk);
    }

    /** The lookup use of user_page_index, which creates nothing. */
    method FindUserPage(page: u32) returns (index: int)
      requires Valid()
      modifies mem, vaddrs, flags, this`count, this`pool
      ensures Valid() && pool == old(pool) && mem[..] == old(mem[..])
      ensures index == IndexOf(pool, page)
    {
      index := UserPageIndex(page, 0, false);
    }

    /** The copy or zero of one chunk, which lies inside one page. */
    method WriteChunk(from: Option<int>, index: int, offset: int, chunk: nat)
      requires Valid() && 0 <= index < MAX_USER_IMAGE_PAGES
      requires from.Some? ==> 0 <= from.value && from.value + chunk <= RAM_BASE
      requires 0 <= offset && offset + chunk <= PAGE_SIZE
      modifies mem
      ensures Valid() && pool == old(pool)
      ensures mem[..] == Store(old(mem[..]), layout.PageAddress(index) + offset, SourceBytes(old(mem[..]), from, chunk))
    {
      if from.None? {
        ZeroBytes(mem, layout.PageAddress(index) + offset, chunk);
      } else {
        CopyBytes(mem, layout.PageAddress(index) + offset, from.value, chunk);
      }
    }
  }

  lemma AddPage(page: u32)
    requires page < USER_STACK_BOTTOM && page % PAGE_SIZE == 0
    ensures Add32(page, PAGE_SIZE) == page + PAGE_SIZE && (page + PAGE_SIZE) % PAGE_SIZE == 0
  {
  }

  /** Why a page could not be had: it is there with other flags, or the pool is full. */
  ghost predicate Stuck(pool0: seq<Slot>, pool: seq<Slot>, page: int, flags: u32) {
    var k := IndexOf(pool0, page);
    if k >= 0 then pool0[k].flags != flags
    else IndexOf(pool, page) < 0 && |pool| == MAX_USER_IMAGE_PAGES
  }

  lemma PageNotBelow(base: int, va: int)
    requires base % PAGE_SIZE == 0 && base <= va
    ensures base <= PageOf(va)
  {
  }
}
