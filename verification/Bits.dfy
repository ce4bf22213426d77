/** Bitwise `&` and `|` of unsigned C integers, as functions on natural numbers. */
module Bits {

  function And(x: nat, y: nat): nat {
    if x == 0 || y == 0 then 0
    else 2 * And(x / 2, y / 2) + (if x % 2 == 1 && y % 2 == 1 then 1 else 0)
  }

  function Or(x: nat, y: nat): nat {
    if x == 0 then y
    else if y == 0 then x
    else 2 * Or(x / 2, y / 2) + (if x % 2 == 1 || y % 2 == 1 then 1 else 0)
  }

  function ShiftLeft(x: nat, k: nat): (r: nat)
    ensures x > 0 ==> r > 0
    decreases k
  {
    if k == 0 then x else 2 * ShiftLeft(x, k - 1)
  }

  function ShiftRight(x: nat, k: nat): nat
    decreases k
  {
    if k == 0 then x else ShiftRight(x / 2, k - 1)
  }

  lemma {:induction false} AndShifted(x: nat, h: nat, k: nat)
    ensures And(x, ShiftLeft(h, k)) == ShiftLeft(And(ShiftRight(x, k), h), k)
  {
    if k > 0 {
      AndShifted(x / 2, h, k - 1);
      assert ShiftLeft(h, k) / 2 == ShiftLeft(h, k - 1);
    }
  }

  lemma {:induction false} OrCommutes(x: nat, y: nat)
    ensures Or(x, y) == Or(y, x)
  {
    if x != 0 && y != 0 { OrCommutes(x / 2, y / 2); }
  }

  /** Low bits y are kept apart from the high part q << k. */
  lemma {:induction false} OrShifted(q: nat, y: nat, k: nat)
    requires y < ShiftLeft(1, k)
    ensures Or(ShiftLeft(q, k), y) == ShiftLeft(q, k) + y
  {
    if k > 0 {
      OrShifted(q, y / 2, k - 1);
      assert ShiftLeft(q, k) / 2 == ShiftLeft(q, k - 1);
    }
  }

  /** A mask of k ones keeps the low k bits. */
  lemma {:induction false} AndOnes(x: nat, k: nat)
    ensures And(x, ShiftLeft(1, k) - 1) + ShiftLeft(ShiftRight(x, k), k) == x
  {
    if k > 0 {
      AndOnes(x / 2, k - 1);
      assert (ShiftLeft(1, k) - 1) / 2 == ShiftLeft(1, k - 1) - 1;
    }
  }

  const PAGE_MASK: nat := 0xffff_f000

  /** `x & MINEMU_PTE_PAGE_MASK` rounds a 32-bit value down to its page. */
  lemma PageMask(x: nat)
    requires x < 0x1_0000_0000
    ensures And(x, PAGE_MASK) == x - x % 4096
  {
    var page := x / 4096;
    assert And(x, PAGE_MASK) == ShiftLeft(And(page, 0xf_ffff), 12) by {
      Shift12(0xf_ffff);
      ShiftRight12(x);
      AndShifted(x, 0xf_ffff, 12);
    }
    assert And(page, 0xf_ffff) == page by {
      Shift20(1);
      Shift20(0);
      ShiftRight20(page);
      AndOnes(page, 20);
    }
    Shift12(page);
  }

  /** `base | flags` for a page-aligned base and flags below one page. */
  lemma OrPage(base: nat, flags: nat)
    requires base % 4096 == 0 && flags < 4096
    ensures Or(base, flags) == base + flags
  {
    Shift12(1);
    Shift12(base / 4096);
    OrShifted(base / 4096, flags, 12);
  }

  lemma Shift12(x: nat)
    ensures ShiftLeft(x, 12) == 4096 * x
  {
    assert ShiftLeft(x, 4) == 16 * x;
    assert ShiftLeft(x, 8) == 256 * x;
  }

  lemma Shift20(x: nat)
    ensures ShiftLeft(x, 20) == 0x10_0000 * x
  {
    Shift12(x);
    assert ShiftLeft(x, 16) == 0x1_0000 * x;
  }

  lemma ShiftRight4(x: nat, k: nat)
    ensures ShiftRight(x, k + 4) == ShiftRight(x / 16, k)
  {
    assert ShiftRight(x, k + 4) == ShiftRight(x / 2, k + 3);
    assert ShiftRight(x / 2, k + 3) == ShiftRight(x / 2 / 2, k + 2);
    assert ShiftRight(x / 2 / 2, k + 2) == ShiftRight(x / 2 / 2 / 2, k + 1);
    assert ShiftRight(x / 2 / 2 / 2, k + 1) == ShiftRight(x / 2 / 2 / 2 / 2, k);
    assert x / 2 / 2 / 2 / 2 == x / 16;
  }

  lemma ShiftRight12(x: nat)
    ensures ShiftRight(x, 12) == x / 4096
  {
    ShiftRight4(x, 8);
    ShiftRight4(x / 16, 4);
    ShiftRight4(x / 256, 0);
  }

  lemma ShiftRight20(x: nat)
    ensures ShiftRight(x, 20) == x / 0x10_0000
  {
    ShiftRight4(x, 16);
    ShiftRight4(x / 16, 12);
    assert x / 16 / 16 == x / 0x100;
    ShiftRight12(x / 0x100);
    assert x / 0x100 / 0x1000 == x / 0x10_0000;
  }

  /** Base and flags are recovered from their sum by masking. */
  lemma SplitPage(base: nat, flags: nat)
    requires base % 4096 == 0 && base + flags < 0x1_0000_0000 && flags < 32
    ensures And(base + flags, PAGE_MASK) == base
    ensures And(base + flags, 31) == flags
    ensures And(base + flags, 1) == flags % 2
  {
    SplitRemainders(base / 4096, flags);
    PageMask(base + flags);
    LowBits(base + flags);
  }

  lemma SplitRemainders(q: nat, flags: nat)
    requires flags < 32
    ensures (4096 * q + flags) % 4096 == flags
    ensures (4096 * q + flags) % 32 == flags
    ensures (4096 * q + flags) % 2 == flags % 2
  {
    Remainder4096(q, flags);
    assert 4096 * q + flags == 32 * (128 * q) + flags;
    Remainder32(128 * q, flags);
    assert 4096 * q + flags == 2 * (2048 * q) + flags;
    Remainder2(2048 * q, flags);
  }

  lemma Remainder4096(q: int, r: nat)
    requires r < 4096
    ensures (4096 * q + r) % 4096 == r && (4096 * q + r) / 4096 == q
  {
  }

  lemma Remainder32(q: int, r: nat)
    requires r < 32
    ensures (32 * q + r) % 32 == r
  {
  }

  lemma Remainder2(q: int, r: nat)
    ensures (2 * q + r) % 2 == r % 2
  {
  }

  /** Whole pages added to an aligned address keep it aligned. */
  lemma AlignedPlusPages(base: int, n: int)
    requires base % 4096 == 0
    ensures (base + 4096 * n) % 4096 == 0
  {
    var q := base / 4096;
    assert base + 4096 * n == 4096 * (q + n) + 0;
    Remainder4096(q + n, 0);
  }

  lemma LowBits(x: nat)
    ensures And(x, 31) == x % 32 && And(x, 1) == x % 2
  {
    AndOnes(x, 5);
    AndOnes(x, 1);
    ShiftRight4(x, 1);
    assert ShiftRight(x, 5) == x / 32;
    assert ShiftLeft(x / 32, 5) == 32 * (x / 32);
    assert ShiftLeft(1, 5) == 32;
  }

  /** Or-ing low bits into base + f leaves the base alone. */
  lemma OrPageFlags(base: nat, f: nat, g: nat)
    requires base % 4096 == 0 && f < 4096 && g < 4096
    ensures Or(base + f, g) == base + Or(f, g)
  {
    Shift12(1);
    Shift12(base / 4096);
    OrLow(base / 4096, f, g, 12);
  }

  lemma {:induction false} OrLow(q: nat, f: nat, g: nat, k: nat)
    requires f < ShiftLeft(1, k) && g < ShiftLeft(1, k)
    ensures Or(ShiftLeft(q, k) + f, g) == ShiftLeft(q, k) + Or(f, g)
  {
    if k > 0 {
      OrLow(q, f / 2, g / 2, k - 1);
      assert (ShiftLeft(q, k) + f) / 2 == ShiftLeft(q, k - 1) + f / 2;
    }
  }

  lemma LowBits10(x: nat)
    ensures And(x, 1023) == x % 1024
  {
    AndOnes(x, 10);
    ShiftRight4(x, 6);
    ShiftRight4(x / 16, 2);
    assert ShiftRight(x / 16 / 16, 2) == x / 16 / 16 / 4 == x / 1024;
    assert ShiftLeft(1, 5) == 32 && ShiftLeft(1, 10) == 1024;
    assert ShiftLeft(x / 1024, 5) == 32 * (x / 1024);
    assert ShiftLeft(x / 1024, 10) == 1024 * (x / 1024);
  }

  /** Or-ing in the highest bit. */
  lemma {:induction false} OrTop(f: nat, k: nat)
    requires f < 2 * ShiftLeft(1, k)
    ensures Or(f, ShiftLeft(1, k)) == if f >= ShiftLeft(1, k) then f else f + ShiftLeft(1, k)
    decreases k
  {
    if k > 0 { OrTop(f / 2, k - 1); }
  }

  lemma {:induction false} OrIsBounded(x: nat, y: nat, k: nat)
    requires x < ShiftLeft(1, k) && y < ShiftLeft(1, k)
    ensures Or(x, y) < ShiftLeft(1, k)
  {
    if k > 0 { OrIsBounded(x / 2, y / 2, k - 1); }
  }

  /** The operator does not leave 32 bits. */
  lemma OrIsWord(x: nat, y: nat)
    requires x < 0x1_0000_0000 && y < 0x1_0000_0000
    ensures Or(x, y) < 0x1_0000_0000
  {
    Shift20(1);
    assert ShiftLeft(1, 24) == 0x100_0000;
    assert ShiftLeft(1, 28) == 0x1000_0000;
    assert ShiftLeft(1, 32) == 0x1_0000_0000;
    OrIsBounded(x, y, 32);
  }

  /** `x & 3`. */
  lemma LowTwoBits(x: nat)
    ensures And(x, 3) == x % 4
  {
    AndOnes(x, 2);
    assert ShiftRight(x, 2) == x / 4;
    assert ShiftLeft(x / 4, 2) == 4 * (x / 4);
  }

  /** The operators, bit by bit, zero operands included. */
  lemma AndBits(x: nat, y: nat)
    ensures And(x, y) / 2 == And(x / 2, y / 2)
    ensures And(x, y) % 2 == if x % 2 == 1 && y % 2 == 1 then 1 else 0
  {
  }

  lemma OrBits(x: nat, y: nat)
    ensures Or(x, y) / 2 == Or(x / 2, y / 2)
    ensures Or(x, y) % 2 == if x % 2 == 1 || y % 2 == 1 then 1 else 0
  {
  }

  lemma {:induction false} AndOverOr(x: nat, y: nat, z: nat)
    ensures And(Or(x, y), z) == Or(And(x, z), And(y, z))
    decreases x + y + z
  {
    if x != 0 && y != 0 && z != 0 {
      AndOverOr(x / 2, y / 2, z / 2);
      var l, r := And(Or(x, y), z), Or(And(x, z), And(y, z));
      OrBits(x, y);
      AndBits(Or(x, y), z);
      AndBits(x, z);
      AndBits(y, z);
      OrBits(And(x, z), And(y, z));
      assert l / 2 == r / 2 && l % 2 == r % 2;
    }
  }

  lemma {:induction false} AndAnd(x: nat, y: nat, z: nat)
    ensures And(And(x, y), z) == And(x, And(y, z))
  {
    if x != 0 && y != 0 && z != 0 {
      AndAnd(x / 2, y / 2, z / 2);
      var l, r := And(And(x, y), z), And(x, And(y, z));
      AndBits(x, y);
      AndBits(And(x, y), z);
      AndBits(y, z);
      AndBits(x, And(y, z));
      assert l / 2 == r / 2 && l % 2 == r % 2;
    }
  }

  lemma {:induction false} AndDisjoint(q: nat, mask: nat, k: nat)
    requires mask < ShiftLeft(1, k)
    ensures And(ShiftLeft(q, k), mask) == 0
  {
    if k > 0 {
      AndDisjoint(q, mask / 2, k - 1);
      assert ShiftLeft(q, k) / 2 == ShiftLeft(q, k - 1) && ShiftLeft(q, k) % 2 == 0;
    }
  }

  /** A mask below one page sees only the offset. */
  lemma PageOffsetMask(base: nat, c: nat, mask: nat)
    requires base % 4096 == 0 && c < 4096 && mask < 4096
    ensures And(base + c, mask) == And(c, mask)
  {
    OrPage(base, c);
    AndOverOr(base, c, mask);
    Shift12(1);
    Shift12(base / 4096);
    AndDisjoint(base / 4096, mask, 12);
  }

  lemma {:induction false} OrAtLeast(x: nat, y: nat)
    ensures Or(x, y) >= y && Or(x, y) >= x
  {
    if x != 0 && y != 0 { OrAtLeast(x / 2, y / 2); }
  }

  /** Bits of y outside the mask z leave the masked value of x alone. */
  lemma OrOutsideMask(x: nat, y: nat, z: nat)
    requires And(y, z) == 0
    ensures And(Or(x, y), z) == And(x, z)
  {
    AndOverOr(x, y, z);
  }
}
