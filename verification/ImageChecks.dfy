/** The bounds tests the kernel applies to packed-image offsets, and what they are equal to. */
module ImageChecks {
  import opened Bits
  import opened Memory
  import opened UserSpace

  /** Subtract-then-compare on uint32_t decides the unbounded sum. */
  function ImageRangeValid(offset: u32, length: u32, imageSize: u32): (r: bool)
    ensures r <==> offset + length <= imageSize
  {
    offset <= imageSize && length <= (imageSize - offset) % 0x1_0000_0000
  }

  function ImageRecordsValid(offset: u32, count: u32, imageSize: u32): (r: bool)
    ensures r <==> offset + 32 * count <= imageSize
  {
    ShiftRight5(if offset <= imageSize then imageSize - offset else 0);
    offset <= imageSize && count <= ShiftRight(imageSize - offset, 5)
  }

  lemma ShiftRight5(x: nat)
    ensures ShiftRight(x, 5) == x / 32
  {
    ShiftRight4(x, 1);
    assert ShiftRight(x / 16, 1) == x / 16 / 2;
  }

  /** `flags & ~(R | W | X)` is zero exactly for flags below 8. */
  lemma ForeignFlags(flags: u32)
    ensures And(flags, 0xffff_fff8) == 0 <==> flags < 8
  {
    assert ShiftLeft(0x1fff_ffff, 3) == 0xffff_fff8;
    AndShifted(flags, 0x1fff_ffff, 3);
    assert ShiftRight(flags, 3) == flags / 8;
    AllOnes29(flags / 8);
    assert ShiftLeft(flags / 8, 3) == 8 * (flags / 8);
  }

  lemma AllOnes29(x: nat)
    requires x < 0x2000_0000
    ensures And(x, 0x1fff_ffff) == x
  {
    AndOnes(x, 29);
    Shift29();
    ShiftRight29(x);
    assert ShiftLeft(0, 29) == 0 by { ShiftZero(29); }
  }

  lemma {:induction false} ShiftZero(k: nat)
    ensures ShiftLeft(0, k) == 0
  {
    if k > 0 { ShiftZero(k - 1); }
  }

  lemma Shift29()
    ensures ShiftLeft(1, 29) == 0x2000_0000
  {
    Shift20(1);
    assert ShiftLeft(1, 24) == 0x100_0000;
  }

  lemma ShiftRight29(x: nat)
    requires x < 0x2000_0000
    ensures ShiftRight(x, 29) == 0
  {
    ShiftRight4(x, 25);
    ShiftRight4(x / 16, 21);
    assert x / 16 / 16 / 2 == x / 0x200;
    assert ShiftRight(x / 0x100, 21) == ShiftRight(x / 0x200, 20);
    ShiftRight20(x / 0x200);
  }

  lemma FlagTests(flags: u32)
    requires flags < 8
    ensures And(flags, 1) != 0 <==> flags % 2 == 1
    ensures And(flags, 2) != 0 <==> flags / 2 % 2 == 1
    ensures And(flags, 4) != 0 <==> flags >= SEGMENT_EXECUTABLE
  {
    assert flags == 0 || flags == 1 || flags == 2 || flags == 3 || flags == 4 || flags == 5 || flags == 6 || flags == 7;
  }

  /** The loader's rejection test for one segment, as written in C. */
  function SegmentRejected(s: Segment, imageSize: u32): (r: bool)
    ensures r <==> !s.Acceptable(imageSize)
  {
    ForeignFlags(s.flags);
    assert s.flags < 8 ==> (And(s.flags, 4) != 0 <==> s.IsExecutable()) && (And(s.flags, 1) == 0 <==> s.flags % 2 == 0) by {
      if s.flags < 8 { FlagTests(s.flags); }
    }
    s.memorySize == 0 || s.fileSize > s.memorySize
    || And(s.flags, 0xffff_fff8) != 0
    || (And(s.flags, 4) != 0 && And(s.flags, 1) == 0)
    || s.vaddr < USER_IMAGE_BASE
    || s.vaddr >= USER_STACK_BOTTOM
    || s.memorySize > USER_STACK_BOTTOM - s.vaddr
    || !ImageRangeValid(s.dataOffset, s.fileSize, imageSize)
  }

  lemma PermissionOrs()
    ensures Or(0, 16) == 16 && Or(0, 2) == 2 && Or(0, 8) == 8
    ensures Or(16, 2) == 18 && Or(16, 8) == 24 && Or(2, 8) == 10 && Or(18, 8) == 26
  {
  }

  method PteFlagsFromSegment(flags: u32) returns (pte: u32)
    requires flags < 8
    ensures pte == PteFlags(flags)
  {
    FlagTests(flags);
    PermissionOrs();
    pte := 0;
    if And(flags, 1) != 0 { pte := Or(pte, 16); }
    if And(flags, 2) != 0 { pte := Or(pte, 2); }
    if And(flags, 4) != 0 { pte := Or(pte, 8); }
  }
}
