/** The freestanding memory routines of the kernel runtime. */
module RuntimeMemory {
  import opened Memory

  /** What section 7.24.2.2 of ISO C11 asks of memmove: as if through a temporary copy of the source. */
  function Moved(m: Mem, destination: int, source: int, length: nat): (r: Mem)
    requires 0 <= destination && destination + length <= PHYS_TOP && 0 <= source && source + length <= PHYS_TOP
  {
    Store(m, destination, m[source..source + length])
  }

  /** Correct for every overlap, because the copying direction follows the order of the pointers. */
  method MemMove(mem: array<byte>, destination: int, source: int, length: nat)
    requires mem.Length == PHYS_TOP
    requires 0 <= destination && destination + length <= PHYS_TOP && 0 <= source && source + length <= PHYS_TOP
    modifies mem
    ensures mem[..] == Moved(old(mem[..]), destination, source, length)
    ensures forall i {:trigger mem[..][destination + i]} :: 0 <= i < length ==> mem[..][destination + i] == old(mem[..])[source + i]
    ensures SameBut(old(mem[..]), mem[..], destination, destination + length)
  {
    if destination < source {
      CopyBytes(mem, destination, source, length);
    } else {
      CopyDown(mem, destination, source, length);
    }
  }

  /** The descending loop. */
  method CopyDown(mem: array<byte>, destination: int, source: int, length: nat)
    requires mem.Length == PHYS_TOP
    requires 0 <= destination && destination + length <= PHYS_TOP && 0 <= source && source + length <= PHYS_TOP
    requires source <= destination
    modifies mem
    ensures mem[..] == Moved(old(mem[..]), destination, source, length)
  {
    ghost var m: Mem := mem[..];
    var index := length;
    while index != 0
      invariant 0 <= index <= length
      invariant forall j {:trigger mem[j]} :: 0 <= j < PHYS_TOP ==>
        mem[j] == if destination + index <= j < destination + length then m[source + (j - destination)] else m[j]
    {
      mem[destination + index - 1] := mem[source + index - 1];
      index := index - 1;
    }
    MovedByteByByte(m, mem[..], destination, source, length);
  }

  lemma MovedByteByByte(m: Mem, m': Mem, destination: int, source: int, length: nat)
    requires 0 <= destination && destination + length <= PHYS_TOP && 0 <= source && source + length <= PHYS_TOP
    requires forall j {:trigger m'[j]} :: 0 <= j < PHYS_TOP ==>
      m'[j] == if destination <= j < destination + length then m[source + (j - destination)] else m[j]
    ensures m' == Moved(m, destination, source, length)
  {
  }

  /** memcpy, whose ranges do not overlap, does what memmove does. */
  method MemCpy(mem: array<byte>, destination: int, source: int, length: nat)
    requires mem.Length == PHYS_TOP
    requires 0 <= destination && destination + length <= PHYS_TOP && 0 <= source && source + length <= PHYS_TOP
    requires source + length <= destination || destination + length <= source
    modifies mem
    ensures mem[..] == Moved(old(mem[..]), destination, source, length)
    ensures forall i {:trigger mem[..][destination + i]} :: 0 <= i < length ==> mem[..][destination + i] == old(mem[..])[source + i]
    ensures SameBut(old(mem[..]), mem[..], destination, destination + length)
  {
    CopyBytes(mem, destination, source, length);
  }
}
