/**
 * The physical address space up to the end of RAM, one byte per address, and the
 * byte and word stores every program here is made of.  An index is a physical address.
 */
module Memory {

  type byte = x: int | 0 <= x < 0x100
  type u32 = x: int | 0 <= x < 0x1_0000_0000

  const SYSTEM_ROM_BASE := 0x0800_0000
  const SYSTEM_ROM_SIZE := 0x0100_0000
  const RAM_BASE := 0x4000_0000
  const PHYS_TOP := 0x4400_0000

  type Mem = m: seq<byte> | |m| == PHYS_TOP ghost witness seq(PHYS_TOP, i => 0)

  /** a + b as uint32_t and the processor compute it. */
  function Add32(a: u32, b: int): u32 { (a + b) % 0x1_0000_0000 }

  predicate IsWordAddress(a: int) {
    0 <= a <= PHYS_TOP - 4
  }

  function WordOf(b0: int, b1: int, b2: int, b3: int): int {
    b0 + 0x100 * b1 + 0x1_0000 * b2 + 0x100_0000 * b3
  }

  /** The little-endian word at address a. */
  function Word(m: Mem, a: int): (w: u32)
    requires IsWordAddress(a)
  {
    WordOf(m[a], m[a + 1], m[a + 2], m[a + 3])
  }

  /** Entry k of the word table at address t. */
  function Entry(m: Mem, t: int, k: int): (w: u32)
    requires IsWordAddress(t + 4 * k)
  {
    Word(m, t + 4 * k)
  }

  function WordBytes(v: u32): (bs: seq<byte>)
    ensures |bs| == 4
  {
    var v1 := v / 0x100;
    var v2 := v1 / 0x100;
    [v % 0x100, v1 % 0x100, v2 % 0x100, v2 / 0x100]
  }

  /** m with bs stored from address a on. */
  function Store(m: Mem, a: int, bs: seq<byte>): (r: Mem)
    requires 0 <= a <= a + |bs| <= PHYS_TOP
    ensures r[a..a + |bs|] == bs
    ensures forall i {:trigger r[i]} :: 0 <= i < PHYS_TOP ==>
      r[i] == if a <= i < a + |bs| then bs[i - a] else m[i]
    ensures forall b {:trigger Word(r, b)} :: IsWordAddress(b) && (b + 4 <= a || a + |bs| <= b) ==>
      Word(r, b) == Word(m, b)
  {
    seq(PHYS_TOP, i requires 0 <= i < PHYS_TOP => if a <= i < a + |bs| then bs[i - a] else m[i])
  }

  function PutWord(m: Mem, a: int, v: u32): (r: Mem)
    requires IsWordAddress(a)
    ensures Word(r, a) == v
    ensures forall i {:trigger r[i]} :: 0 <= i < PHYS_TOP && !(a <= i < a + 4) ==> r[i] == m[i]
    ensures forall b {:trigger Word(r, b)} :: IsWordAddress(b) && (b + 4 <= a || a + 4 <= b) ==>
      Word(r, b) == Word(m, b)
  {
    WordRoundTrip(v);
    var r := Store(m, a, WordBytes(v));
    assert WordBytes(v) == [r[a], r[a + 1], r[a + 2], r[a + 3]];
    r
  }

  lemma WordRoundTrip(v: u32)
    ensures var bs := WordBytes(v); WordOf(bs[0], bs[1], bs[2], bs[3]) == v
  {
  }

  /** The first byte of a word is its least significant. */
  lemma WordInBytes(m: Mem, a: int)
    requires IsWordAddress(a)
    ensures var w := Word(m, a);
      && m[a] == w % 0x100 && m[a + 1] == w / 0x100 % 0x100 && m[a + 2] == w / 0x1_0000 % 0x100 && m[a + 3] == w / 0x100_0000
  {
    var b0: int, b1: int, b2: int, b3: int := m[a], m[a + 1], m[a + 2], m[a + 3];
    var w: int := Word(m, a);
    var w2 := b2 + 0x100 * b3;
    var w1 := b1 + 0x100 * w2;
    assert w == b0 + 0x100 * w1;
    assert w / 0x100 == w1;
    assert w1 / 0x100 == w2 && w / 0x1_0000 == w2;
    assert w2 / 0x100 == b3 && w / 0x100_0000 == b3;
  }

  /** m and m' agree on [lo, hi). */
  ghost predicate SameOn(m: Mem, m': Mem, lo: int, hi: int) {
    forall i {:trigger m'[i]} :: 0 <= i < PHYS_TOP && lo <= i < hi ==> m'[i] == m[i]
  }

  /** m and m' agree outside [lo, hi). */
  ghost predicate SameBut(m: Mem, m': Mem, lo: int, hi: int) {
    forall i {:trigger m'[i]} :: 0 <= i < PHYS_TOP && !(lo <= i < hi) ==> m'[i] == m[i]
  }

  /** m and m' agree on every byte outside x. */
  ghost predicate SameOutside(m: Mem, m': Mem, x: set<int>) {
    forall i {:trigger m'[i]} :: 0 <= i < PHYS_TOP && i !in x ==> m'[i] == m[i]
  }

  /** The addresses from lo up to hi. */
  function Range(lo: int, hi: int): (x: set<int>)
    ensures forall i {:trigger i in x} :: i in x <==> lo <= i < hi
  {
    set i {:trigger InRange(lo, hi, i)} | lo <= i < hi && InRange(lo, hi, i)
  }

  predicate InRange(lo: int, hi: int, i: int) { lo <= i < hi }

  lemma WordKept(m: Mem, m': Mem, a: int)
    requires IsWordAddress(a) && SameOn(m, m', a, a + 4)
    ensures Word(m', a) == Word(m, a)
  {
    assert m'[a] == m[a] && m'[a + 1] == m[a + 1] && m'[a + 2] == m[a + 2] && m'[a + 3] == m[a + 3];
  }

  /** A table of n words outside the changed bytes keeps its entries. */
  lemma TableKept(m: Mem, m': Mem, t: int, n: nat)
    requires 0 <= t && t + 4 * n <= PHYS_TOP && SameOn(m, m', t, t + 4 * n)
    ensures forall k {:trigger Entry(m', t, k)} :: 0 <= k < n ==> Entry(m', t, k) == Entry(m, t, k)
  {
    forall k | 0 <= k < n ensures Entry(m', t, k) == Entry(m, t, k) { WordKept(m, m', t + 4 * k); }
  }

  lemma PutOutside(m: Mem, a: int, v: u32, lo: int, hi: int)
    requires IsWordAddress(a) && (a + 4 <= lo || hi <= a)
    ensures SameOn(m, PutWord(m, a, v), lo, hi)
  {
  }

  lemma StoreAppend(m: Mem, a: int, bs: seq<byte>, b: byte)
    requires 0 <= a <= a + |bs| < PHYS_TOP
    ensures Store(m, a, bs + [b]) == Store(m, a, bs)[a + |bs| := b]
  {
  }

  function Zeros(n: nat): (bs: seq<byte>)
    ensures |bs| == n
    ensures forall i {:trigger bs[i]} :: 0 <= i < n ==> bs[i] == 0
  {
    seq(n, i => 0)
  }

  method WriteWord(mem: array<byte>, a: int, v: u32)
    requires mem.Length == PHYS_TOP && IsWordAddress(a)
    modifies mem
    ensures mem[..] == PutWord(old(mem[..]), a, v)
  {
    var bs := WordBytes(v);
    mem[a] := bs[0];
    mem[a + 1] := bs[1];
    mem[a + 2] := bs[2];
    mem[a + 3] := bs[3];
    assert mem[..] == Store(old(mem[..]), a, bs);
  }

  method ReadWord(mem: array<byte>, a: int) returns (v: u32)
    requires mem.Length == PHYS_TOP && IsWordAddress(a)
    ensures v == Word(mem[..], a)
  {
    v := WordOf(mem[a], mem[a + 1], mem[a + 2], mem[a + 3]);
  }

  /** The ascending byte loop shared by all programs: right whenever no source byte is overwritten before it is read. */
  method CopyBytes(mem: array<byte>, destination: int, source: int, length: nat)
    requires mem.Length == PHYS_TOP
    requires 0 <= destination && destination + length <= PHYS_TOP
    requires 0 <= source && source + length <= PHYS_TOP
    requires destination <= source || source + length <= destination
    modifies mem
    ensures mem[..] == Store(old(mem[..]), destination, old(mem[source..source + length]))
  {
    ghost var m: Mem := mem[..];
    ghost var bytes := m[source..source + length];
    var index := 0;
    while index < length
      invariant 0 <= index <= length
      invariant mem[..] == Store(m, destination, bytes[..index])
    {
      var b := mem[source + index];
      assert b == mem[..][source + index] == m[source + index] == bytes[index];
      assert bytes[..index + 1] == bytes[..index] + [bytes[index]];
      StoreAppend(m, destination, bytes[..index], b);
      mem[destination + index] := b;
      index := index + 1;
    }
    assert bytes[..length] == bytes;
  }

  method ZeroBytes(mem: array<byte>, destination: int, length: nat)
    requires mem.Length == PHYS_TOP
    requires 0 <= destination && destination + length <= PHYS_TOP
    modifies mem
    ensures mem[..] == Store(old(mem[..]), destination, Zeros(length))
  {
    ghost var m: Mem := mem[..];
    var index := 0;
    while index < length
      invariant 0 <= index <= length
      invariant mem[..] == Store(m, destination, Zeros(index))
    {
      StoreAppend(m, destination, Zeros(index), 0);
      assert Zeros(index + 1) == Zeros(index) + [0];
      mem[destination + index] := 0;
      index := index + 1;
    }
  }

  /** Stores of any values to bytes of x, which nobody describes. */
  method Scribble(mem: array<byte>, x: set<int>)
    requires mem.Length == PHYS_TOP
    modifies mem
    ensures SameOutside(old(mem[..]), mem[..], x)
  {
    var stores: int := *;
    while stores > 0
      invariant SameOutside(old(mem[..]), mem[..], x)
    {
      var i: int, b: byte :| true;
      if i in x && 0 <= i < PHYS_TOP {
        mem[i] := b;
      }
      stores := stores - 1;
    }
  }

  /** Word stores to consecutive addresses. */
  function WordsStored(m: Mem, p: int, ws: seq<u32>): (r: Mem)
    requires 0 <= p && p + 4 * |ws| <= PHYS_TOP
  {
    if ws == [] then m else PutWord(WordsStored(m, p, ws[..|ws| - 1]), p + 4 * (|ws| - 1), ws[|ws| - 1])
  }

  /** The words ws lie at p and the addresses after it. */
  ghost predicate WordsAt(m: Mem, p: int, ws: seq<u32>)
    requires 0 <= p && p + 4 * |ws| <= PHYS_TOP
  {
    forall i {:trigger ws[i]} :: 0 <= i < |ws| ==> Word(m, p + 4 * i) == ws[i]
  }

  lemma {:induction false} WordsStoredRead(m: Mem, p: int, ws: seq<u32>)
    requires 0 <= p && p + 4 * |ws| <= PHYS_TOP
    ensures WordsAt(WordsStored(m, p, ws), p, ws)
    ensures SameBut(m, WordsStored(m, p, ws), p, p + 4 * |ws|)
  {
    if ws != [] {
      WordsStoredRead(m, p, ws[..|ws| - 1]);
    }
  }

  /** A run of word stores to consecutive addresses. */
  method WriteWords(mem: array<byte>, p: int, ws: seq<u32>)
    requires mem.Length == PHYS_TOP && 0 <= p && p + 4 * |ws| <= PHYS_TOP
    modifies mem
    ensures mem[..] == WordsStored(old(mem[..]), p, ws)
  {
    ghost var m: Mem := mem[..];
    for i := 0 to |ws|
      invariant mem[..] == WordsStored(m, p, ws[..i])
    {
      assert ws[..i + 1] == ws[..i] + [ws[i]];
      WordsStoredAppend(m, p, ws[..i], ws[i]);
      WriteWord(mem, p + 4 * i, ws[i]);
    }
    assert ws[..|ws|] == ws;
  }

  lemma WordsStoredAppend(m: Mem, p: int, ws: seq<u32>, w: u32)
    requires 0 <= p && p + 4 * |ws| + 4 <= PHYS_TOP
    ensures WordsStored(m, p, ws + [w]) == PutWord(WordsStored(m, p, ws), p + 4 * |ws|, w)
  {
    assert (ws + [w])[..|ws|] == ws;
  }
}
