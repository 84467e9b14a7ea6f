/**
 Where a byte stream lies in a 2 KiB window of the W5100's memory, when it is
 addressed by free-running 16-bit pointers (src/w5100_socket.c:804-840).
 */
module RingMemory {
  import opened Bytes

  const SOCKETS: nat := 4
  const MEM_SIZE: nat := 0x8000

  function TxBase(s: nat): nat {
    0x4000 + 0x800 * s
  }

  function RxBase(s: nat): nat {
    0x6000 + 0x800 * s
  }

  /** The windows of the four sockets follow each other: those for transmitting fill the memory
      from 0x4000 on, and those for receiving that from 0x6000 on, 8 KiB each. */
  lemma WindowsExactly(addr: nat, s: nat)
    requires s < SOCKETS
    ensures TxBase(s) <= addr < TxBase(s) + 0x800 <==> 0x4000 <= addr < 0x6000 && s == (addr - 0x4000) / 0x800
    ensures RxBase(s) <= addr < RxBase(s) + 0x800 <==> 0x6000 <= addr < MEM_SIZE == 0x8000 && s == (addr - 0x6000) / 0x800
  {
  }

  /** The 16-bit pointer register for stream position pos. */
  function Ptr(pos: nat): (p: nat)
    ensures p < 0x1_0000
  {
    pos % 0x1_0000
  }

  /** The memory cell of stream position pos in the window at base. */
  function Cell(base: nat, pos: nat): (a: nat)
    ensures base <= a < base + 0x800
  {
    base + pos % 0x800
  }

  /** The window at base holds data from stream position from on. */
  ghost predicate Holds(mem: seq<Byte>, base: nat, from: nat, data: seq<Byte>)
    requires base + 0x800 <= |mem|
  {
    forall i: nat {:trigger data[i]} | i < |data| :: mem[Cell(base, from + i)] == data[i]
  }

  /** The mask keeps the low 11 bits of the pointer, which are those of the position. */
  lemma MaskOfPtr(pos: nat)
    ensures Ptr(pos) % 0x800 == pos % 0x800
  {
    var q := pos / 0x1_0000;
    assert pos == q * 32 * 0x800 + Ptr(pos);
    ModPlusMultiple(Ptr(pos), q * 32);
  }

  lemma ModPlusMultiple(x: nat, k: nat)
    ensures (x + k * 0x800) % 0x800 == x % 0x800
  {
  }

  /** The two halves of the split copy: before and after the end of the window. */
  lemma CellAfter(base: nat, pos: nat, i: nat)
    ensures pos % 0x800 + i < 0x800 ==> Cell(base, pos + i) == base + pos % 0x800 + i
    ensures 0x800 <= pos % 0x800 + i < 0x1000 ==> Cell(base, pos + i) == base + (pos % 0x800 + i - 0x800)
  {
  }

  /** Pointer arithmetic in 16 bits follows the position. */
  lemma PtrAdvance(pos: nat, n: nat)
    ensures (Ptr(pos) + n) % 0x1_0000 == Ptr(pos + n)
  {
  }

  /** The 16-bit pointer difference is the distance, as long as that fits in 16 bits. */
  lemma PtrDistance(lo: nat, n: nat)
    requires n < 0x1_0000
    ensures (Ptr(lo + n) - Ptr(lo)) % 0x1_0000 == n
  {
  }

  /** Positions less than a window apart lie in different cells. */
  lemma CellsDistinct(base: nat, p: nat, q: nat)
    requires p < q < p + 0x800
    ensures Cell(base, p) != Cell(base, q)
  {
  }

  /** Writing the next cell appends a byte and overwrites none of the data. */
  lemma HoldsSnoc(mem: seq<Byte>, base: nat, from: nat, data: seq<Byte>, b: Byte)
    requires base + 0x800 <= |mem| && Holds(mem, base, from, data) && |data| < 0x800
    ensures Holds(mem[Cell(base, from + |data|) := b], base, from, data + [b])
  {
    var mem' := mem[Cell(base, from + |data|) := b];
    forall i: nat | i < |data + [b]| ensures mem'[Cell(base, from + i)] == (data + [b])[i] {
      if i < |data| {
        CellsDistinct(base, from + i, from + |data|);
        assert data[i] == (data + [b])[i];
      }
    }
  }

  /** Dropping bytes from the front moves the starting position. */
  lemma HoldsDrop(mem: seq<Byte>, base: nat, from: nat, data: seq<Byte>, n: nat)
    requires base + 0x800 <= |mem| && Holds(mem, base, from, data) && n <= |data|
    ensures Holds(mem, base, from + n, data[n..])
  {
    forall i: nat | i < |data[n..]| ensures mem[Cell(base, from + n + i)] == data[n..][i] {
      assert data[n..][i] == data[n + i];
      assert from + n + i == from + (n + i);
    }
  }

  /** A write outside the window leaves its contents alone. */
  lemma HoldsElsewhere(mem: seq<Byte>, base: nat, from: nat, data: seq<Byte>, addr: nat, b: Byte)
    requires base + 0x800 <= |mem| && Holds(mem, base, from, data)
    requires addr < |mem| && !(base <= addr < base + 0x800)
    ensures Holds(mem[addr := b], base, from, data)
  {
  }
}
