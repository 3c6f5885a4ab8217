/** The NOR flash driver on a chip whose program command clears bits only and wraps inside a
    256-byte page. */
module NorFlash {
  import opened Bytes
  import opened RingIndex

  const PAGE := 256
  const CHIP := 0x800_0000

  /** Bitwise AND of the lowest `n` bits. */
  function AndBits(a: nat, b: nat, n: nat): nat {
    if n == 0 then 0 else 2 * AndBits(a / 2, b / 2, n - 1) + (if a % 2 == 1 && b % 2 == 1 then 1 else 0)
  }

  lemma {:induction false} AndBound(a: nat, b: nat, n: nat, bound: nat)
    requires bound == Pow2(n)
    ensures AndBits(a, b, n) < bound
  {
    if n > 0 { AndBound(a / 2, b / 2, n - 1, Pow2(n - 1)); }
  }

  function Pow2(n: nat): nat {
    if n == 0 then 1 else 2 * Pow2(n - 1)
  }

  /** What programming `b` over `a` leaves in a flash cell. */
  function And(a: byte, b: byte): byte {
    AndBound(a, b, 8, 256);
    AndBits(a, b, 8)
  }

  /** Bit `k` of `v`. */
  function Bit(v: nat, k: nat): nat {
    if k == 0 then v % 2 else Bit(v / 2, k - 1)
  }

  lemma {:induction false} AndBitsBit(a: nat, b: nat, n: nat, k: nat)
    requires k < n
    ensures Bit(AndBits(a, b, n), k) == 1 <==> Bit(a, k) == 1 && Bit(b, k) == 1
  {
    var low := if a % 2 == 1 && b % 2 == 1 then 1 else 0;
    HalfAndLow(AndBits(a / 2, b / 2, n - 1), low);
    if k > 0 { AndBitsBit(a / 2, b / 2, n - 1, k - 1); }
  }

  lemma HalfAndLow(h: nat, low: nat)
    requires low < 2
    ensures (2 * h + low) / 2 == h && (2 * h + low) % 2 == low
  {
  }

  /** Programming a cell leaves set exactly the bits that were set and are to be set: it never sets one. */
  lemma AndIsBitwise(a: byte, b: byte, k: nat)
    requires k < 8
    ensures Bit(And(a, b), k) == 1 <==> Bit(a, k) == 1 && Bit(b, k) == 1
  {
    AndBitsBit(a, b, 8, k);
  }

  lemma {:induction false} AndOnes(b: nat, n: nat)
    requires b < Pow2(n)
    ensures AndBits(Pow2(n) - 1, b, n) == b
  {
    if n > 0 {
      assert (Pow2(n) - 1) / 2 == Pow2(n - 1) - 1 && (Pow2(n) - 1) % 2 == 1;
      AndOnes(b / 2, n - 1);
    }
  }

  /** An erased cell takes any value. */
  lemma ErasedTakes(b: byte)
    ensures And(0xFF, b) == b
  {
    AndOnes(b, 8);
  }

  /** `data` programmed over `mem` from `addr` on. */
  function Programmed(mem: seq<byte>, addr: nat, data: seq<byte>): (m: seq<byte>)
    requires addr + |data| <= |mem|
    ensures |m| == |mem|
    ensures forall p :: 0 <= p < |mem| ==>
      m[p] == if addr <= p < addr + |data| then And(mem[p], data[p - addr]) else mem[p]
  {
    seq(|mem|, p requires 0 <= p < |mem| => if addr <= p < addr + |data| then And(mem[p], data[p - addr]) else mem[p])
  }

  lemma ProgrammedTwice(mem: seq<byte>, addr: nat, x: seq<byte>, y: seq<byte>)
    requires addr + |x| + |y| <= |mem|
    ensures Programmed(Programmed(mem, addr, x), addr + |x|, y) == Programmed(mem, addr, x + y)
  {
  }

  lemma ProgramMore(mem: seq<byte>, addr: nat, data: seq<byte>, done: nat, n: nat)
    requires addr + |data| <= |mem| && done + n <= |data|
    ensures Programmed(Programmed(mem, addr, data[..done]), addr + done, data[done..][..n])
         == Programmed(mem, addr, data[..done + n])
  {
    ProgrammedTwice(mem, addr, data[..done], data[done..][..n]);
    TakeMore(data, done, n);
  }

  ghost predicate Erased(mem: seq<byte>, addr: nat, len: nat)
    requires addr + len <= |mem|
  {
    forall p :: addr <= p < addr + len ==> mem[p] == 0xFF
  }

  /** On erased cells programming is plain storing. */
  lemma ProgramErased(mem: seq<byte>, addr: nat, data: seq<byte>)
    requires addr + |data| <= |mem| && Erased(mem, addr, |data|)
    ensures Programmed(mem, addr, data) == Splice(mem, addr, data)
  {
    forall p | 0 <= p < |mem| ensures Programmed(mem, addr, data)[p] == Splice(mem, addr, data)[p] {
      if addr <= p < addr + |data| { ErasedTakes(data[p - addr]); }
    }
  }

  lemma PageInChip(addr: nat)
    requires addr < CHIP
    ensures PAGE * (addr / PAGE) + PAGE <= CHIP && addr == PAGE * (addr / PAGE) + addr % PAGE
  {
  }

  /** Up to a page of data programmed from `off` on, continuing at the start of the same page. */
  function AroundPage(mem: seq<byte>, page: nat, off: nat, data: seq<byte>): (m: seq<byte>)
    requires PAGE * page + PAGE <= |mem| && off < PAGE && |data| <= PAGE
    ensures |m| == |mem|
    ensures forall p :: 0 <= p < |mem| ==> m[p] == Cell(mem, page, off, data, p)
  {
    seq(|mem|, p requires 0 <= p < |mem| => Cell(mem, page, off, data, p))
  }

  function Cell(mem: seq<byte>, page: nat, off: nat, data: seq<byte>, p: nat): byte
    requires PAGE * page + PAGE <= |mem| && off < PAGE && |data| <= PAGE && p < |mem|
  {
    if PAGE * page <= p < PAGE * page + PAGE && Dist(off, p - PAGE * page, PAGE) < |data|
    then And(mem[p], data[Dist(off, p - PAGE * page, PAGE)]) else mem[p]
  }

  lemma NextLatch(mem: seq<byte>, page: nat, off: nat, data: seq<byte>, i: nat)
    requires PAGE * page + PAGE <= |mem| && off < PAGE && i < |data| <= PAGE
    ensures var p := PAGE * page + (if off + i < PAGE then off + i else off + i - PAGE);
            var m := AroundPage(mem, page, off, data[..i]);
            m[p := And(m[p], data[i])] == AroundPage(mem, page, off, data[..i + 1])
  {
  }

  /** A count that does not leave the page is programmed where it was asked for. */
  lemma StaysInPage(mem: seq<byte>, addr: nat, data: seq<byte>)
    requires |mem| == CHIP && addr < CHIP && addr % PAGE + |data| <= PAGE
    ensures PAGE * (addr / PAGE) + PAGE <= CHIP && addr + |data| <= CHIP
    ensures AroundPage(mem, addr / PAGE, addr % PAGE, data) == Programmed(mem, addr, data)
  {
    PageInChip(addr);
  }

  /** `count` bytes from `addr` on; an address beyond the chip loses its upper bits. */
  function ReadFrom(mem: seq<byte>, addr: nat, count: nat): (data: seq<byte>)
    requires |mem| == CHIP
    ensures |data| == count
    ensures addr + count <= CHIP ==> data == mem[addr..addr + count]
  {
    seq(count, i requires 0 <= i < count => mem[(addr + i) % CHIP])
  }

  class Flash {
    var mem: seq<byte>

    ghost predicate Valid()
      reads this
    {
      |mem| == CHIP
    }

    constructor (contents: seq<byte>)
      requires |contents| == CHIP
      ensures Valid() && mem == contents
    {
      mem := contents;
    }

    /** The chip's byte latch: the offset wraps inside the addressed page. */
    method Latch(page: nat, off: nat, b: byte) returns (next: nat)
      requires Valid() && PAGE * page + PAGE <= CHIP && off < PAGE
      modifies this
      ensures Valid() && mem == old(mem)[PAGE * page + off := And(old(mem)[PAGE * page + off], b)]
      ensures next == if off + 1 == PAGE then 0 else off + 1
    {
      mem := mem[PAGE * page + off := And(mem[PAGE * page + off], b)];
      next := if off + 1 == PAGE then 0 else off + 1;
    }

    /** `gd55b01ge_page_program`: more than a page is refused; anything else is programmed into the
        page, around its end. */
    method PageProgram(addr: nat, data: seq<byte>)
      requires Valid() && addr < CHIP
      modifies this
      ensures Valid()
      ensures mem == if |data| > PAGE then old(mem) else AroundPage(old(mem), addr / PAGE, addr % PAGE, data)
    {
      if |data| > PAGE {
        return;
      }
      var page, off := addr / PAGE, addr % PAGE;
      PageInChip(addr);
      ghost var was := mem;
      for i := 0 to |data|
        invariant Valid() && 0 <= off < PAGE
        invariant off == if addr % PAGE + i < PAGE then addr % PAGE + i else addr % PAGE + i - PAGE
        invariant mem == AroundPage(was, page, addr % PAGE, data[..i])
      {
        NextLatch(was, page, addr % PAGE, data, i);
        off := Latch(page, off, data[i]);
      }
      assert data[..|data|] == data;
    }

    /** `gd55b01ge_write_data`: exactly [addr, addr + count) is ANDed with the data. */
    method WriteData(addr: nat, data: seq<byte>)
      requires Valid() && addr + |data| <= CHIP
      modifies this
      ensures Valid() && mem == Programmed(old(mem), addr, data)
    {
      var done := 0;
      while done < |data|
        invariant Valid() && done <= |data|
        invariant mem == Programmed(old(mem), addr, data[..done])
      {
        var n := WriteOnPage(addr + done, data[done..]);
        ProgramMore(old(mem), addr, data, done, n);
        done := done + n;
      }
      assert data[..done] == data;
    }

    /** As much as the page has room for. */
    method WriteOnPage(addr: nat, data: seq<byte>) returns (n: nat)
      requires Valid() && 0 < |data| && addr + |data| <= CHIP
      modifies this
      ensures Valid() && 0 < n <= |data| && mem == Programmed(old(mem), addr, data[..n])
    {
      var onPage := PAGE - addr % PAGE;
      n := if |data| < onPage then |data| else onPage;
      StaysInPage(mem, addr, data[..n]);
      PageProgram(addr, data[..n]);
    }

    /** `gd55b01ge_read_data`; an address beyond the chip loses its upper bits. */
    method ReadData(addr: nat, count: nat) returns (data: seq<byte>)
      requires Valid()
      ensures data == ReadFrom(mem, addr, count)
      ensures addr + count <= CHIP ==> data == mem[addr..addr + count]
    {
      data := [];
      for i := 0 to count
        invariant data == ReadFrom(mem, addr, i)
      {
        data := data + [mem[(addr + i) % CHIP]];
      }
    }

    /** `gd55b01ge_erase_chip`. */
    method EraseChip()
      modifies this
      ensures Valid() && Erased(mem, 0, CHIP)
    {
      mem := seq(CHIP, i => 0xFF);
    }
  }
}
