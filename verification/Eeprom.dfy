/** The FM24C04 driver: 512 bytes in two blocks of 256, the block chosen by the device address,
    page writes that wrap inside 16 bytes. */
module Eeprom {
  import opened Bytes

  const SIZE := 512
  const BLOCK := 256
  const PAGE := 16

  class Chip {
    var mem: seq<byte>

    ghost predicate Valid()
      reads this
    {
      |mem| == SIZE
    }

    /** `dev_addr_with_block`: A2 and A1 are strapped low. */
    function DeviceAddress(addr: nat): (dev: nat)
      ensures dev == 0x50 + addr / BLOCK % 2
    {
      0x50 + addr / BLOCK % 2
    }

    /** One write transaction: the block from the device address, the page from the word address,
        and an offset that wraps inside the page. */
    method PageWrite(dev: nat, word: nat, data: seq<byte>)
      requires Valid() && dev in {0x50, 0x51} && word < BLOCK && |data| <= PAGE
      modifies this
      ensures Valid()
      ensures word % PAGE + |data| <= PAGE ==>
        mem == Splice(old(mem), BLOCK * (dev - 0x50) + word, data)
    {
      var base, off := BLOCK * (dev - 0x50) + (word - word % PAGE), word % PAGE;
      ghost var start := base + off;
      ghost var inside := off + |data| <= PAGE;
      assert word - word % PAGE + PAGE <= BLOCK;
      for i := 0 to |data|
        invariant Valid() && 0 <= off < PAGE && base + PAGE <= SIZE
        invariant inside ==> base + off == start + i || (i == |data| && off == 0)
        invariant inside ==> start + |data| <= SIZE && mem == Splice(old(mem), start, data[..i])
      {
        mem := mem[base + off := data[i]];
        off := if off + 1 == PAGE then 0 else off + 1;
        assert inside ==> mem == Splice(old(mem), start, data[..i + 1]);
      }
      assert data[..|data|] == data;
    }

    /** One sequential read. */
    method SequentialRead(dev: nat, word: nat, len: nat) returns (data: seq<byte>)
      requires Valid() && dev in {0x50, 0x51} && word < BLOCK
      ensures data == Sequential(mem, BLOCK * (dev - 0x50), word, len)
    {
      data := [];
      var at := word;
      for i := 0 to len
        invariant 0 <= at < BLOCK && at == (word + i) % BLOCK
        invariant data == Sequential(mem, BLOCK * (dev - 0x50), word, i)
      {
        data := data + [mem[BLOCK * (dev - 0x50) + at]];
        at := if at + 1 == BLOCK then 0 else at + 1;
      }
    }

    /** `fm24c_write`: false for an empty write; otherwise exactly [addr, addr + len) is stored. */
    method Write(addr: nat, data: seq<byte>) returns (ok: bool)
      requires Valid() && addr + |data| <= SIZE
      modifies this
      ensures Valid() && ok == (|data| > 0)
      ensures mem == Splice(old(mem), addr, data)
    {
      if |data| == 0 {
        return false;
      }
      var done := 0;
      while done < |data|
        invariant Valid() && done <= |data|
        invariant mem == Splice(old(mem), addr, data[..done])
      {
        var a := addr + done;
        var space := PAGE - a % PAGE;
        var chunk := if |data| - done < space then |data| - done else space;
        WordAddress(a);
        PageWrite(DeviceAddress(a), a % BLOCK, data[done..done + chunk]);
        SpliceSplice(old(mem), addr, data[..done], data[done..done + chunk]);
        assert data[..done] + data[done..done + chunk] == data[..done + chunk];
        done := done + chunk;
      }
      assert data[..done] == data;
      return true;
    }

    /** The device address and the low address byte name the cell; pages do not straddle blocks. */
    lemma WordAddress(a: nat)
      requires a < SIZE
      ensures BLOCK * (DeviceAddress(a) - 0x50) + a % BLOCK == a && a % BLOCK % PAGE == a % PAGE
    {
    }

    /** `fm24c_read`: one sequential read. */
    method Read(addr: nat, len: nat) returns (ok: bool, data: seq<byte>)
      requires Valid() && addr < SIZE
      ensures ok == (len > 0)
      ensures data == Sequential(mem, addr - addr % BLOCK, addr % BLOCK, len)
      ensures addr % BLOCK + len <= BLOCK ==> addr + len <= SIZE && data == mem[addr..addr + len]
    {
      WordAddress(addr);
      if addr % BLOCK + len <= BLOCK {
        InsideBlock(mem, addr, len);
      }
      if len == 0 {
        return false, [];
      }
      data := SequentialRead(DeviceAddress(addr), addr % BLOCK, len);
      ok := true;
    }
  }

  /** What the chip sends: its address counter stays inside the addressed block. */
  function Sequential(mem: seq<byte>, base: nat, word: nat, len: nat): (data: seq<byte>)
    requires base + BLOCK <= |mem| && word < BLOCK
    ensures |data| == len
  {
    seq(len, i requires 0 <= i < len => mem[base + (word + i) % BLOCK])
  }

  lemma InsideBlock(mem: seq<byte>, addr: nat, len: nat)
    requires |mem| == SIZE && addr < SIZE && addr % BLOCK + len <= BLOCK
    ensures addr - addr % BLOCK + BLOCK <= SIZE && addr + len <= SIZE
    ensures Sequential(mem, addr - addr % BLOCK, addr % BLOCK, len) == mem[addr..addr + len]
  {
  }

  /** A read is right for all contents exactly if it stays inside one block. */
  lemma ReadRightIff(addr: nat, len: nat)
    requires addr + len <= SIZE && addr < SIZE
    ensures addr - addr % BLOCK + BLOCK <= SIZE
    ensures (forall mem: seq<byte> :: |mem| == SIZE ==>
               Sequential(mem, addr - addr % BLOCK, addr % BLOCK, len) == mem[addr..addr + len])
            <==> addr % BLOCK + len <= BLOCK
  {
    if addr % BLOCK + len <= BLOCK {
      forall mem: seq<byte> | |mem| == SIZE
        ensures Sequential(mem, addr - addr % BLOCK, addr % BLOCK, len) == mem[addr..addr + len]
      {
        InsideBlock(mem, addr, len);
      }
    } else {
      var mem: seq<byte> := seq(SIZE, i => if i == BLOCK then 1 else 0);
      assert addr % BLOCK == addr && (addr + (BLOCK - addr)) % BLOCK == 0;
      assert Sequential(mem, 0, addr, len)[BLOCK - addr] == 0;
      assert mem[addr..addr + len][BLOCK - addr] == mem[BLOCK] == 1;
    }
  }

  /** What was written is read back, inside one block. */
  method SaveAndLoad(chip: Chip, addr: nat, record: seq<byte>) returns (back: seq<byte>)
    requires chip.Valid() && record != [] && addr % BLOCK + |record| <= BLOCK && addr + |record| <= SIZE
    modifies chip
    ensures chip.Valid() && back == record
  {
    var _ := chip.Write(addr, record);
    var ok;
    ok, back := chip.Read(addr, |record|);
  }
}
