/** Unaligned byte access on top of 512-byte blocks.  The device is its flat contents; block
    operations move whole blocks and succeed. */
module Emmc {
  import opened Bytes

  const BLOCK := 512

  /** How a byte range is cut at block borders.  Address 0 doubles as "no last block". */
  datatype Cut = Cut(firstUnused: nat, firstSize: nat, firstAddr: nat, lastSize: nat, lastAddr: nat, blocks: nat,
                     firstBlock: nat, lastBlock: nat)   // firstAddr / 512 and lastAddr / 512
  {
    predicate Aligned() { firstUnused == 0 && lastSize == 0 }

    predicate HasTail(size: nat) { !(firstSize == size && firstUnused != 0) && lastSize != 0 }

    function HeadLen(): nat { if firstUnused != 0 then firstSize else 0 }

    function TailLen(size: nat): nat { if HasTail(size) then lastSize else 0 }

    /** The three parts are disjoint, adjacent and block aligned where they have to be. */
    ghost predicate Covers(addr: nat, size: nat)
    {
      && firstAddr == addr - firstUnused == BLOCK * firstBlock && firstUnused < BLOCK && lastSize < BLOCK
      && (firstUnused != 0 ==> firstSize == Min(BLOCK - firstUnused, size))
      && HeadLen() + BLOCK * blocks + TailLen(size) == size
      && (blocks > 0 ==> firstAddr + (if firstUnused != 0 then BLOCK else 0) == addr + HeadLen())
      && (HasTail(size) ==> lastAddr == addr + size - lastSize == BLOCK * lastBlock)
    }
  }

  method CutRange(addr: nat, size: nat) returns (c: Cut)
    requires 0 < size && addr + size < U32
    ensures c.Aligned() ==> addr == BLOCK * c.firstBlock && size == BLOCK * c.blocks
    ensures !c.Aligned() ==> c.Covers(addr, size)
  {
    var firstUnused := addr % BLOCK;
    var firstSize := if BLOCK - firstUnused > size then size else BLOCK - firstUnused;
    var firstAddr := addr - firstUnused;
    var lastSize := (addr + size) % BLOCK;
    ghost var first, last := addr / BLOCK, (addr + size) / BLOCK;
    assert firstAddr == BLOCK * first && addr + size == BLOCK * last + lastSize;
    var lastAddr;
    if lastSize + firstSize > size && firstUnused != 0 {
      lastAddr := 0;
    } else {
      lastAddr := addr + size - lastSize;
    }
    var blocks;
    if firstUnused == 0 && lastSize == 0 {
      Quotient(size, last - first);
      blocks := size / BLOCK;
    } else if lastAddr == 0 {
      blocks := 0;
    } else if lastSize == 0 {
      Quotient(size - firstSize, last - first - 1);
      blocks := (size - firstSize) / BLOCK;
    } else {
      Quotient(lastAddr - firstAddr, last - first);
      blocks := (lastAddr - firstAddr) / BLOCK;
      if firstUnused != 0 {
        blocks := blocks - 1;
      }
    }
    Quotient(firstAddr, first);
    if lastAddr != 0 {
      Quotient(lastAddr, last);
    }
    c := Cut(firstUnused, firstSize, firstAddr, lastSize, lastAddr, blocks, firstAddr / BLOCK, lastAddr / BLOCK);
  }

  lemma Quotient(x: int, k: int)
    requires x == BLOCK * k
    ensures x / BLOCK == k
  {
  }

  /** Reading a block, replacing part of it and writing it back replaces just that part. */
  lemma ReadModifyWrite(mem: seq<byte>, blockAddr: nat, off: nat, data: seq<byte>)
    requires blockAddr + BLOCK <= |mem| && off + |data| <= BLOCK
    ensures Splice(mem, blockAddr, Splice(mem[blockAddr..blockAddr + BLOCK], off, data))
         == Splice(mem, blockAddr + off, data)
  {
  }

  /** Head, middle and tail written one after the other are the whole range. */
  lemma ThreeWrites(mem: seq<byte>, addr: nat, data: seq<byte>, h: nat, m: nat)
    requires addr + |data| <= |mem| && h + m <= |data|
    ensures Splice(Splice(Splice(mem, addr, data[..h]), addr + h, data[h..h + m]), addr + (h + m), data[h + m..])
         == Splice(mem, addr, data)
  {
  }

  /** Head, tail, then middle read into a buffer fill the whole range. */
  lemma ThreeReads(buff: seq<byte>, data: seq<byte>, h: nat, m: nat)
    requires |data| <= |buff| && h + m <= |data|
    ensures Splice(Splice(Splice(buff, 0, data[..h]), |data| - |data[h..][m..]|, data[h..][m..]), h, data[h..][..m])
         == Splice(buff, 0, data)
  {
  }

  /** `want` stands at `addr`. */
  ghost predicate Matches(mem: seq<byte>, addr: nat, want: seq<byte>)
  {
    addr + |want| <= |mem| && forall k :: 0 <= k < |want| ==> mem[addr + k] == want[k]
  }

  lemma SplitMatches(mem: seq<byte>, addr: nat, want: seq<byte>, h: nat)
    requires addr + |want| <= |mem| && h <= |want|
    ensures Matches(mem, addr, want) <==> Matches(mem, addr, want[..h]) && Matches(mem, addr + h, want[h..])
  {
    if Matches(mem, addr, want[..h]) && Matches(mem, addr + h, want[h..]) {
      forall k | 0 <= k < |want| ensures mem[addr + k] == want[k] {
        if k >= h { assert mem[addr + h + (k - h)] == want[h..][k - h]; } else { assert want[..h][k] == want[k]; }
      }
    }
    if Matches(mem, addr, want) {
      forall k | 0 <= k < |want[h..]| ensures mem[addr + h + k] == want[h..][k] {
        assert mem[addr + (h + k)] == want[h + k];
      }
    }
  }

  lemma PieceOfBlock(mem: seq<byte>, base: nat, off: nat, part: seq<byte>)
    requires base + BLOCK <= |mem| && off + |part| <= BLOCK && Matches(mem, base + off, part)
    ensures mem[base..base + BLOCK][off..off + |part|] == part
  {
    forall k | 0 <= k < |part| ensures mem[base..base + BLOCK][off + k] == part[k] {
      assert mem[base + off + k] == part[k];
    }
  }

  method CopyBytes(dst: array<byte>, off: nat, src: seq<byte>)
    requires off + |src| <= dst.Length
    modifies dst
    ensures dst[..] == Splice(old(dst[..]), off, src)
  {
    forall i | 0 <= i < |src| {
      dst[off + i] := src[i];
    }
  }

  class Card {
    var mem: seq<byte>
    const count: nat          // blocks
    const temp: array<byte>   // sEmmcTempBuff

    ghost predicate Valid()
      reads this
    {
      |mem| == BLOCK * count && temp.Length == BLOCK
    }

    constructor (contents: seq<byte>)
      requires |contents| % BLOCK == 0
      ensures Valid() && mem == contents && fresh(temp)
    {
      mem, count := contents, |contents| / BLOCK;
      temp := new byte[BLOCK];
    }

    /** `emmcreadblocks`. */
    method ReadBlocks(buff: array<byte>, off: nat, block: nat, n: nat)
      requires Valid() && off + BLOCK * n <= buff.Length
      requires n > 0 ==> BLOCK * (block + n) <= |mem|
      modifies buff
      ensures n == 0 ==> buff[..] == old(buff[..])
      ensures n > 0 ==> buff[..] == Splice(old(buff[..]), off, mem[BLOCK * block..BLOCK * (block + n)])
    {
      if n != 0 {
        CopyBytes(buff, off, mem[BLOCK * block..BLOCK * (block + n)]);
      }
    }

    /** `emmcerasewriteblocks`. */
    method EraseWriteBlocks(data: seq<byte>, block: nat, n: nat)
      requires Valid() && |data| == BLOCK * n
      requires n > 0 ==> BLOCK * (block + n) <= |mem|
      modifies this`mem
      ensures Valid()
      ensures n == 0 ==> mem == old(mem)
      ensures n > 0 ==> mem == Splice(old(mem), BLOCK * block, data)
    {
      if n != 0 {
        mem := Splice(mem, BLOCK * block, data);
      }
    }

    /** Read, patch and write back one block. */
    method PatchBlock(block: nat, off: nat, data: seq<byte>)
      requires Valid() && BLOCK * block + BLOCK <= |mem| && off + |data| <= BLOCK
      modifies this`mem, temp
      ensures Valid() && mem == Splice(old(mem), BLOCK * block + off, data)
    {
      ReadModifyWrite(mem, BLOCK * block, off, data);
      FillTemp(block);
      CopyBytes(temp, off, data);
      EraseWriteBlocks(temp[..], block, 1);
    }

    method FillTemp(block: nat)
      requires Valid() && BLOCK * block + BLOCK <= |mem|
      modifies temp
      ensures temp[..] == mem[BLOCK * block..BLOCK * block + BLOCK]
    {
      ReadBlocks(temp, 0, block, 1);
    }

    method WriteHead(c: Cut, data: seq<byte>, addr: nat)
      requires Valid() && c.Covers(addr, |data|) && addr + |data| <= |mem|
      modifies this`mem, temp
      ensures Valid() && mem == Splice(old(mem), addr, data[..c.HeadLen()])
    {
      if c.firstUnused != 0 {
        PatchBlock(c.firstBlock, c.firstUnused, data[..c.firstSize]);
      }
    }

    method WriteMiddle(c: Cut, data: seq<byte>, addr: nat)
      requires Valid() && c.Covers(addr, |data|) && addr + |data| <= |mem|
      modifies this`mem
      ensures Valid()
      ensures mem == Splice(old(mem), addr + c.HeadLen(), data[c.HeadLen()..c.HeadLen() + BLOCK * c.blocks])
    {
      if c.firstUnused != 0 {
        EraseWriteBlocks(data[c.firstSize..c.firstSize + BLOCK * c.blocks], c.firstBlock + 1, c.blocks);
      } else {
        EraseWriteBlocks(data[0..BLOCK * c.blocks], c.firstBlock, c.blocks);
      }
    }

    method WriteTail(c: Cut, data: seq<byte>, addr: nat)
      requires Valid() && c.Covers(addr, |data|) && addr + |data| <= |mem|
      modifies this`mem, temp
      ensures Valid()
      ensures var t := c.HeadLen() + BLOCK * c.blocks; mem == Splice(old(mem), addr + t, data[t..])
    {
      if c.HasTail(|data|) {
        PatchBlock(c.lastBlock, 0, data[|data| - c.lastSize..]);
      }
    }

    /** `writebyetstoemmc`: exactly [addr, addr + |data|) becomes the data. */
    method WriteBytes(data: seq<byte>, addr: nat) returns (ret: bool)
      requires Valid() && addr + |data| <= |mem| && addr + |data| < U32
      modifies this`mem, temp
      ensures Valid() && ret
      ensures mem == Splice(old(mem), addr, data)
    {
      ret := true;
      if |data| != 0 {
        var c := CutRange(addr, |data|);
        if c.Aligned() {
          EraseWriteBlocks(data, c.firstBlock, c.blocks);
        } else {
          ThreeWrites(mem, addr, data, c.HeadLen(), BLOCK * c.blocks);
          WriteHead(c, data, addr);
          WriteMiddle(c, data, addr);
          WriteTail(c, data, addr);
          assert mem == Splice(old(mem), addr, data);
        }
      }
    }

    /** `readbyetsfromemmc`: the first `size` bytes of `buff` become the range, the rest stays.
        The last block is fetched before the middle ones. */
    method ReadBytes(buff: array<byte>, addr: nat, size: nat) returns (ret: bool)
      requires Valid() && buff != temp && size <= buff.Length && addr + size <= |mem| && addr + size < U32
      modifies buff, temp
      ensures ret && buff[..] == Splice(old(buff[..]), 0, mem[addr..addr + size])
    {
      ret := true;
      if size != 0 {
        var c := CutRange(addr, size);
        if c.Aligned() {
          ReadBlocks(buff, 0, c.firstBlock, c.blocks);
        } else {
          ReadParts(buff, c, addr, size, mem[addr..addr + size]);
        }
      }
    }

    method ReadParts(buff: array<byte>, c: Cut, addr: nat, size: nat, ghost data: seq<byte>)
      requires Valid() && buff != temp && c.Covers(addr, size) && size <= buff.Length && addr + size <= |mem|
      requires |data| == size && Matches(mem, addr, data)
      modifies buff, temp
      ensures buff[..] == Splice(old(buff[..]), 0, data)
    {
      ghost var h, m := c.HeadLen(), BLOCK * c.blocks;
      SplitMatches(mem, addr, data, h);
      SplitMatches(mem, addr + h, data[h..], m);
      ThreeReads(buff[..], data, h, m);
      ReadHead(buff, c, addr, size, data[..h]);
      ReadTail(buff, c, addr, size, data[h..][m..]);
      ReadMiddle(buff, c, addr, size, data[h..][..m]);
    }

    method ReadHead(buff: array<byte>, c: Cut, addr: nat, size: nat, ghost part: seq<byte>)
      requires Valid() && buff != temp && c.Covers(addr, size) && size <= buff.Length && addr + size <= |mem|
      requires |part| == c.HeadLen() && Matches(mem, addr, part)
      modifies buff, temp
      ensures buff[..] == Splice(old(buff[..]), 0, part)
    {
      if c.firstUnused != 0 {
        FillTemp(c.firstBlock);
        PieceOfBlock(mem, c.firstAddr, c.firstUnused, part);
        CopyBytes(buff, 0, temp[..][c.firstUnused..c.firstUnused + c.firstSize]);
      }
    }

    method ReadTail(buff: array<byte>, c: Cut, addr: nat, size: nat, ghost part: seq<byte>)
      requires Valid() && buff != temp && c.Covers(addr, size) && size <= buff.Length && addr + size <= |mem|
      requires |part| == c.TailLen(size) && Matches(mem, addr + size - |part|, part)
      modifies buff, temp
      ensures buff[..] == Splice(old(buff[..]), size - |part|, part)
    {
      if c.HasTail(size) {
        FillTemp(c.lastBlock);
        PieceOfBlock(mem, c.lastAddr, 0, part);
        CopyBytes(buff, size - c.lastSize, temp[..][0..c.lastSize]);
      }
    }

    method ReadMiddle(buff: array<byte>, c: Cut, addr: nat, size: nat, ghost part: seq<byte>)
      requires Valid() && c.Covers(addr, size) && size <= buff.Length && addr + size <= |mem|
      requires |part| == BLOCK * c.blocks && Matches(mem, addr + c.HeadLen(), part)
      modifies buff
      ensures buff[..] == Splice(old(buff[..]), c.HeadLen(), part)
    {
      if c.blocks > 0 {
        assert mem[addr + c.HeadLen()..addr + c.HeadLen() + BLOCK * c.blocks] == part;
      }
      if c.firstUnused != 0 {
        ReadBlocks(buff, c.firstSize, c.firstBlock + 1, c.blocks);
      } else {
        ReadBlocks(buff, 0, c.firstBlock, c.blocks);
      }
    }

    /** Part of one block, from `off` on, compared byte by byte with `want`. */
    method SameBlock(want: seq<byte>, block: nat, off: nat) returns (same: bool)
      requires Valid() && BLOCK * block + BLOCK <= |mem| && off + |want| <= BLOCK
      modifies temp
      ensures same <==> Matches(mem, BLOCK * block + off, want)
    {
      FillTemp(block);
      for j := 0 to |want|
        invariant temp[..] == mem[BLOCK * block..BLOCK * block + BLOCK]
        invariant forall k :: 0 <= k < j ==> mem[BLOCK * block + off + k] == want[k]
      {
        assert mem[BLOCK * block + off + j] == temp[..][off + j];
        if temp[j + off] != want[j] {
          return false;
        }
      }
      return true;
    }

    /** Whole blocks compared with `want`. */
    method SameBlocks(want: seq<byte>, block: nat, n: nat) returns (same: bool)
      requires Valid() && |want| == BLOCK * n
      requires n > 0 ==> BLOCK * (block + n) <= |mem|
      modifies temp
      ensures n > 0 ==> (same <==> Matches(mem, BLOCK * block, want))
      ensures n == 0 ==> same
    {
      assert want[BLOCK * 0..] == want;
      for i := 0 to n
        invariant n > 0 ==>
          (Matches(mem, BLOCK * block, want) <==> Matches(mem, BLOCK * (block + i), want[BLOCK * i..]))
      {
        var rest := want[BLOCK * i..];
        SplitMatches(mem, BLOCK * (block + i), rest, BLOCK);
        assert want[BLOCK * (i + 1)..] == rest[BLOCK..];
        var s := SameBlock(rest[..BLOCK], block + i, 0);
        if !s {
          return false;
        }
      }
      return true;
    }

    /** `emmcverifyreadbytes`: for a non-empty range true exactly if it equals the buffer; false for
        an empty one. */
    method VerifyBytes(buff: seq<byte>, addr: nat) returns (same: bool)
      requires Valid() && addr + |buff| <= |mem| && addr + |buff| < U32
      modifies temp
      ensures same <==> |buff| > 0 && Matches(mem, addr, buff)
    {
      if |buff| == 0 {
        return false;
      }
      var c := CutRange(addr, |buff|);
      if c.Aligned() {
        same := SameBlocks(buff, c.firstBlock, c.blocks);
        return;
      }
      same := SameParts(buff, c, addr);
    }

    method SameParts(buff: seq<byte>, c: Cut, addr: nat) returns (same: bool)
      requires Valid() && c.Covers(addr, |buff|) && addr + |buff| <= |mem|
      modifies temp
      ensures same <==> Matches(mem, addr, buff)
    {
      var h, m := c.HeadLen(), BLOCK * c.blocks;
      SplitMatches(mem, addr, buff, h);
      SplitMatches(mem, addr + h, buff[h..], m);
      same := SameHead(buff[..h], c, addr, |buff|);
      if same {
        same := SameMiddle(buff[h..][..m], c, addr, |buff|);
      }
      if same {
        same := SameTail(buff[h..][m..], c, addr, |buff|);
      }
    }

    method SameHead(want: seq<byte>, c: Cut, addr: nat, size: nat) returns (same: bool)
      requires Valid() && c.Covers(addr, size) && addr + size <= |mem| && |want| == c.HeadLen()
      modifies temp
      ensures same <==> Matches(mem, addr, want)
    {
      same := true;
      if c.firstUnused != 0 {
        same := SameBlock(want, c.firstBlock, c.firstUnused);
      }
    }

    method SameMiddle(want: seq<byte>, c: Cut, addr: nat, size: nat) returns (same: bool)
      requires Valid() && c.Covers(addr, size) && addr + size <= |mem| && |want| == BLOCK * c.blocks
      modifies temp
      ensures same <==> Matches(mem, addr + c.HeadLen(), want)
    {
      if c.firstUnused != 0 {
        same := SameBlocks(want, c.firstBlock + 1, c.blocks);
      } else {
        same := SameBlocks(want, c.firstBlock, c.blocks);
      }
    }

    method SameTail(want: seq<byte>, c: Cut, addr: nat, size: nat) returns (same: bool)
      requires Valid() && c.Covers(addr, size) && addr + size <= |mem| && |want| == c.TailLen(size)
      modifies temp
      ensures same <==> Matches(mem, addr + size - |want|, want)
    {
      same := true;
      if c.HasTail(size) {
        same := SameBlock(want, c.lastBlock, 0);
      }
    }
  }
}
