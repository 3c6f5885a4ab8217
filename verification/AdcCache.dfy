/** The sampler's item cache (`Adc_Cache_*`): a ring with an explicit count, so that all of its cells can
    be used.  One task stores single samples or batches, another takes them out.  A mutex take that
    fails turns a call into a refusal. */
module AdcCache {
  import opened Bytes
  import opened RingIndex

  /** An `AdcItem_t`. */
  type Sample = seq<byte>

  /** The `count` items from cell `rd` on. */
  function Items(cells: seq<Sample>, rd: nat, count: nat): (q: seq<Sample>)
    requires rd < |cells| && count <= |cells|
    ensures |q| == count
  {
    seq(count, j requires 0 <= j < count => cells[At(rd, j, |cells|)])
  }

  /** The cell `k` after `i`, for `k` up to a whole round. */
  function Forward(i: nat, k: nat, n: nat): (p: nat)
    requires i < n && k <= n
    ensures p < n
  {
    if i + k < n then i + k else i + k - n
  }

  /** Cells after storing `data` from cell `wr` on, around the end. */
  predicate StoredAround(was: seq<Sample>, now: seq<Sample>, wr: nat, data: seq<Sample>)
    requires wr < |was| && |data| <= |was|
  {
    && |now| == |was|
    && forall p :: 0 <= p < |was| ==>
      now[p] == if Dist(wr, p, |was|) < |data| then data[Dist(wr, p, |was|)] else was[p]
  }

  /** Storing into the cells behind the content appends to it. */
  lemma StoringAppends(was: seq<Sample>, now: seq<Sample>, rd: nat, count: nat, data: seq<Sample>)
    requires rd < |was| && count + |data| <= |was|
    requires StoredAround(was, now, Forward(rd, count, |was|), data)
    ensures Items(now, rd, count + |data|) == Items(was, rd, count) + data
  {
    var n, wr := |was|, Forward(rd, count, |was|);
    forall j | 0 <= j < count + |data| ensures Items(now, rd, count + |data|)[j] == (Items(was, rd, count) + data)[j] {
      assert Dist(wr, At(rd, j, n), n) == if j < count then j + n - count else j - count;
    }
  }

  /** Taking from the front. */
  lemma TakingDrops(cells: seq<Sample>, rd: nat, count: nat, k: nat)
    requires rd < |cells| && k <= count <= |cells|
    ensures Items(cells, Forward(rd, k, |cells|), count - k) == Items(cells, rd, count)[k..]
  {
  }

  // ----- what the calls mean for a bounded queue -----

  /** As many items as there is room for. */
  function Put(q: seq<Sample>, capacity: nat, data: seq<Sample>): (r: seq<Sample>)
    requires |q| <= capacity
    ensures |r| == Min(capacity, |q| + |data|) && q <= r <= q + data
  {
    q + data[..Min(|data|, capacity - |q|)]
  }

  /** Storing item by item. */
  function PutEach(q: seq<Sample>, capacity: nat, data: seq<Sample>): (r: seq<Sample>)
    requires |q| <= capacity
    decreases |data|
  {
    if data == [] then q else PutEach(Put(q, capacity, data[..1]), capacity, data[1..])
  }

  /** A batch is its items one by one. */
  lemma {:induction false} BatchIsOneByOne(q: seq<Sample>, capacity: nat, data: seq<Sample>)
    requires |q| <= capacity
    ensures Put(q, capacity, data) == PutEach(q, capacity, data)
    decreases |data|
  {
    if data != [] {
      var r := Put(q, capacity, data[..1]);
      BatchIsOneByOne(r, capacity, data[1..]);
      if |q| < capacity {
        assert r == q + data[..1];
        var k := Min(|data|, capacity - |q|);
        assert data[..k] == data[..1] + data[1..][..k - 1];
        assert Put(r, capacity, data[1..]) == r + data[1..][..k - 1];
      } else {
        assert r == q;
      }
    }
  }

  lemma WrapIsModulo(x: nat, n: nat)
    requires 0 < n && x < 2 * n
    ensures x % n == if x < n then x else x - n
  {
    if x < n { DivisionIsUnique(x, 0, n, x); } else { DivisionIsUnique(x, 1, n, x - n); }
  }

  /** The index update. */
  method Advance(i: nat, k: nat, n: nat) returns (p: nat)
    requires i < n && k <= n
    ensures p == Forward(i, k, n)
  {
    WrapIsModulo(i + k, n);
    p := (i + k) % n;
  }

  /** The write index stays `count` cells ahead of the read index. */
  lemma Advances(rd: nat, count: nat, k: nat, n: nat)
    requires rd < n && count + k <= n
    ensures Forward(Forward(rd, count, n), k, n) == Forward(rd, count + k, n)
  {
  }

  lemma PutIsPrefix(q: seq<Sample>, capacity: nat, data: seq<Sample>, k: nat)
    requires |q| <= capacity && k == Min(|data|, capacity - |q|)
    ensures Put(q, capacity, data) == q + data[..k] && (k == 0 ==> Put(q, capacity, data) == q)
  {
  }

  class Cache {
    const item: array<Sample>
    var wrIdx: nat
    var rdIdx: nat
    var count: nat

    ghost predicate Valid()
      reads this
    {
      && 0 < item.Length < 0x1_0000 && rdIdx < item.Length && count <= item.Length
      && wrIdx == Forward(rdIdx, count, item.Length)
    }

    ghost function Contents(): (q: seq<Sample>)
      requires Valid()
      reads this, item
      ensures |q| == count
    {
      Items(item[..], rdIdx, count)
    }

    /** `Adc_Cache_Init`; the source has 600 cells. */
    constructor (size: nat)
      requires 0 < size < 0x1_0000
      ensures Valid() && Contents() == [] && item.Length == size && fresh(item)
    {
      item := new Sample[size](_ => []);
      wrIdx, rdIdx, count := 0, 0, 0;
    }

    /** `Adc_Cache_Write_One`: 0 stored, 1 full, 3 no mutex. */
    method WriteOne(data: Sample, granted: bool) returns (ret: nat)
      requires Valid()
      modifies this`wrIdx, this`count, item
      ensures Valid() && ret == if !granted then 3 else if old(count) == item.Length then 1 else 0
      ensures Contents() == if granted then Put(old(Contents()), item.Length, [data]) else old(Contents())
    {
      if !granted {
        return 3;
      }
      if count >= item.Length {
        return 1;
      }
      ghost var was := item[..];
      item[wrIdx] := data;
      StoringAppends(was, item[..], rdIdx, count, [data]);
      wrIdx := Advance(wrIdx, 1, item.Length);
      count := count + 1;
      return 0;
    }

    /** `Adc_Cache_Write_Batch`: up to two block moves. */
    method WriteBatch(data: seq<Sample>, granted: bool) returns (written: nat)
      requires Valid() && |data| < 0x1_0000
      modifies this`wrIdx, this`count, item
      ensures Valid() && written == if granted then Min(|data|, item.Length - old(count)) else 0
      ensures Contents() == if granted then Put(old(Contents()), item.Length, data) else old(Contents())
    {
      written := 0;
      if |data| == 0 || !granted {
        return;
      }
      var cacheMax := item.Length;
      var writeLen := Min(|data|, cacheMax - count);
      PutIsPrefix(Contents(), cacheMax, data, writeLen);
      if writeLen > 0 {
        written := Store(data, writeLen);
        Advances(rdIdx, count, writeLen, cacheMax);
        wrIdx := Advance(wrIdx, writeLen, cacheMax);
        count := count + writeLen;
      }
    }

    /** The block moves: up to the last cell, then from the first one on. */
    method Store(data: seq<Sample>, writeLen: nat) returns (written: nat)
      requires Valid() && 0 < writeLen <= |data| && count + writeLen <= item.Length
      modifies item
      ensures written == writeLen && Items(item[..], rdIdx, count + writeLen) == old(Contents()) + data[..writeLen]
    {
      ghost var was := item[..];
      var len1 := Min(item.Length - wrIdx, writeLen);
      forall k | 0 <= k < len1 {
        item[wrIdx + k] := data[k];
      }
      written := len1;
      if written < writeLen {
        forall k | 0 <= k < writeLen - len1 {
          item[k] := data[len1 + k];
        }
        written := writeLen;
      }
      StoringAppends(was, item[..], rdIdx, count, data[..writeLen]);
    }

    /** `Adc_Cache_Read_One`: 0 read, 1 empty, 3 no mutex. */
    method ReadOne(granted: bool) returns (ret: nat, data: Sample)
      requires Valid()
      modifies this`rdIdx, this`count
      ensures Valid() && ret == if !granted then 3 else if old(count) == 0 then 1 else 0
      ensures ret == 0 ==> old(Contents()) == [data] + Contents()
      ensures ret != 0 ==> Contents() == old(Contents())
    {
      data := [];
      if !granted {
        return 3, data;
      }
      if count == 0 {
        return 1, data;
      }
      TakingDrops(item[..], rdIdx, count, 1);
      data := item[rdIdx];
      rdIdx := Advance(rdIdx, 1, item.Length);
      count := count - 1;
      return 0, data;
    }

    /** `Adc_Cache_Read_Batch`. */
    method ReadBatch(maxLen: nat, granted: bool) returns (data: seq<Sample>)
      requires Valid() && maxLen < 0x1_0000
      modifies this`rdIdx, this`count
      ensures Valid() && |data| == if granted then Min(old(count), maxLen) else 0
      ensures old(Contents()) == data + Contents()
    {
      data := [];
      if maxLen == 0 || !granted {
        return;
      }
      var readLen := Min(count, maxLen);
      var cacheMax := item.Length;
      if readLen > 0 {
        data := Fetch(readLen);
        TakingDrops(item[..], rdIdx, count, readLen);
        assert Contents()[..readLen] + Contents()[readLen..] == Contents();
        rdIdx := Advance(rdIdx, readLen, cacheMax);
        count := count - readLen;
      }
    }

    method Fetch(readLen: nat) returns (data: seq<Sample>)
      requires Valid() && 0 < readLen <= count
      ensures data == Contents()[..readLen]
    {
      var len1 := Min(item.Length - rdIdx, readLen);
      data := item[rdIdx..rdIdx + len1];
      if len1 < readLen {
        data := data + item[..readLen - len1];
      }
    }

    /** `Adc_Cache_Get_Count`. */
    method GetCount(granted: bool) returns (n: nat)
      requires Valid()
      ensures n == if granted then |Contents()| else 0
    {
      n := 0;
      if granted {
        n := count;
      }
    }

    /** `Adc_Cache_Clear`. */
    method Clear(granted: bool)
      requires Valid()
      modifies this`wrIdx, this`rdIdx, this`count
      ensures Valid() && Contents() == if granted then [] else old(Contents())
    {
      if granted {
        wrIdx, rdIdx, count := 0, 0, 0;
      }
    }
  }
}
