/** A SEGGER RTT ring buffer and the operations on it, proved to be one bounded FIFO.
    Up and down buffers share the layout and the algorithms. */
module RttBuffer {
  import opened Bytes
  import opened RingIndex
  import opened RttOverwrite

  const MODE_NO_BLOCK_SKIP := 0
  const MODE_NO_BLOCK_TRIM := 1
  const MODE_BLOCK_IF_FIFO_FULL := 2

  /** How many of `n` bytes `SEGGER_RTT_WriteNoLock` takes on with `avail` cells free. */
  function Taken(flags: nat, avail: nat, n: nat): (k: nat)
    ensures k <= n && (flags != MODE_BLOCK_IF_FIFO_FULL ==> k <= avail)
  {
    if flags == MODE_NO_BLOCK_SKIP then (if avail < n then 0 else n)
    else if flags == MODE_NO_BLOCK_TRIM then Min(n, avail)
    else if flags == MODE_BLOCK_IF_FIFO_FULL then n
    else 0
  }

  /** Skip takes all or nothing, trim the longest prefix that fits, blocking everything. */
  lemma TakenMeans(flags: nat, q: seq<byte>, cap: nat, data: seq<byte>)
    requires |q| <= cap
    ensures var r := q + data[..Taken(flags, cap - |q|, |data|)];
            && (flags == MODE_NO_BLOCK_SKIP ==> r == FifoSkip(q, cap, data))
            && (flags == MODE_NO_BLOCK_TRIM ==> r == FifoTrim(q, cap, data))
            && (flags == MODE_BLOCK_IF_FIFO_FULL ==> r == q + data)
            && (flags > MODE_BLOCK_IF_FIFO_FULL ==> r == q)
  {
  }

  /** `memcpy` into an array. */
  method CopyIn(dst: array<byte>, off: nat, data: seq<byte>)
    requires off + |data| <= dst.Length
    modifies dst
    ensures dst[..] == Splice(old(dst[..]), off, data)
  {
    forall i | 0 <= i < |data| {
      dst[off + i] := data[i];
    }
  }

  /** `memcpy` out of an array, appended to what was copied before. */
  method CopyOut(src: array<byte>, off: nat, n: nat, before: seq<byte>) returns (data: seq<byte>)
    requires off + n <= src.Length
    ensures data == before + src[..][off..off + n]
  {
    data := before + src[off..off + n];
    assert src[off..off + n] == src[..][off..off + n];
  }

  /** A host that reads again and again. */
  ghost predicate ComesBack(host: nat -> nat) {
    forall i: nat :: ReadsFrom(host, i)
  }

  ghost predicate ReadsFrom(host: nat -> nat, i: nat) {
    exists j: nat :: i <= j && host(j) > 0
  }

  /** The queue law across one round: the host takes `got`, then `n` more bytes are appended. */
  lemma RoundAppends(q0: seq<byte>, taken: seq<byte>, before: seq<byte>, got: seq<byte>, after: seq<byte>,
                     data: seq<byte>, written: nat, n: nat)
    requires written + n <= |data|
    requires taken + before == q0 + data[..written] && got + after == before + data[written..][..n]
    ensures taken + got + after == q0 + data[..written + n]
  {
    assert data[..written + n] == data[..written] + data[written..][..n];
    assert taken + got + after == taken + (got + after) == (taken + before) + data[written..][..n];
  }

  class Ring {
    const pBuffer: array<byte>
    var rdOff: nat
    var wrOff: nat
    var flags: nat

    /** No C object is larger than half of the 32-bit address space. */
    ghost predicate Valid()
      reads this
    {
      0 < pBuffer.Length < U32 / 2 && rdOff < pBuffer.Length && wrOff < pBuffer.Length
    }

    ghost function Contents(): (q: seq<byte>)
      reads this, pBuffer
      requires Valid()
      ensures |q| == Dist(rdOff, wrOff, pBuffer.Length)
    {
      Queue(pBuffer[..], rdOff, wrOff)
    }

    function Cap(): nat
      requires pBuffer.Length > 0
    {
      pBuffer.Length - 1
    }

    constructor (size: nat, flags: nat)
      requires 0 < size < U32 / 2
      ensures Valid() && Contents() == [] && pBuffer.Length == size && this.flags == flags
      ensures fresh(pBuffer)
    {
      pBuffer := new byte[size];
      rdOff, wrOff := 0, 0;
      this.flags := flags;
    }

    method GetAvailWriteSpace() returns (r: nat)
      requires Valid()
      ensures r == Cap() - |Contents()|
    {
      if rdOff <= wrOff {
        r := pBuffer.Length - 1 - wrOff + rdOff;
      } else {
        r := rdOff - wrOff - 1;
      }
    }

    /** `SEGGER_RTT_GetBytesInBuffer` subtracts the offsets the wrong way round once the queue wraps:
        it is right exactly while the queue does not. */
    method GetBytesInBuffer() returns (r: nat)
      requires Valid()
      ensures r == |Contents()| <==> rdOff <= wrOff
    {
      if rdOff <= wrOff {
        r := wrOff - rdOff;
      } else {
        r := Sub32(pBuffer.Length, Sub32(wrOff, rdOff));
      }
    }

    /** One copy, up to the end of the ring at most. */
    method CopyStraight(data: seq<byte>)
      requires Valid() && wrOff + |data| <= pBuffer.Length && |data| < pBuffer.Length
      modifies pBuffer
      ensures pBuffer[..] == Stored(old(pBuffer[..]), wrOff, data)
    {
      CopyIn(pBuffer, wrOff, data);
      assert pBuffer[..] == Stored(old(pBuffer[..]), wrOff, data);
    }

    /** Two copies, the second from the start of the ring. */
    method CopyAround(data: seq<byte>)
      requires Valid() && pBuffer.Length - wrOff <= |data| < pBuffer.Length
      modifies pBuffer
      ensures pBuffer[..] == Stored(old(pBuffer[..]), wrOff, data)
    {
      var rem := pBuffer.Length - wrOff;
      CopyIn(pBuffer, wrOff, data[..rem]);
      if |data| - rem > 0 {
        CopyIn(pBuffer, 0, data[rem..]);
      }
      assert pBuffer[..] == Stored(old(pBuffer[..]), wrOff, data);
    }

    /** Caller has made sure the data fits. */
    method WriteNoCheck(data: seq<byte>)
      requires Valid() && |Contents()| + |data| <= Cap()
      modifies this`wrOff, pBuffer
      ensures Valid()
      ensures pBuffer[..] == Stored(old(pBuffer[..]), old(wrOff), data)
      ensures wrOff == At(old(wrOff), |data|, pBuffer.Length)
      ensures Contents() == old(Contents()) + data
    {
      StoredAppends(pBuffer[..], rdOff, wrOff, data);
      var rem := pBuffer.Length - wrOff;
      if rem > |data| {
        CopyStraight(data);
        wrOff := wrOff + |data|;
      } else {
        CopyAround(data);
        wrOff := |data| - rem;
      }
    }

    /** One round of `_WriteBlocking`: the largest chunk up to the end of the ring. */
    method BlockingRound(data: seq<byte>) returns (n: nat)
      requires Valid()
      modifies this`wrOff, pBuffer
      ensures Valid()
      ensures n == Min(Min(Cap() - |old(Contents())|, pBuffer.Length - old(wrOff)), |data|)
      ensures wrOff == At(old(wrOff), n, pBuffer.Length)
      ensures Contents() == old(Contents()) + data[..n]
    {
      if rdOff > wrOff {
        n := rdOff - wrOff - 1;
      } else {
        n := pBuffer.Length - (wrOff - rdOff + 1);
      }
      n := Min(n, pBuffer.Length - wrOff);
      n := Min(n, |data|);
      StoredAppends(pBuffer[..], rdOff, wrOff, data[..n]);
      CopyStraight(data[..n]);
      var wr := wrOff + n;
      if wr == pBuffer.Length {
        wr := 0;
      }
      wrOff := wr;
    }

    /** Writes everything, round by round, while the host reads up to `host(i)` bytes before round `i`.
        `taken` is what the host got.  Data that already fits needs at most two rounds and no host at
        all; otherwise rounds may pass without progress, as long as the host comes back. */
    method WriteBlocking(data: seq<byte>, host: nat -> nat) returns (written: nat, taken: seq<byte>, rounds: nat)
      requires Valid() && (|Contents()| + |data| <= Cap() || (Cap() > 0 && ComesBack(host)))
      modifies this`rdOff, this`wrOff, pBuffer
      ensures Valid() && written == |data|
      ensures taken + Contents() == old(Contents()) + data
      ensures |old(Contents())| + |data| <= Cap() ==> rounds <= 2
      ensures |old(Contents())| + |data| <= Cap() && (forall i: nat :: host(i) == 0) ==> taken == []
    {
      written, taken, rounds := 0, [], 0;
      ghost var fits := |Contents()| + |data| <= Cap();
      ghost var idle := forall i: nat :: host(i) == 0;
      ghost var back := NextVisit(fits, host, 0);
      var more := true;
      while more
        invariant Valid() && written <= |data|
        invariant taken + Contents() == old(Contents()) + data[..written]
        invariant more ==> rounds == 0 || written < |data|
        invariant !more ==> written == |data|
        invariant fits ==> |Contents()| + (|data| - written) <= Cap()
        invariant fits ==> if more then rounds == 0 || (rounds == 1 && wrOff == 0) else rounds <= 2
        invariant fits && idle ==> taken == []
        invariant !fits && more ==> written < |data| && rounds <= back && host(back) > 0
        decreases |data| - written, more, back - rounds
      {
        var k := Min(host(rounds), Used());
        ghost var before := Contents();
        assert !fits && rounds == back ==> k + Cap() > |before|;
        var n, got := HostThenRound(k, data[written..]);
        RoundAppends(old(Contents()), taken, before, got, Contents(), data, written, n);
        taken := taken + got;
        written := written + n;
        rounds := rounds + 1;
        more := written < |data|;
        if n > 0 {
          back := NextVisit(fits, host, rounds);
        }
      }
      assert data[..written] == data;
    }

    /** The next round before which the host reads. */
    static ghost method NextVisit(fits: bool, host: nat -> nat, rounds: nat) returns (back: nat)
      requires fits || ComesBack(host)
      ensures !fits ==> back >= rounds && host(back) > 0
    {
      back := 0;
      if !fits {
        assert ReadsFrom(host, rounds);
        back :| back >= rounds && host(back) > 0;
      }
    }

    /** The host reads `k` bytes, then the writer does one round. */
    method HostThenRound(k: nat, data: seq<byte>) returns (n: nat, got: seq<byte>)
      requires Valid() && k <= |Contents()|
      modifies this`rdOff, this`wrOff, pBuffer
      ensures Valid() && |got| == k && n <= |data|
      ensures got + Contents() == old(Contents()) + data[..n]
      ensures data != [] && k + Cap() > |old(Contents())| ==> n > 0
      ensures |old(Contents())| + |data| <= Cap() ==> n == |data| || (old(wrOff) > 0 && wrOff == 0)
    {
      got := Read(k);
      ghost var q := Contents();
      n := BlockingRound(data);
      assert got + (q + data[..n]) == (got + q) + data[..n];
    }

    function Used(): (u: nat)
      reads this, pBuffer
      requires Valid()
      ensures u == |Contents()|
    {
      Dist(rdOff, wrOff, pBuffer.Length)
    }

    /** The copying half of a read call: the bytes read and the read offset after them.
        `wrOff - rdOff` is unsigned and does underflow when `room` ends the first copy before
        the end of the ring; `room` is then used up and the second copy empty. */
    method Fetch(room: nat) returns (data: seq<byte>, rd: nat)
      requires Valid()
      ensures |data| == Min(room, |Contents()|)
      ensures rd == At(rdOff, |data|, pBuffer.Length)
      ensures data == Window(pBuffer[..], rdOff, |data|)
    {
      var wr, left, n1 := wrOff, room, 0;
      rd, data := rdOff, [];
      if rd > wr {
        n1 := Min(pBuffer.Length - rd, left);
        data := CopyOut(pBuffer, rd, n1, data);
        left := left - n1;
        rd := rd + n1;
        if rd == pBuffer.Length {
          rd := 0;
        }
      }
      var n2 := Min(Sub32(wr, rd), left);
      ReadLengths(pBuffer.Length, rdOff, wrOff, room, n1, rd, n2);
      WindowInTwo(pBuffer[..], rdOff, n1, rd, n2);
      assert data == pBuffer[..][rdOff..rdOff + n1];
      if n2 > 0 {
        data := CopyOut(pBuffer, rd, n2, data);
        rd := rd + n2;
      }
    }

    /** `SEGGER_RTT_ReadUpBufferNoLock` and `SEGGER_RTT_ReadNoLock`: removes exactly the first
        min(room, used) bytes. */
    method Read(room: nat) returns (data: seq<byte>)
      requires Valid()
      modifies this`rdOff
      ensures Valid()
      ensures |data| == Min(room, |old(Contents())|)
      ensures data + Contents() == old(Contents())
    {
      var rd;
      data, rd := Fetch(room);
      QueueAfterRead(pBuffer[..], rdOff, wrOff, |data|);
      if |data| > 0 {
        rdOff := rd;
      }
    }

    /** `SEGGER_RTT_WriteNoLock` and `SEGGER_RTT_WriteDownBufferNoLock`. */
    method WriteNoLock(data: seq<byte>, host: nat -> nat) returns (status: nat, taken: seq<byte>)
      requires Valid()
      requires flags == MODE_BLOCK_IF_FIFO_FULL ==> |Contents()| + |data| <= Cap() || (Cap() > 0 && ComesBack(host))
      modifies this`rdOff, this`wrOff, pBuffer
      ensures Valid()
      ensures status == Taken(flags, Cap() - |old(Contents())|, |data|)
      ensures taken + Contents() == old(Contents()) + data[..status]
      ensures flags != MODE_BLOCK_IF_FIFO_FULL ==>
        && taken == [] && rdOff == old(rdOff) && wrOff == At(old(wrOff), status, pBuffer.Length)
        && pBuffer[..] == Stored(old(pBuffer[..]), old(wrOff), data[..status])
    {
      taken := [];
      if flags == MODE_NO_BLOCK_SKIP {
        var avail := GetAvailWriteSpace();
        if avail < |data| {
          status := 0;
          NothingStored(data);
        } else {
          status := |data|;
          assert data[..|data|] == data;
          WriteNoCheck(data);
        }
      } else if flags == MODE_NO_BLOCK_TRIM {
        var avail := GetAvailWriteSpace();
        status := if avail < |data| then avail else |data|;
        WriteNoCheck(data[..status]);
      } else if flags == MODE_BLOCK_IF_FIFO_FULL {
        var rounds;
        status, taken, rounds := WriteBlocking(data, host);
        assert data[..|data|] == data;
      } else {
        status := 0;
        NothingStored(data);
      }
    }

    lemma NothingStored(data: seq<byte>)
      requires Valid()
      ensures Contents() == Contents() + data[..0]
      ensures pBuffer[..] == Stored(pBuffer[..], wrOff, data[..0]) && wrOff == At(wrOff, 0, pBuffer.Length)
    {
    }

    /** `SEGGER_RTT_WriteSkipNoLock`: another case split, the same state as `WriteNoLock` in skip
        mode, byte for byte. */
    method WriteSkipNoLock(data: seq<byte>) returns (copied: bool)
      requires Valid()
      modifies this`wrOff, pBuffer
      ensures Valid() && copied == (|old(Contents())| + |data| <= Cap())
      ensures Contents() == FifoSkip(old(Contents()), Cap(), data)
      ensures copied ==> pBuffer[..] == Stored(old(pBuffer[..]), old(wrOff), data)
      ensures wrOff == (if copied then At(old(wrOff), |data|, pBuffer.Length) else old(wrOff))
    {
      if |Contents()| + |data| <= Cap() {
        StoredAppends(pBuffer[..], rdOff, wrOff, data);
      }
      if rdOff <= wrOff {
        var avail := pBuffer.Length - wrOff - 1;
        if avail >= |data| {
          CopyStraight(data);
          wrOff := wrOff + |data|;
          return true;
        }
        avail := avail + rdOff;
        if avail >= |data| {
          CopyAround(data);
          wrOff := |data| - (pBuffer.Length - wrOff);
          return true;
        }
      } else {
        var avail := rdOff - wrOff - 1;
        if avail >= |data| {
          CopyStraight(data);
          wrOff := wrOff + |data|;
          return true;
        }
      }
      return false;
    }

    /** `SEGGER_RTT_PutCharSkipNoLock`: tests the next write offset instead of the free space. */
    method PutCharSkipNoLock(c: byte) returns (status: nat)
      requires Valid()
      modifies this`wrOff, pBuffer
      ensures Valid() && status == (if |old(Contents())| < Cap() then 1 else 0)
      ensures Contents() == FifoSkip(old(Contents()), Cap(), [c])
    {
      var wr := wrOff + 1;
      if wr == pBuffer.Length {
        wr := 0;
      }
      if wr != rdOff {
        StoredAppends(pBuffer[..], rdOff, wrOff, [c]);
        pBuffer[wrOff] := c;
        assert pBuffer[..] == Stored(old(pBuffer[..]), wrOff, [c]);
        wrOff := wr;
        status := 1;
      } else {
        status := 0;
      }
    }

    /** `SEGGER_RTT_WriteWithOverwriteNoLock`, wherever its loop ends (`OverwriteEndsIff`). */
    method WriteWithOverwriteNoLock(data: seq<byte>)
      requires Valid() && (Cap() > 0 || |data| <= 1) && pBuffer.Length + |data| <= U32
      modifies this`rdOff, this`wrOff, pBuffer
      ensures Valid()
      ensures Contents() == Overwritten(old(pBuffer[..]), old(rdOff), old(wrOff), data)
      ensures |data| < (pBuffer.Length - old(wrOff)) + Cap() || Cap() == 0 ==>
        Contents() == Newest(old(Contents()), Cap(), data)
    {
      AfterLaps(pBuffer[..], rdOff, wrOff, data);
      PushRdOff(|data|);
      OverwriteLaps(data);
    }

    /** The write loop of an overwriting write. */
    method OverwriteLaps(data: seq<byte>)
      requires Valid() && (Cap() > 0 || |data| <= 1)
      modifies this`wrOff, pBuffer
      ensures (pBuffer[..], wrOff) == Laps(old(pBuffer[..]), old(wrOff), pBuffer.Length - old(wrOff), data)
    {
      ghost var goal := Laps(pBuffer[..], wrOff, pBuffer.Length - wrOff, data);
      var avail, rest := pBuffer.Length - wrOff, data;
      while true
        invariant 0 < avail && wrOff + avail <= pBuffer.Length && (Cap() > 0 || |rest| <= 1)
        invariant Laps(pBuffer[..], wrOff, avail, rest) == goal
        decreases |rest|
      {
        if avail > |rest| {
          CopyIn(pBuffer, wrOff, rest);
          wrOff := wrOff + |rest|;
          break;
        }
        CopyIn(pBuffer, wrOff, rest[..avail]);
        wrOff := 0;
        rest := rest[avail..];
        avail := pBuffer.Length - 1;
        if rest == [] {
          break;
        }
      }
    }

    /** The rdOff adjustment before an overwriting write. */
    method PushRdOff(count: nat)
      requires Valid() && pBuffer.Length + count <= U32
      modifies this`rdOff
      ensures Valid() && rdOff == PushedRd(old(rdOff), wrOff, pBuffer.Length, count)
    {
      var avail;
      if wrOff == rdOff {
        avail := pBuffer.Length - 1;
      } else if wrOff < rdOff {
        avail := rdOff - wrOff - 1;
      } else {
        avail := rdOff + pBuffer.Length - wrOff - 1;
      }
      if count > avail {
        rdOff := rdOff + (count - avail);
        while rdOff >= pBuffer.Length
          invariant Remainder(rdOff, pBuffer.Length) == PushedRd(old(rdOff), wrOff, pBuffer.Length, count)
        {
          rdOff := rdOff - pBuffer.Length;
        }
      }
    }
  }
}
