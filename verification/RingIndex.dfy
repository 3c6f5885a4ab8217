/** Index arithmetic of a ring of `n` cells addressed by offsets in [0, n), as the SEGGER RTT
    buffers use it: an offset moves forward and restarts at 0 when it reaches `n`. */
module RingIndex {
  import opened Bytes

  /** Cells from offset `a` forward to offset `b`. */
  function Dist(a: nat, b: nat, n: nat): (d: nat)
    requires a < n && b < n
    ensures d < n
  {
    if a <= b then b - a else b + n - a
  }

  /** The cell `j` positions after offset `a`. */
  function At(a: nat, j: nat, n: nat): (p: nat)
    requires a < n && j < n
    ensures p < n
  {
    if a + j < n then a + j else a + j - n
  }

  /** The `len` bytes that start at offset `a`, read around the end of the ring. */
  function Window(buf: seq<byte>, a: nat, len: nat): (w: seq<byte>)
    requires a < |buf| && len < |buf|
    ensures |w| == len
    ensures forall j :: 0 <= j < len ==> w[j] == buf[At(a, j, |buf|)]
  {
    seq(len, j requires 0 <= j < len => buf[At(a, j, |buf|)])
  }

  /** The bytes published but not yet consumed: the ring's content as a queue. */
  function Queue(buf: seq<byte>, rd: nat, wr: nat): (q: seq<byte>)
    requires rd < |buf| && wr < |buf|
    ensures |q| == Dist(rd, wr, |buf|)
  {
    Window(buf, rd, Dist(rd, wr, |buf|))
  }

  /** Moving the read offset by `k` drops the first `k` queued bytes. */
  lemma QueueAfterRead(buf: seq<byte>, rd: nat, wr: nat, k: nat)
    requires rd < |buf| && wr < |buf| && k <= Dist(rd, wr, |buf|)
    ensures Queue(buf, rd, wr)[k..] == Queue(buf, At(rd, k, |buf|), wr)
    ensures Queue(buf, rd, wr)[..k] == Window(buf, rd, k)
    ensures Window(buf, rd, k) + Queue(buf, At(rd, k, |buf|), wr) == Queue(buf, rd, wr)
  {
  }

  /** Storing `data` in the free cells and moving the write offset appends `data`. */
  lemma QueueAfterWrite(was: seq<byte>, buf: seq<byte>, rd: nat, wr: nat, data: seq<byte>)
    requires |buf| == |was| && rd < |buf| && wr < |buf|
    requires Dist(rd, wr, |buf|) + |data| < |buf|
    requires Window(buf, wr, |data|) == data
    requires Queue(buf, rd, wr) == Queue(was, rd, wr)
    ensures Queue(buf, rd, At(wr, |data|, |buf|)) == Queue(was, rd, wr) + data
  {
    var q := Queue(buf, rd, At(wr, |data|, |buf|));
    var d := Dist(rd, wr, |buf|);
    forall j | 0 <= j < |q| ensures q[j] == (Queue(was, rd, wr) + data)[j] {
      if j < d {
        assert Queue(buf, rd, wr)[j] == Queue(was, rd, wr)[j];
      } else {
        assert Window(buf, wr, |data|)[j - d] == data[j - d];
        assert At(wr, j - d, |buf|) == At(rd, j, |buf|);
      }
    }
  }

  /** `buf` with `data` stored from offset `wr` on, continuing at cell 0 past the end. */
  function Stored(buf: seq<byte>, wr: nat, data: seq<byte>): (r: seq<byte>)
    requires wr < |buf| && |data| < |buf|
    ensures |r| == |buf|
    ensures forall p :: 0 <= p < |buf| ==>
      r[p] == if Dist(wr, p, |buf|) < |data| then data[Dist(wr, p, |buf|)] else buf[p]
  {
    seq(|buf|, p requires 0 <= p < |buf| =>
      if Dist(wr, p, |buf|) < |data| then data[Dist(wr, p, |buf|)] else buf[p])
  }

  /** Storing into free cells and moving the write offset appends to the queue. */
  lemma StoredAppends(buf: seq<byte>, rd: nat, wr: nat, data: seq<byte>)
    requires rd < |buf| && wr < |buf| && Dist(rd, wr, |buf|) + |data| < |buf|
    ensures Queue(Stored(buf, wr, data), rd, At(wr, |data|, |buf|)) == Queue(buf, rd, wr) + data
  {
    var b := Stored(buf, wr, data);
    assert Window(b, wr, |data|) == data;
    assert Queue(b, rd, wr) == Queue(buf, rd, wr);
    QueueAfterWrite(buf, b, rd, wr, data);
  }

  // ----- the bounded FIFO every operation refines -----

  /** All or nothing. */
  function FifoSkip(q: seq<byte>, cap: nat, data: seq<byte>): seq<byte> {
    if |q| + |data| <= cap then q + data else q
  }

  /** The longest prefix of `data` that fits. */
  function FifoTrim(q: seq<byte>, cap: nat, data: seq<byte>): seq<byte>
    requires |q| <= cap
  {
    q + data[..Min(cap - |q|, |data|)]
  }

  /** The two copy lengths of one read call: up to the end of the ring, then from its start.
      The second length is an unsigned difference, which is huge when `room` ended the first
      copy early; then no room is left and nothing is copied. */
  lemma ReadLengths(size: nat, rd: nat, wr: nat, room: nat, n1: nat, rd1: nat, n2: nat)
    requires rd < size && wr < size && size < U32
    requires n1 == if rd > wr then Min(size - rd, room) else 0
    requires rd1 == if rd + n1 == size then 0 else rd + n1
    requires n2 == Min(Sub32(wr, rd1), room - n1)
    ensures n1 + n2 == Min(room, Dist(rd, wr, size)) && rd1 + n2 < size
    ensures rd1 + n2 == At(rd, n1 + n2, size)
    ensures n1 + n2 == 0 ==> rd1 + n2 == rd
    ensures n1 == 0 || n2 == 0 || rd1 == 0
  {
  }

  lemma WindowInTwo(buf: seq<byte>, rd: nat, n1: nat, rd1: nat, n2: nat)
    requires rd + n1 <= |buf| && rd < |buf| && n1 + n2 < |buf|
    requires rd1 == if rd + n1 == |buf| then 0 else rd + n1
    requires n1 == 0 || n2 == 0 || rd1 == 0
    requires rd1 + n2 <= |buf|
    ensures Window(buf, rd, n1 + n2) == buf[rd..rd + n1] + buf[rd1..rd1 + n2]
  {
    var w, s := Window(buf, rd, n1 + n2), buf[rd..rd + n1] + buf[rd1..rd1 + n2];
    forall j | 0 <= j < |w| ensures w[j] == s[j] {
      if j < n1 { assert s[j] == buf[rd + j]; } else { assert s[j] == buf[rd1 + (j - n1)]; }
    }
  }
}
