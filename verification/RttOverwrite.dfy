/** What `SEGGER_RTT_WriteWithOverwriteNoLock` leaves in the ring, and exactly when that is the
    newest data. */
module RttOverwrite {
  import opened Bytes
  import opened RingIndex

  /** The newest `cap` bytes of `q + data`. */
  function Newest(q: seq<byte>, cap: nat, data: seq<byte>): seq<byte> {
    var all := q + data;
    if |all| <= cap then all else all[|all| - cap..]
  }

  /** The write loop.  `avail` is what the current lap may use: up to the end of the ring on the
      first lap, but only size - 1 bytes on every later one. */
  function Laps(buf: seq<byte>, wr: nat, avail: nat, data: seq<byte>): (r: (seq<byte>, nat))
    requires 0 < avail && wr + avail <= |buf|
    requires |buf| > 1 || |data| <= 1
    decreases |data|
  {
    if avail > |data| then (Splice(buf, wr, data), wr + |data|)
    else
      var b := Splice(buf, wr, data[..avail]);
      if |data| == avail then (b, 0) else Laps(b, 0, |buf| - 1, data[avail..])
  }

  // ----- when the loop ends -----

  /** The loop between two turns. */
  datatype Lapping = Lapping(buf: seq<byte>, wr: nat, avail: nat, rest: seq<byte>, done: bool)
  {
    predicate Fits() { wr + avail <= |buf| && 0 < |buf| }
  }

  /** One turn. */
  function Turn(l: Lapping): (r: Lapping)
    requires l.Fits()
    ensures r.Fits()
  {
    if l.done then l
    else if l.avail > |l.rest| then
      l.(buf := Splice(l.buf, l.wr, l.rest), wr := l.wr + |l.rest|, avail := 0, done := true)
    else
      var rest := l.rest[l.avail..];
      Lapping(Splice(l.buf, l.wr, l.rest[..l.avail]), 0, |l.buf| - 1, rest, rest == [])
  }

  function Turns(l: Lapping, n: nat): (r: Lapping)
    requires l.Fits()
    ensures r.Fits()
    decreases n
  {
    if n == 0 then l else Turns(Turn(l), n - 1)
  }

  ghost predicate Ends(l: Lapping)
    requires l.Fits()
  {
    exists n: nat :: Turns(l, n).done
  }

  /** A later lap in a ring of one byte has no cell and changes nothing. */
  lemma {:induction false} StuckForever(l: Lapping, n: nat)
    requires l.Fits() && |l.buf| == 1 && l.wr == 0 && l.avail == 0 && l.rest != [] && !l.done
    ensures Turns(l, n) == l
  {
    if n > 0 {
      assert Splice(l.buf, 0, l.rest[..0]) == l.buf && l.rest[0..] == l.rest;
      StuckForever(l, n - 1);
    }
  }

  /** Where the loop ends, and what it has then stored. */
  lemma {:induction false} LoopEnds(l: Lapping)
    requires l.Fits() && !l.done && 0 < l.avail && (|l.buf| > 1 || |l.rest| <= 1)
    ensures exists n: nat :: Turns(l, n).done && (Turns(l, n).buf, Turns(l, n).wr) == Laps(l.buf, l.wr, l.avail, l.rest)
    decreases |l.rest|
  {
    var t := Turn(l);
    assert Turns(t, 0) == t && Turns(l, 1) == Turns(t, 0);
    if l.avail < |l.rest| {
      LoopEnds(t);
      var n: nat :| Turns(t, n).done && (Turns(t, n).buf, Turns(t, n).wr) == Laps(t.buf, t.wr, t.avail, t.rest);
      assert Turns(l, n + 1) == Turns(t, n);
    }
  }

  /** An overwriting write ends exactly if the ring has more than one byte or there is at most one to write. */
  lemma OverwriteEndsIff(buf: seq<byte>, wr: nat, data: seq<byte>)
    requires wr < |buf|
    ensures Ends(Lapping(buf, wr, |buf| - wr, data, false)) <==> |buf| > 1 || |data| <= 1
  {
    var l := Lapping(buf, wr, |buf| - wr, data, false);
    if |buf| > 1 || |data| <= 1 {
      LoopEnds(l);
    } else {
      forall n: nat ensures !Turns(l, n).done {
        if n > 0 { StuckForever(Turn(l), n - 1); }
      }
    }
  }

  // ----- the offsets -----

  /** `rdOff` moves past what is about to be overwritten. */
  function PushedRd(rd: nat, wr: nat, size: nat, count: nat): (r: nat)
    requires rd < size && wr < size
    ensures r < size
  {
    var free := size - 1 - Dist(rd, wr, size);
    if count > free then Remainder(rd + (count - free), size) else rd
  }

  /** Queue left by an overwriting write. */
  function Overwritten(buf: seq<byte>, rd: nat, wr: nat, data: seq<byte>): seq<byte>
    requires rd < |buf| && wr < |buf| && (|buf| > 1 || |data| <= 1)
  {
    LapsShape(buf, wr, |buf| - wr, data);
    var (b, w) := Laps(buf, wr, |buf| - wr, data);
    Queue(b, PushedRd(rd, wr, |buf|, |data|), w)
  }

  lemma {:induction false} LapsShape(buf: seq<byte>, wr: nat, avail: nat, data: seq<byte>)
    requires 0 < avail && wr + avail <= |buf| && (|buf| > 1 || |data| <= 1)
    ensures var (b, w) := Laps(buf, wr, avail, data); |b| == |buf| && w < |buf|
    decreases |data|
  {
    if avail < |data| {
      LapsShape(Splice(buf, wr, data[..avail]), 0, |buf| - 1, data[avail..]);
    }
  }

  /** Later laps never reach the last cell and stop short of it. */
  lemma {:induction false} LaterLaps(buf: seq<byte>, data: seq<byte>)
    requires |buf| > 1
    ensures var (b, w) := Laps(buf, 0, |buf| - 1, data);
            |b| == |buf| && w < |buf| - 1 && b[|buf| - 1] == buf[|buf| - 1]
    decreases |data|
  {
    var avail := |buf| - 1;
    if avail < |data| {
      LaterLaps(Splice(buf, 0, data[..avail]), data[avail..]);
    }
  }

  /** Within the bound the loop stores like an ordinary wrapping write. */
  ghost predicate StoredOnce(b: seq<byte>, buf: seq<byte>, wr: nat, data: seq<byte>)
    requires wr < |buf|
  {
    |b| == |buf| &&
    forall p :: 0 <= p < |buf| ==>
      b[p] == if p + |buf| < wr + |data| then data[p + |buf| - wr]
              else if wr <= p < wr + |data| then data[p - wr] else buf[p]
  }

  lemma LapsWithinBound(buf: seq<byte>, wr: nat, data: seq<byte>)
    requires 1 < |buf| && wr < |buf| && |data| < (|buf| - wr) + (|buf| - 1)
    ensures var (b, w) := Laps(buf, wr, |buf| - wr, data);
            && StoredOnce(b, buf, wr, data)
            && w == (if wr + |data| < |buf| then wr + |data| else wr + |data| - |buf|)
  {
    var rem := |buf| - wr;
    if rem <= |data| {
      var b1 := Splice(buf, wr, data[..rem]);
      var rest := data[rem..];
      if rest != [] {
        assert Laps(b1, 0, |buf| - 1, rest) == (Splice(b1, 0, rest), |rest|);
      }
    }
  }

  lemma PushedRdSmall(rd: nat, wr: nat, size: nat, count: nat)
    requires rd < size && wr < size && count < (size - wr) + (size - 1)
    ensures var free := size - 1 - Dist(rd, wr, size);
            var r := PushedRd(rd, wr, size, count);
            if count <= free then r == rd
            else r == if wr + count + 1 < size then wr + count + 1 else wr + count + 1 - size
  {
    var x := rd + count - (size - 1 - Dist(rd, wr, size));
    if x >= size {
      assert Remainder(x, size) == Remainder(x - size, size) == x - size;
    }
  }

  /** Bytes dropped from the front of old contents ++ data. */
  function Dropped(used: nat, count: nat, cap: nat): nat {
    if used + count <= cap then 0 else used + count - cap
  }

  /** Cell `j` of the new window holds a surviving old byte, in a cell the laps did not touch ... */
  lemma OldCell(rd: nat, wr: nat, n: nat, count: nat, j: nat)
    requires 1 < n && rd < n && wr < n && count < (n - wr) + (n - 1)
    requires Dropped(Dist(rd, wr, n), count, n - 1) + j < Dist(rd, wr, n)
    ensures j < n
    ensures var p := At(PushedRd(rd, wr, n, count), j, n);
            && p == At(rd, Dropped(Dist(rd, wr, n), count, n - 1) + j, n)
            && !(p + n < wr + count) && !(wr <= p < wr + count)
  {
    PushedRdSmall(rd, wr, n, count);
  }

  /** ... or byte `i` of the data, in the cell where the laps last stored it. */
  lemma NewCell(rd: nat, wr: nat, n: nat, count: nat, j: nat)
    requires 1 < n && rd < n && wr < n && count < (n - wr) + (n - 1)
    requires var d := Dropped(Dist(rd, wr, n), count, n - 1);
             Dist(rd, wr, n) <= d + j < Dist(rd, wr, n) + count
    ensures j < n
    ensures var i := Dropped(Dist(rd, wr, n), count, n - 1) + j - Dist(rd, wr, n);
            var p := At(PushedRd(rd, wr, n, count), j, n);
            if wr + i < n then p == wr + i && !(p + n < wr + count) else p + n == wr + i
  {
    PushedRdSmall(rd, wr, n, count);
  }

  lemma KeepsNewestCell(b: seq<byte>, buf: seq<byte>, rd: nat, wr: nat, data: seq<byte>, j: nat)
    requires 1 < |buf| && rd < |buf| && wr < |buf| && |data| < (|buf| - wr) + (|buf| - 1)
    requires StoredOnce(b, buf, wr, data)
    requires Dropped(Dist(rd, wr, |buf|), |data|, |buf| - 1) + j < Dist(rd, wr, |buf|) + |data|
    ensures j < |buf|
    ensures b[At(PushedRd(rd, wr, |buf|, |data|), j, |buf|)]
         == (Queue(buf, rd, wr) + data)[Dropped(Dist(rd, wr, |buf|), |data|, |buf| - 1) + j]
  {
    var i := Dropped(Dist(rd, wr, |buf|), |data|, |buf| - 1) + j;
    if i < Dist(rd, wr, |buf|) {
      OldCell(rd, wr, |buf|, |data|, j);
    } else {
      NewCell(rd, wr, |buf|, |data|, j);
    }
  }

  lemma WindowSize(rd: nat, wr: nat, n: nat, count: nat)
    requires 1 < n && rd < n && wr < n && count < (n - wr) + (n - 1)
    ensures var w := if wr + count < n then wr + count else wr + count - n;
            w < n && Dist(PushedRd(rd, wr, n, count), w, n)
                  == Dist(rd, wr, n) + count - Dropped(Dist(rd, wr, n), count, n - 1)
  {
    PushedRdSmall(rd, wr, n, count);
  }

  lemma KeepsNewestWithinBound(buf: seq<byte>, rd: nat, wr: nat, data: seq<byte>)
    requires 1 < |buf| && rd < |buf| && wr < |buf| && |data| < (|buf| - wr) + (|buf| - 1)
    ensures Overwritten(buf, rd, wr, data) == Newest(Queue(buf, rd, wr), |buf| - 1, data)
  {
    LapsWithinBound(buf, wr, data);
    WindowSize(rd, wr, |buf|, |data|);
    var q, all := Overwritten(buf, rd, wr, data), Queue(buf, rd, wr) + data;
    var d := Dropped(Dist(rd, wr, |buf|), |data|, |buf| - 1);
    assert Newest(Queue(buf, rd, wr), |buf| - 1, data) == all[d..];
    forall j | 0 <= j < |q| ensures q[j] == all[d..][j] {
      KeepsNewestCell(Laps(buf, wr, |buf| - wr, data).0, buf, rd, wr, data, j);
    }
  }

  /** What the write loop leaves is the queue, and within the bound the newest data; a ring of one
      byte holds nothing before and after. */
  lemma AfterLaps(buf: seq<byte>, rd: nat, wr: nat, data: seq<byte>)
    requires rd < |buf| && wr < |buf| && (|buf| > 1 || |data| <= 1)
    ensures var (b, w) := Laps(buf, wr, |buf| - wr, data);
            && |b| == |buf| && w < |buf|
            && Queue(b, PushedRd(rd, wr, |buf|, |data|), w) == Overwritten(buf, rd, wr, data)
    ensures |data| < (|buf| - wr) + (|buf| - 1) || |buf| == 1 ==>
              Overwritten(buf, rd, wr, data) == Newest(Queue(buf, rd, wr), |buf| - 1, data)
  {
    LapsShape(buf, wr, |buf| - wr, data);
    if |buf| > 1 && |data| < (|buf| - wr) + (|buf| - 1) {
      KeepsNewestWithinBound(buf, rd, wr, data);
    }
  }

  /** The bound is exact: a write of `count` bytes keeps the newest data whatever the bytes are if
      and only if `count` is below it. */
  lemma KeepsNewestIff(buf: seq<byte>, rd: nat, wr: nat, count: nat)
    requires 1 < |buf| && rd < |buf| && wr < |buf|
    ensures (forall data: seq<byte> :: |data| == count ==>
               Overwritten(buf, rd, wr, data) == Newest(Queue(buf, rd, wr), |buf| - 1, data))
            <==> count < (|buf| - wr) + (|buf| - 1)
  {
    if count < (|buf| - wr) + (|buf| - 1) {
      forall data: seq<byte> | |data| == count
        ensures Overwritten(buf, rd, wr, data) == Newest(Queue(buf, rd, wr), |buf| - 1, data)
      {
        KeepsNewestWithinBound(buf, rd, wr, data);
      }
    } else {
      var data := Marked(count, |buf| - wr - 1);
      LosesNewest(buf, rd, wr, data);
    }
  }

  /** Zeros with a single one at index `at`. */
  function Marked(count: nat, at: nat): (data: seq<byte>)
    requires at < count
    ensures |data| == count && forall i :: 0 <= i < count ==> data[i] == if i == at then 1 else 0
  {
    seq(count, i => if i == at then 1 else 0)
  }

  /** From the bound on, the last cell keeps its byte of the first lap ... */
  lemma StaleLastCell(buf: seq<byte>, wr: nat, data: seq<byte>)
    requires 1 < |buf| && wr < |buf| && |data| >= (|buf| - wr) + (|buf| - 1)
    ensures var (b, w) := Laps(buf, wr, |buf| - wr, data);
            |b| == |buf| && w < |buf| - 1 && b[|buf| - 1] == data[|buf| - wr - 1]
  {
    LaterLaps(Splice(buf, wr, data[..|buf| - wr]), data[|buf| - wr..]);
  }

  /** ... so either the queue has the wrong length or it shows that stale byte among the newest. */
  lemma LosesNewest(buf: seq<byte>, rd: nat, wr: nat, data: seq<byte>)
    requires 1 < |buf| && rd < |buf| && wr < |buf|
    requires |data| >= (|buf| - wr) + (|buf| - 1) && data == Marked(|data|, |buf| - wr - 1)
    ensures Overwritten(buf, rd, wr, data) != Newest(Queue(buf, rd, wr), |buf| - 1, data)
  {
    var n := |buf|;
    StaleLastCell(buf, wr, data);
    var (b, w) := Laps(buf, wr, n - wr, data);
    var r := PushedRd(rd, wr, n, |data|);
    if Dist(r, w, n) == n - 1 {
      var j := n - 2 - w;
      assert Queue(b, r, w)[j] == b[n - 1] == 1;
      var was := Queue(buf, rd, wr);
      assert Newest(was, n - 1, data)[j] == (was + data)[|was| + |data| - (n - 1) + j] == data[|data| - 1 - w];
    }
  }
}
