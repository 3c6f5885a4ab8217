/** A sample-data request is cut into one internal frame per second; the frames go through a thread-safe
    circular queue, are relayed one per second to the message task and answered with 20 responses each. */
module RelayQueue {
  import opened Bytes
  import opened RingIndex
  import opened Records
  import opened Wire
  import opened LogLookup
  import Calendar
  import Log = SampleLog
  import Res = SampleResponse

  const SLOTS := 62
  const SLOT_SIZE := 100

  type Slot = s: seq<byte> | |s| == SLOT_SIZE witness Zeros(SLOT_SIZE)

  /** A message filled up to the size of a slot. */
  function Padded(m: seq<byte>): (p: Slot)
    requires |m| <= SLOT_SIZE
    ensures m <= p
  {
    m + Zeros(SLOT_SIZE - |m|)
  }

  // ----- the queue -----

  /** The slots from `front` up to `rear`, around the end. */
  function Waiting(slots: seq<seq<byte>>, front: nat, rear: nat): (q: seq<seq<byte>>)
    requires |slots| == SLOTS && front < SLOTS && rear < SLOTS
    ensures |q| == Dist(front, rear, SLOTS)
  {
    seq(Dist(front, rear, SLOTS), j requires 0 <= j < Dist(front, rear, SLOTS) => slots[At(front, j, SLOTS)])
  }

  /** `ThreadSafeCirQue`. */
  class CirQue {
    const ucBuf: array<seq<byte>>
    var ucFront: nat
    var ucRear: nat

    ghost predicate Valid()
      reads this, ucBuf
    {
      && ucBuf.Length == SLOTS && ucFront < SLOTS && ucRear < SLOTS
      && (forall p :: 0 <= p < SLOTS ==> |ucBuf[p]| == SLOT_SIZE)
      && (forall p :: 0 <= p < SLOTS && Dist(ucFront, p, SLOTS) >= Dist(ucFront, ucRear, SLOTS) ==>
            ucBuf[p] == Zeros(SLOT_SIZE))
    }

    ghost function Contents(): (q: seq<seq<byte>>)
      requires Valid()
      reads this, ucBuf
      ensures |q| == Dist(ucFront, ucRear, SLOTS) && forall j :: 0 <= j < |q| ==> |q[j]| == SLOT_SIZE
    {
      Waiting(ucBuf[..], ucFront, ucRear)
    }

    /** The queue is a static object, so its slots start out as zeros; `initCirQueue` itself clears only
        the first four bytes. */
    constructor ()
      ensures Valid() && Contents() == [] && fresh(ucBuf)
    {
      ucBuf := new seq<byte>[SLOTS](_ => Zeros(SLOT_SIZE));
      ucFront, ucRear := 0, 0;
    }

    /** `enQueue`: refused without the mutex or when 61 messages wait.  Only the message's own bytes are
        copied; because free slots are kept zero, what is queued is the message filled up with zeros. */
    method EnQueue(buf: seq<byte>, granted: bool) returns (ok: bool)
      requires Valid() && |buf| <= SLOT_SIZE
      modifies this`ucRear, ucBuf
      ensures Valid() && ok == (granted && |old(Contents())| < SLOTS - 1)
      ensures Contents() == if ok then old(Contents()) + [Padded(buf)] else old(Contents())
    {
      if !granted {
        return false;
      }
      if (ucRear + 1) % SLOTS == ucFront {
        return false;
      }
      assert Dist(ucFront, ucRear, SLOTS) < SLOTS - 1;
      ghost var was := Contents();
      ucBuf[ucRear] := Splice(ucBuf[ucRear], 0, buf);
      assert ucBuf[ucRear] == Padded(buf);
      ucRear := (ucRear + 1) % SLOTS;
      assert |Contents()| == |was| + 1;
      return true;
    }

    /** `deQueue`: hands out the oldest message and clears its slot. */
    method DeQueue(granted: bool) returns (ok: bool, msg: seq<byte>)
      requires Valid()
      modifies this`ucFront, ucBuf
      ensures Valid() && ok == (granted && |old(Contents())| > 0)
      ensures ok ==> old(Contents()) == [msg] + Contents()
      ensures !ok ==> Contents() == old(Contents())
    {
      msg := [];
      if !granted {
        return false, msg;
      }
      if ucFront == ucRear {
        return false, msg;
      }
      ghost var was := Contents();
      msg := ucBuf[ucFront];
      ucBuf[ucFront] := Zeros(SLOT_SIZE);
      ucFront := (ucFront + 1) % SLOTS;
      assert |Contents()| == |was| - 1;
      return true, msg;
    }
  }

  // ----- frames -----

  const SAMPLE_DATA_INREQ: byte := 0x32
  const IN_SIZE := 32

  /** Fields of `SampleDataInRes_t`. */
  datatype Second = Second(total: word, curr: word, strTs: word, endTs: word)

  /** Header and total, the part of a frame that all seconds of a request share. */
  function Head(total: word): (b: seq<byte>)
    ensures |b| == 9
  {
    PutHigh(FRAME_HEAD) + PutHigh(IN_SIZE) + [SAMPLE_DATA_INREQ] + PutWord(total)
  }

  /** A frame without its checksum: 5 bytes of header, 16 of fields, 9 reserved. */
  function Body(s: Second): (b: seq<byte>)
    ensures |b| == IN_SIZE - 2
  {
    Head(s.total) + PutWord(s.curr) + PutWord(s.strTs) + PutWord(s.endTs) + Zeros(9)
  }

  function Frame(s: Second): (b: seq<byte>)
    ensures |b| == IN_SIZE
  {
    Body(s) + PutHigh(Sum(Body(s)) % 0x1_0000)
  }

  /** What `msg_proc_task` makes of the message at `at`: accepted with its sign, or ignored.  The length
      field is believed: outside 2 to 100 the sum and the checksum come from memory around the message. */
  datatype Verdict = Accepted(sign: byte) | Ignored

  const REACH := 0x1_0001      // bytes behind the message that a length field can reach

  ghost predicate Room(mem: seq<byte>, at: nat) { 2 <= at && at + REACH <= |mem| }

  function Check(mem: seq<byte>, at: nat): Verdict
    requires Room(mem, at)
  {
    var len: int := GetHigh(mem, at + 2);
    if GetHigh(mem, at) == FRAME_HEAD
       && Sum(mem[at..at + (len - 2) % 0x1_0000]) % 0x1_0000 == GetHigh(mem, at + len - 2)
    then Accepted(mem[at + 4]) else Ignored
  }

  function GetSecond(msg: seq<byte>): Second
    requires |msg| == SLOT_SIZE
  {
    Second(GetWord(msg, 5), GetWord(msg, 9), GetWord(msg, 13), GetWord(msg, 17))
  }

  lemma BodyParts(s: Second)
    ensures var b := Body(s);
            && b[0..2] == PutHigh(FRAME_HEAD) && b[2..4] == PutHigh(IN_SIZE) && b[4] == SAMPLE_DATA_INREQ
            && b[5..9] == PutWord(s.total) && b[9..13] == PutWord(s.curr)
            && b[13..17] == PutWord(s.strTs) && b[17..21] == PutWord(s.endTs)
  {
    var h, b := Head(s.total), Body(s);
    assert b[..9] == h;
    assert h[0..2] == PutHigh(FRAME_HEAD) && h[2..4] == PutHigh(IN_SIZE) && h[5..9] == PutWord(s.total);
    assert b[0..2] == h[0..2] && b[2..4] == h[2..4] && b[5..9] == h[5..9];
  }

  lemma FrameFields(s: Second)
    ensures GetSecond(Padded(Frame(s))) == s
  {
    var b, m := Body(s), Padded(Frame(s));
    BodyParts(s);
    assert forall i, j :: 0 <= i <= j <= 30 ==> m[i..j] == b[i..j];
    WordRoundTrip(m, 5, s.total);
    WordRoundTrip(m, 9, s.curr);
    WordRoundTrip(m, 13, s.strTs);
    WordRoundTrip(m, 17, s.endTs);
  }

  /** A queued frame is accepted wherever it lies, and gives its fields back. */
  lemma FrameAccepted(s: Second, mem: seq<byte>, at: nat)
    requires Room(mem, at) && Stands(mem, at, Padded(Frame(s)))
    ensures Check(mem, at) == Accepted(SAMPLE_DATA_INREQ) && GetSecond(mem[at..at + SLOT_SIZE]) == s
  {
    FrameFields(s);
    BodyAndSum(s, mem, at);
    HeadStands(mem, at, s);
    Accepts(mem, at, Body(s));
  }

  lemma BodyAndSum(s: Second, mem: seq<byte>, at: nat)
    requires Stands(mem, at, Padded(Frame(s)))
    ensures Stands(mem, at, Body(s)) && at + 32 <= |mem| && GetHigh(mem, at + 30) == Sum(Body(s)) % 0x1_0000
  {
    var b, crc := Body(s), PutHigh(Sum(Body(s)) % 0x1_0000);
    assert Padded(Frame(s)) == (b + crc) + Zeros(68);
    HalvesStand(mem, at, b + crc, Zeros(68));
    HalvesStand(mem, at, b, crc);
    HighRoundTrip(mem, at + 30, Sum(b) % 0x1_0000);
  }

  lemma Accepts(mem: seq<byte>, at: nat, body: seq<byte>)
    requires Room(mem, at) && |body| == IN_SIZE - 2 && Stands(mem, at, body)
    requires GetHigh(mem, at) == FRAME_HEAD && GetHigh(mem, at + 2) == IN_SIZE && mem[at + 4] == SAMPLE_DATA_INREQ
    requires GetHigh(mem, at + 30) == Sum(body) % 0x1_0000
    ensures Check(mem, at) == Accepted(SAMPLE_DATA_INREQ)
  {
    assert mem[at..at + (IN_SIZE - 2) % 0x1_0000] == body;
  }

  lemma HeadStands(mem: seq<byte>, at: nat, s: Second)
    requires Stands(mem, at, Body(s))
    ensures GetHigh(mem, at) == FRAME_HEAD && GetHigh(mem, at + 2) == IN_SIZE && mem[at + 4] == SAMPLE_DATA_INREQ
  {
    BodyParts(s);
    StandsPart(mem, at, Body(s), 0, 2);
    StandsPart(mem, at, Body(s), 2, 2);
    assert mem[at..at + 30][4] == mem[at + 4];
    HighRoundTrip(mem, at, FRAME_HEAD);
    HighRoundTrip(mem, at + 2, IN_SIZE);
  }

  /** One byte of an accepted frame changed in front of its checksum, outside the length field, gets it ignored. */
  lemma CorruptedIgnored(s: Second, mem: seq<byte>, at: nat, k: nat, x: byte)
    requires Room(mem, at) && Stands(mem, at, Padded(Frame(s)))
    requires k < IN_SIZE - 2 && k != 2 && k != 3 && x != mem[at + k]
    ensures Check(mem[at + k := x], at) == Ignored
  {
    hide Sum, Body, Padded, Frame;
    var bad := mem[at + k := x];
    BodyAndSum(s, mem, at);
    HeadStands(mem, at, s);
    var was, now := mem[at..at + 30], bad[at..at + 30];
    assert was == Body(s) && now == was[k := x];
    SumNotices(was, k, x);
    assert GetHigh(bad, at + 2) == IN_SIZE && GetHigh(bad, at + 30) == GetHigh(mem, at + 30);
    assert bad[at..at + (IN_SIZE - 2) % 0x1_0000] == now;
  }

  // ----- cutting a request into seconds -----

  /** `end_ts` after the clamp to 60 seconds, in 32 bits. */
  function Clamped(strTs: word, endTs: word): word {
    if endTs > (strTs + 59) % U32 then (strTs + 59) % U32 else endTs
  }

  function Seconds(strTs: word, endTs: word): (n: nat)
    ensures n <= 60
  {
    if endTs < strTs then 0 else Sub32(Clamped(strTs, endTs), strTs) + 1
  }

  /** Never more than 60, and exactly the span asked for below that, unless the clamp itself passes 2^32. */
  lemma SecondsMeans(strTs: word, endTs: word)
    ensures strTs <= endTs && strTs + 59 < U32 ==> Seconds(strTs, endTs) == Min(endTs - strTs + 1, 60)
    ensures strTs <= endTs && strTs + 59 >= U32 ==> Seconds(strTs, endTs) == 60
  {
  }

  /** The part of second `i`. */
  function Part(strTs: word, n: nat, i: nat): Second
    requires i < n <= 60
  {
    Second(20 * n, 20 * i, (strTs + i) % U32, (strTs + i) % U32)
  }

  function Parts(strTs: word, n: nat): (p: seq<seq<byte>>)
    requires n <= 60
    ensures |p| == n
  {
    seq(n, i requires 0 <= i < n => Frame(Part(strTs, n, i)))
  }

  /** Queue contents after `enQueue` calls for all of `frames`, whose results are not looked at. */
  function PutAll(q: seq<seq<byte>>, frames: seq<seq<byte>>, granted: nat -> bool): seq<seq<byte>>
    requires forall k :: 0 <= k < |frames| ==> |frames[k]| <= SLOT_SIZE
    decreases |frames|
  {
    if frames == [] then q
    else
      var k := |frames| - 1;
      var r := PutAll(q, frames[..k], granted);
      if granted(k) && |r| < SLOTS - 1 then r + [Padded(frames[k])] else r
  }

  lemma ZerosStay(buf: seq<byte>, total: word, curr: word, strTs: word, endTs: word)
    requires |buf| == SLOT_SIZE && Stands(buf, 0, Head(total)) && Stands(buf, 21, Zeros(9))
    ensures var b := Splice(Splice(Splice(buf, 9, PutWord(curr)), 13, PutWord(strTs)), 17, PutWord(endTs));
            && Stands(b, 0, Head(total)) && Stands(b, 21, Zeros(9))
            && b[..30] == Body(Second(total, curr, strTs, endTs))
  {
    var x, y, z := PutWord(curr), PutWord(strTs), PutWord(endTs);
    var b1 := Splice(buf, 9, x);
    var b2 := Splice(b1, 13, y);
    var b := Splice(b2, 17, z);
    StandsHere(buf, 9, x);
    StandsHere(b1, 13, y);
    StandsHere(b2, 17, z);
    StandsElsewhere(b1, 9, x, 13, y);
    StandsElsewhere(b2, 9, x, 17, z);
    StandsElsewhere(b2, 13, y, 17, z);
    Frames3(buf, 0, Head(total), x, y, z);
    Frames3(buf, 21, Zeros(9), x, y, z);
    assert b[..30] == b[0..9] + b[9..13] + b[13..17] + b[17..21] + b[21..30];
  }

  lemma Frames3(buf: seq<byte>, at: nat, bytes: seq<byte>, x: seq<byte>, y: seq<byte>, z: seq<byte>)
    requires |buf| == SLOT_SIZE && Stands(buf, at, bytes) && |x| == |y| == |z| == 4 && (at + |bytes| <= 9 || 21 <= at)
    ensures Stands(Splice(Splice(Splice(buf, 9, x), 13, y), 17, z), at, bytes)
  {
    StandsElsewhere(buf, at, bytes, 9, x);
    StandsElsewhere(Splice(buf, 9, x), at, bytes, 13, y);
    StandsElsewhere(Splice(Splice(buf, 9, x), 13, y), at, bytes, 17, z);
  }

  /** `kt_SampleData` for the two decoded times: one frame per second, built in one buffer. */
  method SampleData(que: CirQue, strTs: word, endTs: word, granted: nat -> bool)
    requires que.Valid()
    modifies que`ucRear, que.ucBuf
    ensures que.Valid()
    ensures que.Contents() == PutAll(old(que.Contents()), Parts(strTs, Seconds(strTs, endTs)), granted)
  {
    SecondsMeans(strTs, endTs);
    if endTs < strTs {
      return;
    }
    var last := endTs;
    if last > (strTs + 59) % U32 {
      last := (strTs + 59) % U32;
    }
    EnQueueParts(que, strTs, Sub32(last, strTs), granted);
  }

  method EnQueueParts(que: CirQue, strTs: word, span: nat, granted: nat -> bool)
    requires que.Valid() && span < 60
    modifies que`ucRear, que.ucBuf
    ensures que.Valid() && que.Contents() == PutAll(old(que.Contents()), Parts(strTs, span + 1), granted)
  {
    hide CirQue.Contents, PutAll, Frame, Padded, Parts;
    ghost var was, frames := que.Contents(), Parts(strTs, span + 1);
    var total: word := (span + 1) * 1000 / 50;
    var buf := Started(total);
    var i := 0;
    PutNone(was, strTs, span + 1, granted);
    while i <= span
      invariant i <= span + 1 && que.Valid()
      invariant |buf| == SLOT_SIZE && Stands(buf, 0, Head(total)) && Stands(buf, 21, Zeros(9))
      invariant PutUpTo(que.Contents(), was, strTs, span + 1, i, granted)
    {
      buf := FillIn(buf, total, 20 * i, (strTs + i) % U32);
      ghost var before := que.Contents();
      var ok := que.EnQueue(buf[..IN_SIZE], granted(i));
      PutOneMore(before, que.Contents(), was, strTs, span + 1, i, buf[..IN_SIZE], granted);
      i := i + 1;
    }
    assert frames[..span + 1] == frames;
  }

  /** The queue after the first `i` frames. */
  ghost predicate PutUpTo(q: seq<seq<byte>>, was: seq<seq<byte>>, strTs: word, n: nat, i: nat, granted: nat -> bool)
    requires i <= n <= 60
  {
    q == PutAll(was, Parts(strTs, n)[..i], granted)
  }

  lemma PutNone(was: seq<seq<byte>>, strTs: word, n: nat, granted: nat -> bool)
    requires n <= 60
    ensures PutUpTo(was, was, strTs, n, 0, granted)
  {
  }

  lemma PutOneMore(q: seq<seq<byte>>, q': seq<seq<byte>>, was: seq<seq<byte>>, strTs: word, n: nat, i: nat,
                   frame: seq<byte>, granted: nat -> bool)
    requires i < n <= 60 && PutUpTo(q, was, strTs, n, i, granted)
    requires frame == Frame(Second(20 * n, 20 * i, (strTs + i) % U32, (strTs + i) % U32))
    requires q' == if granted(i) && |q| < SLOTS - 1 then q + [Padded(frame)] else q
    ensures PutUpTo(q', was, strTs, n, i + 1, granted)
  {
    hide Frame, Padded;
    var frames := Parts(strTs, n);
    assert frames[..i + 1][..i] == frames[..i];
    assert frames[i] == frame;
  }

  /** The stores before the loop. */
  method Started(total: word) returns (buf: seq<byte>)
    ensures |buf| == SLOT_SIZE && Stands(buf, 0, Head(total)) && Stands(buf, 21, Zeros(9))
  {
    buf := Zeros(SLOT_SIZE);
    buf := Splice(buf, 0, PutHigh(FRAME_HEAD));
    buf := Splice(buf, 2, PutHigh(IN_SIZE));
    buf := buf[4 := SAMPLE_DATA_INREQ];
    buf := Splice(buf, 5, PutWord(total));
    assert buf[0..9] == Head(total);
  }

  /** The stores of one turn of the loop; the checksum of the turn before is still in its place. */
  method FillIn(was: seq<byte>, total: word, curr: word, ts: word) returns (buf: seq<byte>)
    requires |was| == SLOT_SIZE && Stands(was, 0, Head(total)) && Stands(was, 21, Zeros(9))
    ensures |buf| == SLOT_SIZE && Stands(buf, 0, Head(total)) && Stands(buf, 21, Zeros(9))
    ensures buf[..IN_SIZE] == Frame(Second(total, curr, ts, ts))
  {
    ZerosStay(was, total, curr, ts, ts);
    buf := Splice(was, 9, PutWord(curr));
    buf := Splice(buf, 13, PutWord(ts));
    buf := Splice(buf, 17, PutWord(ts));
    ghost var body := buf[..30];
    var crc := CheckSum8(buf[..IN_SIZE - 2]);
    StandsElsewhere(buf, 0, Head(total), 30, PutHigh(crc));
    StandsElsewhere(buf, 21, Zeros(9), 30, PutHigh(crc));
    buf := Splice(buf, 30, PutHigh(crc));
    assert buf[..30] == body;
    assert buf[..32] == buf[..30] + buf[30..32];
  }

  // ----- answering -----

  /** What the sample log finds when a message is answered. */
  type SecondLog = map<word, Res.SecondData>

  /** The log that holds `hist`, as a map. */
  ghost function LogMap(hist: seq<Log.Entry>): SecondLog
    requires Log.Chronological(hist)
  {
    if hist == [] then map[]
    else var k := |hist| - 1; LogMap(hist[..k])[hist[k].ts := hist[k].data]
  }

  lemma {:induction false} LogMapHas(hist: seq<Log.Entry>, ts: word)
    requires Log.Chronological(hist) && ts in LogMap(hist)
    ensures Has(hist, ts)
  {
    var k := |hist| - 1;
    if ts != hist[k].ts {
      LogMapHas(hist[..k], ts);
      var i :| 0 <= i < k && hist[..k][i].ts == ts;
      assert hist[i].ts == ts;
    }
  }

  lemma {:induction false} LogMapGives(hist: seq<Log.Entry>, i: nat)
    requires Log.Chronological(hist) && i < |hist|
    ensures hist[i].ts in LogMap(hist) && LogMap(hist)[hist[i].ts] == hist[i].data
  {
    var k := |hist| - 1;
    if i < k {
      LogMapGives(hist[..k], i);
      assert hist[..k][i] == hist[i] && hist[i].ts < hist[k].ts;
    }
  }

  /** Its entries are those of the history, and no others. */
  lemma LogMapMeans(hist: seq<Log.Entry>)
    requires Log.Chronological(hist)
    ensures forall ts :: ts in LogMap(hist) ==> Has(hist, ts)
    ensures forall i :: 0 <= i < |hist| ==> hist[i].ts in LogMap(hist) && LogMap(hist)[hist[i].ts] == hist[i].data
  {
    hide LogMap;
    forall ts | ts in LogMap(hist) ensures Has(hist, ts) {
      LogMapHas(hist, ts);
    }
    forall i | 0 <= i < |hist| ensures hist[i].ts in LogMap(hist) && LogMap(hist)[hist[i].ts] == hist[i].data {
      LogMapGives(hist, i);
    }
  }

  function Answer(s: Second, log: SecondLog, num: nat): (r: Res.Response)
    requires num < 20
    ensures Res.WellFormed(r)
  {
    AnswerTo(s.total, (s.curr + num) % U32, s.strTs, log, num)
  }

  function AnswerTo(total: word, curr: word, ts: word, log: SecondLog, num: nat): (r: Res.Response)
    requires num < 20
    ensures Res.WellFormed(r)
  {
    if ts in log then Res.Found(total, curr, log[ts], num) else Res.Missing(total, curr, ts, num)
  }

  function AnswerFrame(total: word, curr: word, ts: word, log: SecondLog, num: nat): seq<byte>
    requires num < 20
  {
    Res.Frame(AnswerTo(total, curr, ts, log, num))
  }

  function Answers(s: Second, log: SecondLog): (r: seq<Res.Response>)
    ensures |r| == 20 && forall num :: 0 <= num < 20 ==> r[num] == Answer(s, log, num)
  {
    seq(20, num requires 0 <= num < 20 => Answer(s, log, num))
  }

  /** The frames of responses as they are sent. */
  function Frames(r: seq<Res.Response>): (f: seq<seq<byte>>)
    requires forall k :: 0 <= k < |r| ==> Res.WellFormed(r[k])
    ensures |f| == |r|
  {
    seq(|r|, k requires 0 <= k < |r| => Res.Frame(r[k]))
  }

  lemma Counting(curr: word, num: nat)
    ensures (curr + 0) % U32 == curr && ((curr + num) % U32 + 1) % U32 == (curr + (num + 1)) % U32
  {
  }

  /** `kt_SampleDataIn`: the second is looked up in the sample log. */
  method SampleDataIn(msg: Slot, adc: Log.AdcObject, ghost hist: seq<Log.Entry>) returns (sent: seq<seq<byte>>)
    requires adc.Valid() && Log.Holds(adc.Value(), adc.card.mem, hist)
    modifies adc.tables
    ensures sent == Frames(Answers(GetSecond(msg), LogMap(hist)))
  {
    hide Answers, LogMap, Log.Placed, Log.TableStands, Log.DataStands, Log.IndexStands, Log.Sane;
    var strTs := GetWord(msg, 13);
    var found, data := Look(adc, strTs, hist);
    LookIs(hist, strTs);
    sent := Respond(GetWord(msg, 5), GetWord(msg, 9), strTs, found, data, LogMap(hist), GetSecond(msg));
  }

  lemma LookIs(hist: seq<Log.Entry>, ts: word)
    requires Log.Chronological(hist)
    ensures Has(hist, ts) <==> ts in LogMap(hist)
    ensures Has(hist, ts) ==> LogMap(hist)[ts] == DataOf(hist, ts)
  {
    hide LogMap;
    LogMapMeans(hist);
    if Has(hist, ts) {
      var i :| 0 <= i < |hist| && hist[i].ts == ts;
      DataIs(hist, i);
    }
  }

  /** What the lookup returned for the second. */
  ghost predicate Returned(log: SecondLog, ts: word, found: bool, data: seq<byte>) {
    |data| == Res.SECOND_SIZE && (found <==> ts in log) && (found ==> data == log[ts])
  }

  /** Its buffer and its loop. */
  method Respond(total: word, curr: word, strTs: word, found: bool, data: seq<byte>, ghost log: SecondLog,
                 ghost s: Second)
      returns (sent: seq<seq<byte>>)
    requires s.total == total && s.curr == curr && s.strTs == strTs && Returned(log, strTs, found, data)
    ensures sent == Frames(Answers(s, log))
  {
    hide Res.Frame, Res.Prepared, Res.PreparedMissing, AnswerTo;
    ghost var all := Frames(Answers(s, log));
    var currIndex: word := curr;
    Counting(curr, 0);
    var buf := Res.Prepare(total);
    if !found {
      buf := StoreDate(buf, total, strTs);
    }
    assert Ready(buf, total, strTs, log);
    hide *;
    sent := [];
    var num := 0;
    while num < 20
      invariant num <= 20 && sent == all[..num] && currIndex == (curr + num) % U32
      invariant Ready(buf, total, strTs, log)
    {
      buf := Fill(buf, total, currIndex, strTs, found, data, log, num);
      FrameAt(s, log, num);
      OneMore(all, num);
      sent := sent + [buf];
      Counting(curr, num);
      currIndex := (currIndex + 1) % U32;
      num := num + 1;
    }
    assert all[..20] == all;
  }

  lemma FrameAt(s: Second, log: SecondLog, num: nat)
    requires num < 20
    ensures Frames(Answers(s, log))[num] == AnswerFrame(s.total, (s.curr + num) % U32, s.strTs, log, num)
  {
    hide Res.Frame, AnswerTo;
  }

  lemma OneMore<T>(all: seq<T>, k: nat)
    requires k < |all|
    ensures all[..k] + [all[k]] == all[..k + 1]
  {
  }

  ghost predicate Ready(buf: seq<byte>, total: word, ts: word, log: SecondLog) {
    Res.Prepared(buf, total) && (ts !in log ==> Res.PreparedMissing(buf, total, Res.BcdBytes(ts)))
  }

  /** The date of a missing second is stored once. */
  method StoreDate(was: seq<byte>, total: word, ts: word) returns (buf: seq<byte>)
    requires Res.Prepared(was, total) && Stands(was, 27, Zeros(804))
    ensures Res.PreparedMissing(buf, total, Res.BcdBytes(ts))
  {
    var time := Calendar.TimestampToDatetime(ts);
    var date := Res.BytesOf(Calendar.BcdTime(time));
    buf := Splice(was, 13, date);
    StandsHere(was, 13, date);
    StandsElsewhere(was, 0, Res.Head(total), 13, date);
    StandsElsewhere(was, 27, Zeros(804), 13, date);
    StandsElsewhere(was, 831, Zeros(15), 13, date);
  }

  /** One response in the buffer of the one before. */
  method Fill(was: seq<byte>, total: word, curr: word, ts: word, found: bool, data: seq<byte>, ghost log: SecondLog,
              num: nat)
      returns (buf: seq<byte>)
    requires Ready(was, total, ts, log) && num < 20 && Returned(log, ts, found, data)
    ensures Ready(buf, total, ts, log)
    ensures buf == AnswerFrame(total, curr, ts, log, num)
  {
    if found {
      buf := Res.FillFound(was, total, curr, data, num);
    } else {
      buf := Res.FillMissing(was, total, curr, ts, num);
    }
  }

  /** What the message at `at` makes the message task send, as far as internal requests are concerned. */
  function Handled(mem: seq<byte>, at: nat, log: SecondLog): (r: seq<Res.Response>)
    requires Room(mem, at)
    ensures forall k :: 0 <= k < |r| ==> Res.WellFormed(r[k])
  {
    if Check(mem, at) == Accepted(SAMPLE_DATA_INREQ) then Answers(GetSecond(mem[at..at + SLOT_SIZE]), log) else []
  }

  /** One turn of `msg_proc_task`. */
  method ProcessOne(mem: seq<byte>, at: nat, adc: Log.AdcObject, ghost hist: seq<Log.Entry>)
      returns (sent: seq<seq<byte>>)
    requires Room(mem, at) && adc.Valid() && Log.Holds(adc.Value(), adc.card.mem, hist)
    modifies adc.tables
    ensures sent == Frames(Handled(mem, at, LogMap(hist)))
  {
    hide Answers, LogMap, Log.Placed, Log.TableStands, Log.DataStands, Log.IndexStands, Log.Sane;
    sent := [];
    var verdict := CheckMessage(mem, at);
    if verdict == Accepted(SAMPLE_DATA_INREQ) {
      sent := SampleDataIn(mem[at..at + SLOT_SIZE], adc, hist);
    }
  }

  /** Its header and checksum test. */
  method CheckMessage(mem: seq<byte>, at: nat) returns (verdict: Verdict)
    requires Room(mem, at)
    ensures verdict == Check(mem, at)
  {
    verdict := Ignored;
    var len: int := GetHigh(mem, at + 2);
    var checkCrc := CheckSum8(mem[at..at + (len - 2) % 0x1_0000]);
    if FRAME_HEAD == GetHigh(mem, at) && checkCrc == GetHigh(mem, at + len - 2) {
      verdict := Accepted(mem[at + 4]);
    }
  }

  /** The circumstances in which a relayed message is answered: memory with the message in it, and the log. */
  datatype Turn = Turn(mem: seq<byte>, log: SecondLog)

  const PLACE := 2

  ghost predicate TurnsFor(turns: seq<Turn>, msgs: seq<Slot>)
  {
    && |turns| == |msgs|
    && forall j :: 0 <= j < |msgs| ==> Room(turns[j].mem, PLACE) && Stands(turns[j].mem, PLACE, msgs[j])
  }

  ghost function HandledAll(turns: seq<Turn>, msgs: seq<Slot>): (r: seq<Res.Response>)
    requires TurnsFor(turns, msgs)
    ensures forall k :: 0 <= k < |r| ==> Res.WellFormed(r[k])
  {
    if msgs == [] then []
    else
      var k := |msgs| - 1;
      HandledAll(turns[..k], msgs[..k]) + Handled(turns[k].mem, PLACE, turns[k].log)
  }

  // ----- every interleaving of the two tasks -----

  /** Seconds still to be enqueued by the request's handler, the queue, and what has been relayed. */
  datatype Relay = Relay(todo: seq<Second>, queue: seq<Slot>, relayed: seq<Slot>)

  datatype Step = Put | Take

  /** One `enQueue` or `deQueue` with the mutex granted; a full queue drops the message. */
  function Next(r: Relay, s: Step): Relay
  {
    match s
    case Put =>
      if r.todo == [] then r
      else if |r.queue| < SLOTS - 1 then Relay(r.todo[1..], r.queue + [Padded(Frame(r.todo[0]))], r.relayed)
      else Relay(r.todo[1..], r.queue, r.relayed)
    case Take =>
      if r.queue == [] then r else Relay(r.todo, r.queue[1..], r.relayed + [r.queue[0]])
  }

  function Requested(strTs: word, n: nat): (p: seq<Second>)
    requires n <= 60
    ensures |p| == n
  {
    seq(n, i requires 0 <= i < n => Part(strTs, n, i))
  }

  function Run(strTs: word, n: nat, steps: seq<Step>): Relay
    requires n <= 60
  {
    if steps == [] then Relay(Requested(strTs, n), [], [])
    else Next(Run(strTs, n, steps[..|steps| - 1]), steps[|steps| - 1])
  }

  /** The first frames, in order, none lost and none twice; the rest still to come. */
  ghost predicate InOrder(strTs: word, n: nat, r: Relay)
    requires n <= 60
  {
    var all := Requested(strTs, n);
    var passed := r.relayed + r.queue;
    && |passed| <= n && r.todo == all[|passed|..]
    && forall j :: 0 <= j < |passed| ==> passed[j] == Padded(Frame(all[j]))
  }

  /** In every interleaving of the handler and the relaying task: at most 60 messages are on their way,
      so none meets a full queue. */
  lemma {:induction false} AlwaysInOrder(strTs: word, n: nat, steps: seq<Step>)
    requires n <= 60
    ensures InOrder(strTs, n, Run(strTs, n, steps))
  {
    if steps != [] {
      AlwaysInOrder(strTs, n, steps[..|steps| - 1]);
      NextInOrder(strTs, n, Run(strTs, n, steps[..|steps| - 1]), steps[|steps| - 1]);
    }
  }

  lemma NextInOrder(strTs: word, n: nat, r: Relay, s: Step)
    requires n <= 60 && InOrder(strTs, n, r)
    ensures InOrder(strTs, n, Next(r, s))
  {
    var q := Next(r, s);
    var was, now := r.relayed + r.queue, q.relayed + q.queue;
    match s
    case Put =>
      if r.todo != [] {
        assert now == was + [Padded(Frame(r.todo[0]))];
      }
    case Take =>
      assert now == was;
  }

  /** Every step moves one message: a turn of the handler enqueues the next frame, a turn of the relaying task
      relays the oldest; and with nothing to do, none. */
  lemma StepMoves(strTs: word, n: nat, steps: seq<Step>)
    requires n <= 60
    ensures var r := Run(strTs, n, steps);
            var put, take := Run(strTs, n, steps + [Put]), Run(strTs, n, steps + [Take]);
            && (r.todo != [] ==> put == Relay(r.todo[1..], r.queue + [Padded(Frame(r.todo[0]))], r.relayed))
            && (r.todo == [] ==> put == r)
            && (r.queue != [] ==> take == Relay(r.todo, r.queue[1..], r.relayed + r.queue[..1]))
            && (r.queue == [] ==> take == r)
  {
    AlwaysInOrder(strTs, n, steps);
    assert (steps + [Put])[..|steps|] == steps && (steps + [Take])[..|steps|] == steps;
  }

  /** The `n` turns of a handler that nobody interrupts. */
  function Puts(n: nat): seq<Step> { seq(n, _ => Put) }

  /** An uninterrupted request leaves in an empty queue exactly its frames, and this is what `SampleData` does. */
  lemma {:induction false} PutsAreRun(strTs: word, n: nat, k: nat, granted: nat -> bool)
    requires k <= n <= 60 && forall i: nat :: granted(i)
    ensures var r := Run(strTs, n, Puts(k));
            && r.queue == PutAll([], Parts(strTs, n)[..k], granted) && r.relayed == []
            && r.todo == Requested(strTs, n)[k..] && |r.queue| == k
    ensures forall i :: 0 <= i < k ==> Run(strTs, n, Puts(k)).queue[i] == Padded(Frame(Part(strTs, n, i)))
  {
    hide Frame, Padded, Run, Part;
    if k == 0 {
      NoPuts(strTs, n);
    } else {
      PutsAreRun(strTs, n, k - 1, granted);
      assert Puts(k) == Puts(k - 1) + [Put];
      StepMoves(strTs, n, Puts(k - 1));
      OneMoreFrame(strTs, n, k - 1, granted);
    }
  }

  lemma NoPuts(strTs: word, n: nat)
    requires n <= 60
    ensures Run(strTs, n, Puts(0)) == Relay(Requested(strTs, n), [], [])
  {
  }

  lemma OneMoreFrame(strTs: word, n: nat, k: nat, granted: nat -> bool)
    requires k < n <= 60 && granted(k)
    ensures Requested(strTs, n)[k..][0] == Part(strTs, n, k)
    ensures Requested(strTs, n)[k..][1..] == Requested(strTs, n)[k + 1..]
    ensures var q := PutAll([], Parts(strTs, n)[..k], granted);
            |q| == k ==> PutAll([], Parts(strTs, n)[..k + 1], granted) == q + [Padded(Frame(Part(strTs, n, k)))]
  {
    hide Frame, Padded, Part;
    assert Parts(strTs, n)[..k + 1][..k] == Parts(strTs, n)[..k];
  }

  /** Frames that are not granted the mutex, or meet 61 messages, are lost; the others keep their order. */
  lemma {:induction false} PutAllMeans(q: seq<seq<byte>>, frames: seq<seq<byte>>, granted: nat -> bool)
    requires forall k :: 0 <= k < |frames| ==> |frames[k]| <= SLOT_SIZE
    ensures q <= PutAll(q, frames, granted)
    ensures (forall k :: 0 <= k < |frames| ==> !granted(k)) || |q| >= 61 ==> PutAll(q, frames, granted) == q
    ensures (forall k :: 0 <= k < |frames| ==> granted(k)) && |q| + |frames| <= 61 ==>
              && |PutAll(q, frames, granted)| == |q| + |frames|
              && forall k :: 0 <= k < |frames| ==> PutAll(q, frames, granted)[|q| + k] == Padded(frames[k])
    decreases |frames|
  {
    hide Padded;
    if frames != [] {
      PutAllMeans(q, frames[..|frames| - 1], granted);
    }
  }

  /** The `k`-th response of a request that starts at `strTs`: 20 to a second, numbered from 0. */
  ghost predicate IsResponse(r: Res.Response, strTs: word, n: nat, k: nat, turns: seq<Turn>)
    requires k < 20 * |turns| && |turns| <= n <= 60
  {
    r == AnswerTo(20 * n, k, (strTs + k / 20) % U32, turns[k / 20].log, k % 20)
  }

  lemma Numbers(i: nat, num: nat)
    requires i < 60 && num < 20
    ensures (20 * i + num) / 20 == i && (20 * i + num) % 20 == num && (20 * i + num) % U32 == 20 * i + num
  {
  }

  lemma Numbered(strTs: word, n: nat, i: nat, num: nat, turns: seq<Turn>)
    requires i < |turns| <= n <= 60 && num < 20
    ensures IsResponse(Answer(Part(strTs, n, i), turns[i].log, num), strTs, n, 20 * i + num, turns)
  {
    hide AnswerTo;
    Numbers(i, num);
    assert Part(strTs, n, i) == Second(20 * n, 20 * i, (strTs + i) % U32, (strTs + i) % U32);
  }

  ghost predicate Numbering(sent: seq<Res.Response>, strTs: word, n: nat, turns: seq<Turn>)
    requires |sent| <= 20 * |turns| && |turns| <= n <= 60
  {
    forall k :: 0 <= k < |sent| ==> IsResponse(sent[k], strTs, n, k, turns)
  }

  lemma EarlierTurn(r: Res.Response, strTs: word, n: nat, k: nat, turns: seq<Turn>, i: nat)
    requires i <= |turns| <= n <= 60 && k < 20 * i && IsResponse(r, strTs, n, k, turns[..i])
    ensures IsResponse(r, strTs, n, k, turns)
  {
    hide AnswerTo;
    assert k / 20 < i;
    assert turns[..i][k / 20] == turns[k / 20];
  }

  lemma OneSecondMore(sent: seq<Res.Response>, strTs: word, n: nat, turns: seq<Turn>)
    requires 0 < |turns| <= n <= 60 && |sent| == 20 * (|turns| - 1)
    requires Numbering(sent, strTs, n, turns[..|turns| - 1])
    ensures var i := |turns| - 1; Numbering(sent + Answers(Part(strTs, n, i), turns[i].log), strTs, n, turns)
  {
    hide AnswerTo, IsResponse;
    var i := |turns| - 1;
    var more := Answers(Part(strTs, n, i), turns[i].log);
    forall k | 0 <= k < 20 * i ensures IsResponse(sent[k], strTs, n, k, turns) {
      EarlierTurn(sent[k], strTs, n, k, turns, i);
    }
    forall num | 0 <= num < 20 ensures IsResponse(more[num], strTs, n, 20 * i + num, turns) {
      Numbered(strTs, n, i, num, turns);
    }
    JoinNumbering(sent, more, strTs, n, turns);
  }

  lemma JoinNumbering(sent: seq<Res.Response>, more: seq<Res.Response>, strTs: word, n: nat, turns: seq<Turn>)
    requires |sent| + |more| <= 20 * |turns| && |turns| <= n <= 60
    requires forall k :: 0 <= k < |sent| ==> IsResponse(sent[k], strTs, n, k, turns)
    requires forall k :: 0 <= k < |more| ==> IsResponse(more[k], strTs, n, |sent| + k, turns)
    ensures Numbering(sent + more, strTs, n, turns)
  {
    hide IsResponse;
    var all := sent + more;
    forall k | 0 <= k < |all| ensures IsResponse(all[k], strTs, n, k, turns) {
      if k >= |sent| {
        assert all[k] == more[k - |sent|];
      }
    }
  }

  lemma {:induction false} AnswersInOrder(strTs: word, n: nat, turns: seq<Turn>, msgs: seq<Slot>)
    requires TurnsFor(turns, msgs) && |msgs| <= n <= 60
    requires forall j :: 0 <= j < |msgs| ==> msgs[j] == Padded(Frame(Part(strTs, n, j)))
    ensures |HandledAll(turns, msgs)| == 20 * |msgs|
    ensures Numbering(HandledAll(turns, msgs), strTs, n, turns)
  {
    hide Check, Frame, Padded, GetSecond, AnswerTo, IsResponse;
    if msgs != [] {
      var i := |msgs| - 1;
      AnswersInOrder(strTs, n, turns[..i], msgs[..i]);
      FrameAccepted(Part(strTs, n, i), turns[i].mem, PLACE);
      OneSecondMore(HandledAll(turns[..i], msgs[..i]), strTs, n, turns);
    }
  }

  /** A request for n seconds is answered, whatever the interleaving, by responses 0, 1, 2, … in order, each
      once, all with total 20n; once everything has been relayed they are all there. */
  lemma RequestAnswered(strTs: word, endTs: word, steps: seq<Step>, turns: seq<Turn>)
    requires TurnsFor(turns, Run(strTs, Seconds(strTs, endTs), steps).relayed)
    ensures var n := Seconds(strTs, endTs); var r := Run(strTs, n, steps); var sent := HandledAll(turns, r.relayed);
            && |r.queue| < SLOTS - 1
            && |sent| == 20 * |r.relayed| <= 20 * n
            && Numbering(sent, strTs, n, turns)
            && (r.todo == [] && r.queue == [] ==> |sent| == 20 * n)
  {
    var n := Seconds(strTs, endTs);
    var r := Run(strTs, n, steps);
    AlwaysInOrder(strTs, n, steps);
    var passed := r.relayed + r.queue;
    forall j | 0 <= j < |r.relayed| ensures r.relayed[j] == Padded(Frame(Part(strTs, n, j))) {
      assert passed[j] == Padded(Frame(Requested(strTs, n)[j]));
    }
    AnswersInOrder(strTs, n, turns, r.relayed);
  }

  /** The readings of responses, one response after the other. */
  function AllReadings(sent: seq<Res.Response>): seq<Res.Reading> {
    if sent == [] then [] else AllReadings(sent[..|sent| - 1]) + sent[|sent| - 1].data
  }

  /** The 20 responses for a stored second carry the four readings of all 1000 items, each once and in order,
      and every response the date, stamp and temperature of its first item. */
  lemma AnswersCarryReadings(s: Second, log: SecondLog)
    requires s.strTs in log
    ensures AllReadings(Answers(s, log)) == Res.Readings(log[s.strTs], 0, Res.ITEMS)
    ensures forall num :: 0 <= num < 20 ==>
              var r := Answers(s, log)[num]; var b := log[s.strTs];
              && r.time == Res.TimeOf(b, 50 * num) && r.stamp == Res.StampOf(b, 50 * num)
              && r.temp == Res.TempOf(b, 50 * num)
  {
    Shares(s, log, 20);
    assert Answers(s, log)[..20] == Answers(s, log);
  }

  lemma {:induction false} Shares(s: Second, log: SecondLog, k: nat)
    requires s.strTs in log && k <= 20
    ensures AllReadings(Answers(s, log)[..k]) == Res.Readings(log[s.strTs], 0, 50 * k)
  {
    if k > 0 {
      Shares(s, log, k - 1);
      assert Answers(s, log)[..k][..k - 1] == Answers(s, log)[..k - 1];
      JoinReadings(log[s.strTs], 50 * (k - 1), 50);
    }
  }

  lemma JoinReadings(b: Res.SecondData, from: nat, n: nat)
    requires from + n <= Res.ITEMS
    ensures Res.Readings(b, 0, from) + Res.Readings(b, from, n) == Res.Readings(b, 0, from + n)
  {
  }

  /** The same for the log that holds `hist`: for every entry the readings of its bytes; for a second
      without an entry the answer says so. */
  lemma LogAnswers(s: Second, hist: seq<Log.Entry>)
    requires Log.Chronological(hist)
    ensures forall i :: 0 <= i < |hist| && hist[i].ts == s.strTs ==>
              AllReadings(Answers(s, LogMap(hist))) == Res.Readings(hist[i].data, 0, Res.ITEMS)
    ensures !Has(hist, s.strTs) ==> forall num :: 0 <= num < 20 ==>
              Answers(s, LogMap(hist))[num] == Res.Missing(s.total, (s.curr + num) % U32, s.strTs, num)
  {
    hide LogMap, Res.Readings, AllReadings, Res.Found, Res.Missing;
    LogMapMeans(hist);
    if s.strTs in LogMap(hist) {
      AnswersCarryReadings(s, LogMap(hist));
    }
  }

  /** Every turn looks into a log that has grown from `hist`. */
  ghost predicate Grown(turns: seq<Turn>, hists: seq<seq<Log.Entry>>, hist: seq<Log.Entry>)
  {
    && |hists| == |turns|
    && forall j :: 0 <= j < |turns| ==>
         hist <= hists[j] && Log.Chronological(hists[j]) && turns[j].log == LogMap(hists[j])
  }

  /** Response `k` of a request is share `k % 20` of these bytes. */
  ghost predicate Carries(r: Res.Response, total: nat, k: nat, data: seq<byte>)
  {
    && total < U32 && k < U32 && |data| == Res.SECOND_SIZE
    && r == Res.Found(total, k, data, k % 20)
  }

  /** A request over seconds the log held beforehand: whatever the interleaving and however the log grows
      meanwhile, response k carries the items of share k mod 20 of second k div 20, from that entry's bytes. */
  lemma RequestCarriesHistory(strTs: word, endTs: word, steps: seq<Step>, turns: seq<Turn>,
                              hists: seq<seq<Log.Entry>>, hist: seq<Log.Entry>)
    requires TurnsFor(turns, Run(strTs, Seconds(strTs, endTs), steps).relayed) && Grown(turns, hists, hist)
    ensures var n := Seconds(strTs, endTs);
            var sent := HandledAll(turns, Run(strTs, n, steps).relayed);
            forall k, i :: 0 <= k < |sent| && 0 <= i < |hist| && hist[i].ts == (strTs + k / 20) % U32 ==>
              Carries(sent[k], 20 * n, k, hist[i].data)
  {
    hide Run, HandledAll, LogMap, Res.Found, Res.Missing, InOrder;
    var n := Seconds(strTs, endTs);
    var sent := HandledAll(turns, Run(strTs, n, steps).relayed);
    RequestAnswered(strTs, endTs, steps, turns);
    forall k, i | 0 <= k < |sent| && 0 <= i < |hist| && hist[i].ts == (strTs + k / 20) % U32
      ensures Carries(sent[k], 20 * n, k, hist[i].data)
    {
      assert IsResponse(sent[k], strTs, n, k, turns);
      var later := hists[k / 20];
      LogMapMeans(later);
      assert later[i] == hist[i];
    }
  }

  /** The same told by items: a second that was stored as 1000 packed items is answered by frames that carry,
      share by share, the four values of each item, and date, stamp and temperature of the first. */
  lemma RequestCarriesItems(strTs: word, endTs: word, steps: seq<Step>, turns: seq<Turn>, hists: seq<seq<Log.Entry>>,
                            hist: seq<Log.Entry>, k: nat, i: nat, items: seq<Res.AdcItem>)
    requires TurnsFor(turns, Run(strTs, Seconds(strTs, endTs), steps).relayed) && Grown(turns, hists, hist)
    requires k < |HandledAll(turns, Run(strTs, Seconds(strTs, endTs), steps).relayed)|
    requires i < |hist| && hist[i].ts == (strTs + k / 20) % U32
    requires |items| == 1000 && Res.AreItems(items) && hist[i].data == Res.ItemsBytes(items)
    ensures var r := HandledAll(turns, Run(strTs, Seconds(strTs, endTs), steps).relayed)[k];
            && r.total == 20 * Seconds(strTs, endTs) && r.curr == k && Res.CarriesItems(r, items, k % 20)
            && Res.FrameCarries(Res.Frame(r), items, k % 20)
  {
    hide Run, HandledAll, LogMap, Res.Frame, Res.CarriesItems, Res.FrameCarries, Res.ItemsBytes, Res.Readings;
    RequestCarriesHistory(strTs, endTs, steps, turns, hists, hist);
    var n := Seconds(strTs, endTs);
    var r := HandledAll(turns, Run(strTs, n, steps).relayed)[k];
    assert Carries(r, 20 * n, k, hist[i].data);
    Res.FoundCarriesItems(20 * n, k, items, k % 20);
    Res.FrameCarriesItems(r, items, k % 20);
  }
}
