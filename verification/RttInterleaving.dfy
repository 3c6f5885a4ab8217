/** The up-channel of SEGGER RTT as a step system: one writer (the target) and one reader (the
    host, or `SEGGER_RTT_ReadUpBufferNoLock` standing in for it) share a ring without a lock.
    Each side loads the other side's offset once, copies byte by byte while that copy goes
    stale, and only then publishes its own offset.  Every interleaving of these steps is a run. */
module RttInterleaving {
  import opened Bytes
  import opened RingIndex

  datatype Mode = Skip | Trim | Block

  /** Where the writer is inside `SEGGER_RTT_WriteNoLock`. */
  datatype Writer =
    | WIdle
    | WCheck(data: seq<byte>, mode: Mode)                       // about to load rdOff
    | WCopy(data: seq<byte>, mode: Mode, seenRd: nat, n: nat, k: nat)  // k of n bytes stored

  /** Where the reader is inside `SEGGER_RTT_ReadUpBufferNoLock`. */
  datatype Reader =
    | RIdle
    | RCopy(seenWr: nat, room: nat, got: seq<byte>)

  /** The shared ring, both program counters, and the observable history:
      `accepted`  the bytes write calls have taken on,
      `published` the bytes covered by a stored wrOff,
      `delivered` the bytes handed to the reader's caller. */
  datatype State = State(buf: seq<byte>, rdOff: nat, wrOff: nat, w: Writer, r: Reader,
                         accepted: seq<byte>, published: seq<byte>, delivered: seq<byte>)

  datatype Event =
    | WriteCall(data: seq<byte>, mode: Mode)
    | LoadRdOff
    | StoreByte
    | PublishWrOff
    | ReadCall(room: nat)
    | FetchByte
    | PublishRdOff


  // ----- the arithmetic of the source -----

  /** `_GetAvailWriteSpace` on a loaded rdOff. */
  function Avail(rd: nat, wr: nat, n: nat): nat
    requires rd < n && wr < n
  {
    if rd <= wr then n - 1 - wr + rd else rd - wr - 1
  }

  /** The chunk of one `_WriteBlocking` round. */
  function BlockChunk(rd: nat, wr: nat, n: nat, left: nat): nat
    requires rd < n && wr < n
  {
    var free := if rd > wr then rd - wr - 1 else n - (wr - rd + 1);
    Min(Min(free, n - wr), left)
  }

  /** Destination of byte `k` of a chunk: `_WriteNoCheck` splits at the end of the ring,
      a `_WriteBlocking` chunk never reaches past it. */
  function Dst(mode: Mode, wr: nat, n: nat, chunk: nat, k: nat): int
    requires wr < n
  {
    if mode.Block? || n - wr > chunk || k < n - wr then wr + k else k - (n - wr)
  }

  /** The wrOff published after the chunk. */
  function NewWrOff(mode: Mode, wr: nat, n: nat, chunk: nat): int
    requires wr < n
  {
    if mode.Block? then (if wr + chunk == n then 0 else wr + chunk)
    else if n - wr > chunk then wr + chunk else chunk - (n - wr)
  }

  /** First and second copy length of one read call, with the unsigned `wrOff - rdOff`. */
  function Chunks(rd: nat, wr: nat, n: nat, room: nat): (nat, nat)
    requires rd < n && wr < n && n < U32
  {
    if rd > wr then
      var n1 := Min(n - rd, room);
      var rd1 := if rd + n1 == n then 0 else rd + n1;
      (n1, Min(Sub32(wr, rd1), room - n1))
    else (0, Min(Sub32(wr, rd), room))
  }

  function Src(rd: nat, n: nat, n1: nat, j: nat): int
  {
    if j < n1 then rd + j
    else (if rd + n1 == n then 0 else rd + n1) + (j - n1)
  }

  function NewRdOff(rd: nat, n: nat, n1: nat, n2: nat): int
  {
    (if rd + n1 == n then 0 else rd + n1) + n2
  }

  // ----- steps -----

  ghost predicate WellSized(s: State)
  {
    && 0 < |s.buf| < U32 && s.rdOff < |s.buf| && s.wrOff < |s.buf|
    && (s.w.WCopy? ==> WriterInBounds(s.w, s.wrOff, |s.buf|))
    && (s.r.RCopy? ==> ReaderInBounds(s.r, s.rdOff, |s.buf|))
  }

  ghost predicate WriterInBounds(w: Writer, wr: nat, n: nat)
    requires w.WCopy? && wr < n
  {
    && w.seenRd < n && w.n <= |w.data| && 0 <= NewWrOff(w.mode, wr, n, w.n)
    && forall k :: 0 <= k < w.n ==> 0 <= Dst(w.mode, wr, n, w.n, k) < n
  }

  ghost predicate ReaderInBounds(r: Reader, rd: nat, n: nat)
    requires r.RCopy? && rd < n && n < U32
  {
    && r.seenWr < n
    && var (n1, n2) := Chunks(rd, r.seenWr, n, r.room);
       forall j :: 0 <= j < n1 + n2 ==> 0 <= Src(rd, n, n1, j) < n
  }

  ghost predicate Enabled(s: State, e: Event)
  {
    WellSized(s) &&
    match e
    case WriteCall(_, _) => s.w.WIdle?
    case LoadRdOff => s.w.WCheck?
    case StoreByte => s.w.WCopy? && s.w.k < s.w.n
    case PublishWrOff => s.w.WCopy? && s.w.k == s.w.n
    case ReadCall(_) => s.r.RIdle?
    case FetchByte => s.r.RCopy? && |s.r.got| < Total(s)
    case PublishRdOff => s.r.RCopy? && |s.r.got| == Total(s)
  }

  ghost function Total(s: State): nat
    requires WellSized(s) && s.r.RCopy?
  {
    var c := Chunks(s.rdOff, s.r.seenWr, |s.buf|, s.r.room);
    c.0 + c.1
  }

  ghost function Apply(s: State, e: Event): State
    requires Enabled(s, e)
  {
    var n := |s.buf|;
    match e
    case WriteCall(data, mode) =>
      s.(w := WCheck(data, mode), accepted := if mode.Block? then s.accepted + data else s.accepted)
    case LoadRdOff =>
      var free := Avail(s.rdOff, s.wrOff, n);
      (match s.w.mode
       case Block =>
         s.(w := WCopy(s.w.data, Block, s.rdOff, BlockChunk(s.rdOff, s.wrOff, n, |s.w.data|), 0))
       case Skip =>
         if free < |s.w.data| then s.(w := WIdle)
         else s.(w := WCopy(s.w.data, Skip, s.rdOff, |s.w.data|, 0), accepted := s.accepted + s.w.data)
       case Trim =>
         var m := Min(free, |s.w.data|);
         s.(w := WCopy(s.w.data, Trim, s.rdOff, m, 0), accepted := s.accepted + s.w.data[..m]))
    case StoreByte =>
      s.(buf := s.buf[Dst(s.w.mode, s.wrOff, n, s.w.n, s.w.k) := s.w.data[s.w.k]], w := s.w.(k := s.w.k + 1))
    case PublishWrOff =>
      s.(wrOff := NewWrOff(s.w.mode, s.wrOff, n, s.w.n),
         published := s.published + s.w.data[..s.w.n],
         w := if s.w.mode.Block? && s.w.n < |s.w.data| then WCheck(s.w.data[s.w.n..], Block) else WIdle)
    case ReadCall(room) =>
      s.(r := RCopy(s.wrOff, room, []))
    case FetchByte =>
      var (n1, _) := Chunks(s.rdOff, s.r.seenWr, n, s.r.room);
      s.(r := s.r.(got := s.r.got + [s.buf[Src(s.rdOff, n, n1, |s.r.got|)]]))
    case PublishRdOff =>
      var (n1, n2) := Chunks(s.rdOff, s.r.seenWr, n, s.r.room);
      s.(rdOff := if n1 + n2 > 0 then NewRdOff(s.rdOff, n, n1, n2) else s.rdOff,
         delivered := s.delivered + s.r.got, r := RIdle)
  }

  ghost predicate Initial(s: State)
  {
    0 < |s.buf| < U32 && s.rdOff == 0 && s.wrOff == 0 && s.w.WIdle? && s.r.RIdle? &&
    s.accepted == [] && s.published == [] && s.delivered == []
  }

  /** A run from the initialised control block: state i+1 comes from state i by event i. */
  ghost predicate IsRun(states: seq<State>, events: seq<Event>)
  {
    |states| == |events| + 1 && Initial(states[0]) &&
    forall i :: 0 <= i < |events| ==> Enabled(states[i], events[i]) && states[i + 1] == Apply(states[i], events[i])
  }

  // ----- the source's arithmetic is ring arithmetic -----

  lemma AvailIsFree(rd: nat, wr: nat, n: nat)
    requires rd < n && wr < n
    ensures Avail(rd, wr, n) == n - 1 - Dist(rd, wr, n)
  {
  }

  lemma ReadChunks(rd: nat, wr: nat, n: nat, room: nat)
    requires rd < n && wr < n && n < U32
    ensures var (n1, n2) := Chunks(rd, wr, n, room);
            && n1 + n2 == Min(room, Dist(rd, wr, n))
            && (n1 + n2 > 0 ==> NewRdOff(rd, n, n1, n2) == At(rd, n1 + n2, n))
            && forall j :: 0 <= j < n1 + n2 ==> Src(rd, n, n1, j) == At(rd, j, n)
  {
  }

  // ----- invariant -----

  function Ring(s: State): seq<byte>
    requires s.rdOff < |s.buf| && s.wrOff < |s.buf|
  {
    Queue(s.buf, s.rdOff, s.wrOff)
  }

  /** Bytes taken on by the current call and not yet published. */
  function Pending(w: Writer): seq<byte>
  {
    match w
    case WIdle => []
    case WCheck(data, mode) => if mode.Block? then data else []
    case WCopy(data, mode, _, n, _) => if mode.Block? then data else data[..Min(n, |data|)]
  }

  ghost predicate WriterOk(s: State)
    requires s.rdOff < |s.buf| && s.wrOff < |s.buf|
  {
    s.w.WCopy? ==>
      var n := |s.buf|;
      && s.w.seenRd < n
      // the loaded rdOff is stale in one direction only: it can hide free space, never invent it
      && Dist(s.rdOff, s.wrOff, n) <= Dist(s.w.seenRd, s.wrOff, n)
      && Dist(s.w.seenRd, s.wrOff, n) + s.w.n < n
      && s.w.k <= s.w.n <= |s.w.data|
      && (s.w.mode.Block? ==> s.wrOff + s.w.n <= n)
      && Window(s.buf, s.wrOff, s.w.k) == s.w.data[..s.w.k]
  }

  ghost predicate ReaderOk(s: State)
    requires s.rdOff < |s.buf| && s.wrOff < |s.buf|
  {
    s.r.RCopy? ==>
      && s.r.seenWr < |s.buf|
      && Dist(s.rdOff, s.r.seenWr, |s.buf|) <= Dist(s.rdOff, s.wrOff, |s.buf|)
      && |s.r.got| <= Min(s.r.room, Dist(s.rdOff, s.r.seenWr, |s.buf|))
      && s.r.got == Ring(s)[..|s.r.got|]
  }

  ghost predicate Inv(s: State)
  {
    && 0 < |s.buf| < U32 && s.rdOff < |s.buf| && s.wrOff < |s.buf|
    && s.delivered + Ring(s) == s.published
    && s.published + Pending(s.w) == s.accepted
    && WriterOk(s) && ReaderOk(s)
  }

  /** Every byte in [rdOff, wrOff) keeps its value from `s` to `t`. */
  ghost predicate LiveBytesKept(s: State, t: State)
    requires s.rdOff < |s.buf| && s.wrOff < |s.buf|
  {
    |t.buf| == |s.buf| &&
    forall j :: 0 <= j < Dist(s.rdOff, s.wrOff, |s.buf|) ==>
      t.buf[At(s.rdOff, j, |s.buf|)] == s.buf[At(s.rdOff, j, |s.buf|)]
  }

  lemma StepLoadRdOff(s: State)
    requires Inv(s) && Enabled(s, LoadRdOff)
    ensures Inv(Apply(s, LoadRdOff))
  {
    AvailIsFree(s.rdOff, s.wrOff, |s.buf|);
    var t := Apply(s, LoadRdOff);
    if t.w.WCopy? && !t.w.mode.Block? {
      assert t.accepted == s.published + t.w.data[..t.w.n];
    }
  }

  lemma StepStoreByte(s: State)
    requires Inv(s) && Enabled(s, StoreByte)
    ensures Inv(Apply(s, StoreByte)) && LiveBytesKept(s, Apply(s, StoreByte))
  {
    var t := Apply(s, StoreByte);
    var n := |s.buf|;
    assert Dst(s.w.mode, s.wrOff, n, s.w.n, s.w.k) == At(s.wrOff, s.w.k, n);
    assert Ring(t) == Ring(s);
    assert Window(t.buf, t.wrOff, t.w.k) == t.w.data[..t.w.k];
  }

  /** Publishing appends the chunk to the ring. */
  lemma PublishedRing(s: State)
    requires Inv(s) && Enabled(s, PublishWrOff)
    ensures var t := Apply(s, PublishWrOff);
            t.wrOff == At(s.wrOff, s.w.n, |s.buf|) < |s.buf| && Ring(t) == Ring(s) + s.w.data[..s.w.n]
  {
    var t := Apply(s, PublishWrOff);
    assert t.wrOff == At(s.wrOff, s.w.n, |s.buf|);
    QueueAfterWrite(s.buf, s.buf, s.rdOff, s.wrOff, s.w.data[..s.w.n]);
  }

  /** What the call has taken on moves from pending to published. */
  lemma PublishedBytes(s: State)
    requires Inv(s) && Enabled(s, PublishWrOff)
    ensures var t := Apply(s, PublishWrOff); t.published + Pending(t.w) == t.accepted
  {
    hide Queue, Window, Dst, NewWrOff, WellSized, WriterInBounds, ReaderInBounds;
    var t := Apply(s, PublishWrOff);
    var chunk := s.w.data[..s.w.n];
    assert s.w.data == chunk + s.w.data[s.w.n..];
    assert chunk + Pending(t.w) == Pending(s.w);
    assert s.published + chunk + Pending(t.w) == s.published + (chunk + Pending(t.w));
  }

  lemma LongerRing(s: State, t: State, chunk: seq<byte>)
    requires s.rdOff < |s.buf| && s.wrOff < |s.buf| && t.wrOff < |t.buf|
    requires t.buf == s.buf && t.rdOff == s.rdOff && t.r == s.r && Ring(t) == Ring(s) + chunk && ReaderOk(s)
    ensures ReaderOk(t)
  {
    hide Chunks;
    if s.r.RCopy? {
      assert |Ring(t)| == |Ring(s)| + |chunk|;
      assert Ring(t)[..|s.r.got|] == Ring(s)[..|s.r.got|];
    }
  }

  lemma StepPublishWrOff(s: State)
    requires Inv(s) && Enabled(s, PublishWrOff)
    ensures Inv(Apply(s, PublishWrOff))
  {
    hide Queue, Window, Ring, Pending, Dst, NewWrOff, WellSized, WriterInBounds, ReaderInBounds, ReaderOk;
    var t := Apply(s, PublishWrOff);
    var chunk := s.w.data[..s.w.n];
    PublishedRing(s);
    PublishedBytes(s);
    LongerRing(s, t, chunk);
    assert s.delivered + (Ring(s) + chunk) == s.delivered + Ring(s) + chunk;
  }

  lemma StepFetchByte(s: State)
    requires Inv(s) && Enabled(s, FetchByte)
    ensures Inv(Apply(s, FetchByte))
  {
    ReadChunks(s.rdOff, s.r.seenWr, |s.buf|, s.r.room);
    var t := Apply(s, FetchByte);
    assert t.r.got == Ring(t)[..|t.r.got|];
  }

  lemma DropFront(delivered: seq<byte>, got: seq<byte>, ring: seq<byte>, rest: seq<byte>)
    requires |got| <= |ring| && ring[..|got|] == got && ring[|got|..] == rest
    ensures delivered + got + rest == delivered + ring
  {
    assert got + rest == ring;
  }

  lemma StepPublishRdOff(s: State)
    requires Inv(s) && Enabled(s, PublishRdOff)
    ensures Inv(Apply(s, PublishRdOff))
  {
    ReadChunks(s.rdOff, s.r.seenWr, |s.buf|, s.r.room);
    var t := Apply(s, PublishRdOff);
    var m := |s.r.got|;
    assert t.rdOff == At(s.rdOff, m, |s.buf|);
    QueueAfterRead(s.buf, s.rdOff, s.wrOff, m);
    DropFront(s.delivered, s.r.got, Ring(s), Ring(t));
  }

  lemma StepKeeps(s: State, e: Event)
    requires Inv(s) && Enabled(s, e)
    ensures Inv(Apply(s, e)) && LiveBytesKept(s, Apply(s, e))
  {
    match e
    case WriteCall(data, mode) => assert s.published + [] == s.published; 
    case LoadRdOff => StepLoadRdOff(s);
    case StoreByte => StepStoreByte(s);
    case PublishWrOff => StepPublishWrOff(s);
    case ReadCall(_) =>
    case FetchByte => StepFetchByte(s);
    case PublishRdOff => StepPublishRdOff(s);
  }

  lemma {:induction false} RunInv(states: seq<State>, events: seq<Event>, i: nat)
    requires IsRun(states, events) && i < |states|
    ensures Inv(states[i])
  {
    if i > 0 {
      RunInv(states, events, i - 1);
      StepKeeps(states[i - 1], events[i - 1]);
    }
  }

  /** Main result.  In every interleaving the delivered bytes followed by the ring's content are
      exactly the published bytes, and these are the accepted ones except for what the running
      call still holds; the ring never overfills; and no step overwrites a byte that is still
      waiting for the reader. */
  lemma NoByteLostOrOverwritten(states: seq<State>, events: seq<Event>)
    requires IsRun(states, events)
    ensures forall i :: 0 <= i < |states| ==>
              && Inv(states[i])
              && states[i].delivered + Ring(states[i]) == states[i].published
              && states[i].published + Pending(states[i].w) == states[i].accepted
              && |Ring(states[i])| <= |states[i].buf| - 1
    ensures forall i :: 0 <= i < |events| ==> LiveBytesKept(states[i], states[i + 1])
  {
    forall i | 0 <= i < |states| ensures Inv(states[i]) { RunInv(states, events, i); }
    forall i | 0 <= i < |events| ensures LiveBytesKept(states[i], states[i + 1]) {
      StepKeeps(states[i], events[i]);
    }
  }

  /** The side condition of a step never blocks a run: from a reachable state each side always has
      a step of its own, so nothing but the other side's choice of pace is waited for. */
  lemma NeitherSideWaits(states: seq<State>, events: seq<Event>, i: nat, data: seq<byte>, mode: Mode, room: nat)
    requires IsRun(states, events) && i < |states|
    ensures var s := states[i];
            && (Enabled(s, WriteCall(data, mode)) || Enabled(s, LoadRdOff) || Enabled(s, StoreByte)
                || Enabled(s, PublishWrOff))
            && (Enabled(s, ReadCall(room)) || Enabled(s, FetchByte) || Enabled(s, PublishRdOff))
  {
    RunInv(states, events, i);
    var s := states[i];
    if s.r.RCopy? { ReadChunks(s.rdOff, s.r.seenWr, |s.buf|, s.r.room); }
  }

  /** A ring of one byte never takes any: a blocking write of one byte or more stays in its loop. */
  lemma {:induction false} OneByteRing(states: seq<State>, events: seq<Event>, i: nat)
    requires IsRun(states, events) && i < |states| && |states[0].buf| == 1
    ensures |states[i].buf| == 1 && states[i].published == []
  {
    if i > 0 {
      OneByteRing(states, events, i - 1);
      RunInv(states, events, i - 1);
      assert Enabled(states[i - 1], events[i - 1]) && states[i - 1 + 1] == Apply(states[i - 1], events[i - 1]);
    }
  }

  lemma BlockedForever(states: seq<State>, events: seq<Event>, i: nat, j: nat, data: seq<byte>)
    requires IsRun(states, events) && i <= j < |states| && |states[0].buf| == 1
    requires data != [] && states[i].w == WCheck(data, Block)
    ensures !states[j].w.WIdle?
    decreases j
  {
    OneByteRing(states, events, j);
    RunInv(states, events, j);
    AcceptedGrows(states, events, i, j);
    RunInv(states, events, i);
  }

  lemma {:induction false} AcceptedGrows(states: seq<State>, events: seq<Event>, i: nat, j: nat)
    requires IsRun(states, events) && i <= j < |states|
    ensures |states[i].accepted| <= |states[j].accepted|
  {
    if i < j {
      AcceptedGrows(states, events, i, j - 1);
      assert Enabled(states[j - 1], events[j - 1]) && states[j - 1 + 1] == Apply(states[j - 1], events[j - 1]);
    }
  }

  // ----- what a call does -----

  /** A write call begins with event `c` and has returned in state `j`. */
  ghost predicate IsWriteCall(states: seq<State>, events: seq<Event>, c: nat, j: nat, data: seq<byte>, mode: Mode)
  {
    && IsRun(states, events) && c < j < |states| && events[c] == WriteCall(data, mode)
    && states[j].w.WIdle? && forall i :: c < i < j ==> !states[i].w.WIdle?
  }

  /** Until it loads rdOff, the call has done nothing. */
  ghost predicate Waiting(s: State, t: State, data: seq<byte>, mode: Mode) {
    s.w == WCheck(data, mode) && s.published == t.published
  }

  /** While it copies `n` bytes, nothing is published. */
  ghost predicate Copying(s: State, published: seq<byte>, data: seq<byte>, mode: Mode, n: nat) {
    s.w.WCopy? && s.w.data == data && s.w.mode == mode && s.w.n == n && s.published == published
  }

  lemma StepOf(states: seq<State>, events: seq<Event>, i: nat)
    requires IsRun(states, events) && i < |events|
    ensures Enabled(states[i], events[i]) && states[i + 1] == Apply(states[i], events[i]) && Inv(states[i])
  {
    RunInv(states, events, i);
  }

  lemma CallStep(s: State, data: seq<byte>, mode: Mode)
    requires Enabled(s, WriteCall(data, mode))
    ensures Waiting(Apply(s, WriteCall(data, mode)), s, data, mode)
  {
  }

  /** The reader's steps, and the writer's own before its load. */
  lemma WaitingStep(s: State, e: Event, t: State, data: seq<byte>, mode: Mode)
    requires Enabled(s, e) && Waiting(s, t, data, mode)
    ensures e.LoadRdOff? || Waiting(Apply(s, e), t, data, mode)
  {
  }

  lemma CopyingStep(s: State, e: Event, published: seq<byte>, data: seq<byte>, mode: Mode, n: nat)
    requires Enabled(s, e) && Copying(s, published, data, mode, n) && n <= |data|
    ensures if e.PublishWrOff? then
              && Apply(s, e).published == published + data[..n]
              && Apply(s, e).w == (if mode.Block? && n < |data| then WCheck(data[n..], Block) else WIdle)
            else Copying(Apply(s, e), published, data, mode, n)
  {
  }

  /** What a bounded FIFO with the ring's content holds after a non-blocking write. */
  function FifoWrite(s: State, data: seq<byte>, mode: Mode): seq<byte>
    requires s.rdOff < |s.buf| && s.wrOff < |s.buf|
  {
    var cap := |s.buf| - 1;
    if mode.Skip? then FifoSkip(Ring(s), cap, data) else FifoTrim(Ring(s), cap, data)
  }

  /** The load that decides: what it takes on is stated by the ring's content at that moment. */
  lemma LoadTakes(s: State, data: seq<byte>, mode: Mode)
    requires Inv(s) && Enabled(s, LoadRdOff) && s.w == WCheck(data, mode) && !mode.Block?
    ensures var t := Apply(s, LoadRdOff);
            if t.w.WIdle? then t.published == s.published == s.delivered + FifoWrite(s, data, mode)
            else
              && t.w.WCopy? && t.w.n <= |data| && Copying(t, s.published, data, mode, t.w.n)
              && s.published + data[..t.w.n] == s.delivered + FifoWrite(s, data, mode)
  {
    AvailIsFree(s.rdOff, s.wrOff, |s.buf|);
    var t := Apply(s, LoadRdOff);
    if t.w.WCopy? {
      assert s.delivered + (Ring(s) + data[..t.w.n]) == s.published + data[..t.w.n];
      assert data[..|data|] == data;
    }
  }

  lemma {:induction false} WaitsUntilLoad(states: seq<State>, events: seq<Event>, c: nat, j: nat, data: seq<byte>,
                                          mode: Mode, i: nat)
    requires IsWriteCall(states, events, c, j, data, mode) && c < i <= j
    requires forall l :: c < l < i ==> !events[l].LoadRdOff?
    ensures Waiting(states[i], states[c], data, mode)
  {
    hide Inv, Apply, Enabled;
    StepOf(states, events, i - 1);
    if i - 1 == c {
      CallStep(states[c], data, mode);
    } else {
      WaitsUntilLoad(states, events, c, j, data, mode, i - 1);
      WaitingStep(states[i - 1], events[i - 1], states[c], data, mode);
    }
  }

  /** Every call loads rdOff. */
  lemma {:induction false} CallLoads(states: seq<State>, events: seq<Event>, c: nat, j: nat, data: seq<byte>,
                                     mode: Mode, i: nat) returns (l: nat)
    requires IsWriteCall(states, events, c, j, data, mode) && c < i <= j
    requires forall l :: c < l < i ==> !events[l].LoadRdOff?
    ensures i <= l < j && events[l].LoadRdOff? && forall l' :: c < l' < l ==> !events[l'].LoadRdOff?
    decreases j - i
  {
    WaitsUntilLoad(states, events, c, j, data, mode, i);
    if events[i].LoadRdOff? {
      l := i;
    } else {
      l := CallLoads(states, events, c, j, data, mode, i + 1);
    }
  }

  lemma {:induction false} CopiesUntilReturn(states: seq<State>, events: seq<Event>, c: nat, j: nat, data: seq<byte>,
                                             mode: Mode, l: nat, i: nat, n: nat)
    requires IsWriteCall(states, events, c, j, data, mode) && !mode.Block? && c < l < i <= j && n <= |data|
    requires Copying(states[l + 1], states[l].published, data, mode, n)
    ensures if i == j then states[i].published == states[l].published + data[..n]
            else Copying(states[i], states[l].published, data, mode, n)
  {
    hide Inv, Apply, Enabled;
    if i > l + 1 {
      CopiesUntilReturn(states, events, c, j, data, mode, l, i - 1, n);
      StepOf(states, events, i - 1);
      CopyingStep(states[i - 1], events[i - 1], states[l].published, data, mode, n);
    }
  }

  /** The second main result: in every interleaving a non-blocking write is the bounded FIFO's write on the
      content the ring has when the call loads rdOff.  Skip mode publishes all of the data if it fits then
      and nothing otherwise, trim mode the longest prefix that fits. */
  lemma CallIsFifoWrite(states: seq<State>, events: seq<Event>, c: nat, j: nat, data: seq<byte>, mode: Mode)
      returns (l: nat)
    requires IsWriteCall(states, events, c, j, data, mode) && !mode.Block?
    ensures c < l < j && events[l].LoadRdOff? && states[l].published == states[c].published
    ensures Inv(states[l])
    ensures states[j].published == states[l].delivered + FifoWrite(states[l], data, mode)
  {
    hide Apply, Enabled, FifoWrite, Inv;
    l := CallLoads(states, events, c, j, data, mode, c + 1);
    WaitsUntilLoad(states, events, c, j, data, mode, l);
    LoadDecides(states, events, c, j, data, mode, l);
  }

  lemma LoadDecides(states: seq<State>, events: seq<Event>, c: nat, j: nat, data: seq<byte>, mode: Mode, l: nat)
    requires IsWriteCall(states, events, c, j, data, mode) && !mode.Block? && c < l < j && events[l].LoadRdOff?
    requires Waiting(states[l], states[c], data, mode)
    ensures Inv(states[l]) && states[l].published == states[c].published
    ensures states[j].published == states[l].delivered + FifoWrite(states[l], data, mode)
  {
    hide Apply, Enabled, FifoWrite, WriterOk, ReaderOk, Ring, Pending, Queue;
    StepOf(states, events, l);
    LoadTakes(states[l], data, mode);
    var t := states[l + 1];
    if t.w.WIdle? {
      assert j == l + 1;
    } else {
      CopiesUntilReturn(states, events, c, j, data, mode, l, j, t.w.n);
    }
  }

  /** A blocking round takes on the longest part that fits and does not reach around the end, so it is
      empty only while the ring is full. */
  lemma BlockingLoad(s: State, data: seq<byte>)
    requires Inv(s) && Enabled(s, LoadRdOff) && s.w == WCheck(data, Block)
    ensures var t := Apply(s, LoadRdOff); var free := |s.buf| - 1 - |Ring(s)|;
            && t.w.WCopy? && Copying(t, s.published, data, Block, t.w.n)
            && t.w.n == Min(Min(free, |s.buf| - s.wrOff), |data|)
            && (data != [] ==> (t.w.n > 0 <==> free > 0))
  {
  }

  /** A blocking call is under way. */
  ghost predicate Blocking(s: State, accepted: seq<byte>) {
    s.accepted == accepted && (s.w.WCheck? || s.w.WCopy?) && s.w.mode.Block?
  }

  lemma BlockingStep(s: State, e: Event, accepted: seq<byte>)
    requires Enabled(s, e) && Blocking(s, accepted)
    ensures var t := Apply(s, e); if t.w.WIdle? then t.accepted == accepted else Blocking(t, accepted)
  {
  }

  lemma BlockingStart(s: State, data: seq<byte>)
    requires Enabled(s, WriteCall(data, Block))
    ensures Blocking(Apply(s, WriteCall(data, Block)), s.accepted + data)
  {
  }

  lemma {:induction false} BlocksUntilReturn(states: seq<State>, events: seq<Event>, c: nat, j: nat, data: seq<byte>,
                                             i: nat)
    requires IsWriteCall(states, events, c, j, data, Block) && c < i <= j
    ensures if i == j then states[i].accepted == states[c].accepted + data
            else Blocking(states[i], states[c].accepted + data)
  {
    hide Inv, Apply, Enabled;
    StepOf(states, events, i - 1);
    if i - 1 == c {
      BlockingStart(states[c], data);
    } else {
      BlocksUntilReturn(states, events, c, j, data, i - 1);
      BlockingStep(states[i - 1], events[i - 1], states[c].accepted + data);
    }
  }

  /** A blocking write that returns has published all of its data. */
  lemma BlockingCallWrites(states: seq<State>, events: seq<Event>, c: nat, j: nat, data: seq<byte>)
    requires IsWriteCall(states, events, c, j, data, Block)
    ensures states[j].published == states[c].published + data
  {
    BlocksUntilReturn(states, events, c, j, data, j);
    StepOf(states, events, c);
    RunInv(states, events, j);
    Settled(states[c]);
    Settled(states[j]);
  }

  lemma Settled(s: State)
    requires Inv(s) && s.w.WIdle?
    ensures s.published == s.accepted
  {
    assert s.published + [] == s.published;
  }

  /** Steps the writer still has to make. */
  function StepsLeft(w: Writer): nat {
    match w
    case WIdle => 0
    case WCheck(data, _) => |data| + 2
    case WCopy(_, _, _, n, k) => if k <= n then n - k + 1 else 0
  }

  /** A non-blocking call returns after at most |data| + 2 steps of its own, whatever the reader does. */
  lemma EachStepCounts(s: State, e: Event)
    requires Inv(s) && Enabled(s, e) && !s.w.WIdle? && !s.w.mode.Block?
    ensures if e.LoadRdOff? || e.StoreByte? || e.PublishWrOff? then StepsLeft(Apply(s, e).w) < StepsLeft(s.w)
            else Apply(s, e).w == s.w
  {
  }

  /** Steps the reader still has to make. */
  ghost function ReadsLeft(s: State): int
    requires WellSized(s)
  {
    if s.r.RIdle? then 0 else Total(s) - |s.r.got| + 1
  }

  /** A read call returns after at most min(room, Size - 1) + 1 steps of its own. */
  lemma EachReadCounts(s: State, e: Event)
    requires Inv(s) && Enabled(s, e) && !s.r.RIdle?
    ensures WellSized(Apply(s, e)) && 0 < ReadsLeft(s) <= Min(s.r.room, |s.buf| - 1) + 1
    ensures if e.FetchByte? || e.PublishRdOff? then ReadsLeft(Apply(s, e)) < ReadsLeft(s)
            else ReadsLeft(Apply(s, e)) == ReadsLeft(s)
  {
    ReadBound(s);
    StepKeeps(s, e);
    InvIsWellSized(Apply(s, e));
    hide Inv, LiveBytesKept, WriterInBounds, ReaderInBounds, Dst, NewWrOff, Chunks, Avail, BlockChunk;
  }

  lemma ReadBound(s: State)
    requires Inv(s) && WellSized(s) && !s.r.RIdle?
    ensures 0 < ReadsLeft(s) <= Min(s.r.room, |s.buf| - 1) + 1
  {
    ReadChunks(s.rdOff, s.r.seenWr, |s.buf|, s.r.room);
  }

  lemma InvIsWellSized(s: State)
    requires Inv(s)
    ensures WellSized(s)
  {
    if s.r.RCopy? { ReadChunks(s.rdOff, s.r.seenWr, |s.buf|, s.r.room); }
  }

  /** A read call begins with event `c` and has returned in state `j`. */
  ghost predicate IsReadCall(states: seq<State>, events: seq<Event>, c: nat, j: nat, room: nat)
  {
    && IsRun(states, events) && c < j < |states| && events[c] == ReadCall(room)
    && states[j].r.RIdle? && forall i :: c < i < j ==> !states[i].r.RIdle?
  }

  /** The reader since its load in state `t`. */
  ghost predicate Reading(s: State, t: State, room: nat) {
    && s.r.RCopy? && s.r.seenWr == t.wrOff && s.r.room == room && |s.buf| == |t.buf| && s.rdOff == t.rdOff
    && s.delivered == t.delivered && t.published <= s.published
  }

  lemma ReadingStart(s: State, room: nat)
    requires Inv(s) && Enabled(s, ReadCall(room))
    ensures Reading(Apply(s, ReadCall(room)), s, room)
  {
  }

  lemma ReadingStep(s: State, e: Event, t: State, room: nat)
    requires Inv(s) && Inv(t) && Enabled(s, e) && Reading(s, t, room)
    ensures if e.PublishRdOff? then
              && Apply(s, e).delivered == t.delivered + Ring(t)[..Min(room, |Ring(t)|)]
              && Apply(s, e).r.RIdle?
            else Reading(Apply(s, e), t, room)
  {
    if e.PublishRdOff? {
      ReadChunks(s.rdOff, s.r.seenWr, |s.buf|, s.r.room);
      LongerContent(t.delivered, Ring(t), Ring(s));
      assert Ring(s)[..|s.r.got|] == Ring(t)[..|s.r.got|];
    }
  }

  lemma LongerContent(delivered: seq<byte>, q: seq<byte>, q': seq<byte>)
    requires delivered + q <= delivered + q'
    ensures q <= q'
  {
    assert (delivered + q)[|delivered|..] == q && (delivered + q')[|delivered|..] == q';
  }

  lemma {:induction false} ReadsUntilReturn(states: seq<State>, events: seq<Event>, c: nat, j: nat, room: nat, i: nat)
    requires IsReadCall(states, events, c, j, room) && c < i <= j
    ensures Inv(states[c])
    ensures if i == j
            then states[i].delivered == states[c].delivered + Ring(states[c])[..Min(room, |Ring(states[c])|)]
            else Reading(states[i], states[c], room)
  {
    hide Inv, Apply, Enabled;
    StepOf(states, events, c);
    StepOf(states, events, i - 1);
    if i - 1 == c {
      ReadingStart(states[c], room);
    } else {
      ReadsUntilReturn(states, events, c, j, room, i - 1);
      ReadingStep(states[i - 1], events[i - 1], states[c], room);
    }
  }

  /** The third main result: in every interleaving a read call delivers exactly the first min(room, used)
      bytes of the ring's content at its start. */
  lemma CallIsFifoRead(states: seq<State>, events: seq<Event>, c: nat, j: nat, room: nat)
    requires IsReadCall(states, events, c, j, room)
    ensures Inv(states[c])
    ensures states[j].delivered == states[c].delivered + Ring(states[c])[..Min(room, |Ring(states[c])|)]
  {
    ReadsUntilReturn(states, events, c, j, room, j);
  }
}
