/** The save protocol driving the alarm store: what an alarm's record holds after any run. */
module AlarmRecord {
  import opened Bytes
  import opened NorFlash
  import opened Records
  import opened AlarmProtocol
  import opened LogLookup
  import Log = SampleLog
  import Store = AlarmStore

  /** The storage calls of a run, replayed on an object that was just cleared. */
  ghost function Replayed(mem: seq<byte>, acts: seq<Act>): (r: (Store.Store, seq<byte>))
    requires |mem| == CHIP
    ensures |r.1| == CHIP
  {
    if acts == [] then (Store.Restarted(0), mem)
    else
      var (s, m) := Replayed(mem, acts[..|acts| - 1]);
      match acts[|acts| - 1]
      case WriteMsg(ts, msg) =>
        if s.addr + |msg| <= CHIP && s.infoAddr < U32
        then (Store.MsgStore(s, ts), Programmed(m, s.addr, msg)) else (s, m)
      case WriteInfo(ts, _, data, last) =>
        if ts == s.item.ts && s.infoAddr + |data| <= CHIP && s.indexAddr + Store.ENTRY <= CHIP
        then (Store.InfoStore(s, |data|, last), Store.InfoMem(s, m, data, last)) else (s, m)
      case _ => (s, m)
  }

  ghost predicate Sized(acts: seq<Act>)
  {
    forall a :: a in acts ==> (a.WriteMsg? ==> |a.msg| == Store.MSG) && (a.WriteInfo? ==> |a.data| == SECOND)
  }

  /** The alarms of a run: one per message, its record the data of the seconds saved for it. */
  ghost function Alarms(acts: seq<Act>): (r: (seq<Store.Alarm>, Store.Pending))
  {
    if acts == [] then ([], Store.Nothing)
    else
      var (hist, pend) := Alarms(acts[..|acts| - 1]);
      match acts[|acts| - 1]
      case WriteMsg(ts, msg) => (hist, Store.Collecting(ts, msg, []))
      case WriteInfo(_, _, data, last) =>
        if !pend.Collecting? then (hist, pend)
        else if last then (hist + [Store.Alarm(pend.ts, pend.msg, pend.info + data)], Store.Nothing)
        else (hist, pend.(info := pend.info + data))
      case _ => (hist, pend)
  }

  /** At most 640 alarms with different timestamps since the erase. */
  ghost predicate WithinErase(acts: seq<Act>)
  {
    && |Messages(acts)| <= Store.TOTAL
    && forall i, j :: 0 <= i < j < |Messages(acts)| ==> Messages(acts)[i] != Messages(acts)[j]
  }

  ghost function Messages(acts: seq<Act>): seq<word>
  {
    if acts == [] then []
    else
      var before, a := Messages(acts[..|acts| - 1]), acts[|acts| - 1];
      if a.WriteMsg? then before + [a.ts] else before
  }

  /** The pending record against the phase of the protocol. */
  ghost predicate Agrees(acts: seq<Act>, hist: seq<Store.Alarm>, pend: Store.Pending)
  {
    AgreesWith(Progress(acts).0, Progress(acts).1, Messages(acts), hist, pend)
  }

  ghost predicate AgreesWith(p: Phase, t: word, msgs: seq<word>, hist: seq<Store.Alarm>, pend: Store.Pending)
  {
    && p != Broken
    && (pend.Collecting? <==> p.Saving? && p.k < SECONDS)
    && (pend.Collecting? ==> pend.ts == t && |pend.info| == SECOND * p.k)
    && |msgs| == |hist| + (if pend.Collecting? then 1 else 0)
    && (forall i :: 0 <= i < |hist| ==> msgs[i] == hist[i].ts)
    && (pend.Collecting? ==> msgs[|hist|] == pend.ts)
  }

  lemma Shorter(acts: seq<Act>)
    requires acts != [] && Progress(acts).0 != Broken && WithinErase(acts) && Sized(acts)
    ensures var before := acts[..|acts| - 1];
            Progress(before).0 != Broken && WithinErase(before) && Sized(before)
  {
    var before := acts[..|acts| - 1];
    assert Messages(before) <= Messages(acts);
    assert forall i :: 0 <= i < |Messages(before)| ==> Messages(before)[i] == Messages(acts)[i];
  }

  /** Main result: on an erased chip every orderly run leaves exactly its alarms on the chip, each
      with the bytes of its three seconds in order. */
  lemma {:induction false} RunRecorded(mem: seq<byte>, acts: seq<Act>)
    requires |mem| == CHIP && Erased(mem, 0, CHIP)
    requires Progress(acts).0 != Broken && WithinErase(acts) && Sized(acts)
    ensures var (s, m) := Replayed(mem, acts); var (hist, pend) := Alarms(acts);
            Store.Recorded(s, m, hist, pend) && Agrees(acts, hist, pend)
  {
    if acts == [] {
      Store.ClearRecorded(Store.Restarted(0), mem);
    } else {
      var before, a := acts[..|acts| - 1], acts[|acts| - 1];
      Shorter(acts);
      RunRecorded(mem, before);
      var (s, m) := Replayed(mem, before);
      var (hist, pend) := Alarms(before);
      assert a in acts;
      match a
      case Raise(_) =>
      case EndSave =>
      case WriteMsg(ts, msg) => MessageStep(acts, s, m, hist, pend, ts, msg);
      case WriteInfo(ts, second, data, last) => InfoStep(acts, s, m, hist, pend, data, last);
    }
  }

  lemma MessageStep(acts: seq<Act>, s: Store.Store, m: seq<byte>, hist: seq<Store.Alarm>,
                    pend: Store.Pending, ts: word, msg: seq<byte>)
    requires acts != [] && acts[|acts| - 1] == WriteMsg(ts, msg) && |msg| == Store.MSG
    requires Progress(acts).0 != Broken && WithinErase(acts)
    requires Store.Recorded(s, m, hist, pend) && Agrees(acts[..|acts| - 1], hist, pend)
    ensures s.addr + |msg| <= CHIP && s.infoAddr < U32
    ensures var pend' := Store.Collecting(ts, msg, []);
            Store.Recorded(Store.MsgStore(s, ts), Programmed(m, s.addr, msg), hist, pend') && Agrees(acts, hist, pend')
  {
    var before := acts[..|acts| - 1];
    assert Messages(acts) == Messages(before) + [ts];
    forall i | 0 <= i < |hist| ensures hist[i].ts != ts {
      assert Messages(acts)[i] == hist[i].ts && Messages(acts)[|hist|] == ts;
    }
    Store.MsgRecorded(s, m, hist, ts, msg);
  }

  lemma InfoStep(acts: seq<Act>, s: Store.Store, m: seq<byte>, hist: seq<Store.Alarm>, pend: Store.Pending,
                 data: seq<byte>, last: bool)
    requires acts != [] && acts[|acts| - 1].WriteInfo? && acts[|acts| - 1].data == data && acts[|acts| - 1].last == last
    requires |data| == SECOND && Progress(acts).0 != Broken
    requires Store.Recorded(s, m, hist, pend) && Agrees(acts[..|acts| - 1], hist, pend)
    ensures pend.Collecting? && acts[|acts| - 1].ts == s.item.ts
    ensures s.infoAddr + |data| <= CHIP && s.indexAddr + Store.ENTRY <= CHIP
    ensures var (hist', pend') :=
              if last then (hist + [Store.Alarm(pend.ts, pend.msg, pend.info + data)], Store.Nothing)
              else (hist, pend.(info := pend.info + data));
            Store.Recorded(Store.InfoStore(s, |data|, last), Store.InfoMem(s, m, data, last), hist', pend')
            && Agrees(acts, hist', pend')
  {
    InfoAgrees(acts, hist, pend, data, last);
    if last {
      Store.LastInfoRecorded(s, m, hist, pend, data);
    } else {
      Store.InfoRecorded(s, m, hist, pend, data);
    }
  }

  lemma InfoAgrees(acts: seq<Act>, hist: seq<Store.Alarm>, pend: Store.Pending, data: seq<byte>, last: bool)
    requires acts != [] && acts[|acts| - 1].WriteInfo? && acts[|acts| - 1].data == data && acts[|acts| - 1].last == last
    requires |data| == SECOND && Progress(acts).0 != Broken && Agrees(acts[..|acts| - 1], hist, pend)
    ensures pend.Collecting? && acts[|acts| - 1].ts == pend.ts
    ensures if last then |pend.info| + SECOND == Store.INFO else |pend.info| + SECOND < Store.INFO
    ensures if last then Agrees(acts, hist + [Store.Alarm(pend.ts, pend.msg, pend.info + data)], Store.Nothing)
            else Agrees(acts, hist, pend.(info := pend.info + data))
  {
    InfoProgress(acts);
    var (p, t) := Progress(acts[..|acts| - 1]);
    OnePartMore(p, t, Messages(acts), hist, pend, data);
  }

  lemma OnePartMore(p: Phase, t: word, msgs: seq<word>, hist: seq<Store.Alarm>, pend: Store.Pending, data: seq<byte>)
    requires AgreesWith(p, t, msgs, hist, pend) && p.Saving? && p.k < SECONDS && |data| == SECOND
    ensures pend.Collecting? && pend.ts == t
    ensures if p.k == SECONDS - 1
            then |pend.info| + SECOND == Store.INFO
                 && AgreesWith(Saving(p.k + 1), t, msgs,
                               hist + [Store.Alarm(pend.ts, pend.msg, pend.info + data)], Store.Nothing)
            else |pend.info| + SECOND < Store.INFO
                 && AgreesWith(Saving(p.k + 1), t, msgs, hist, pend.(info := pend.info + data))
  {
    assert |pend.info + data| == SECOND * (p.k + 1);
  }

  /** What a part that the protocol accepts does to it. */
  lemma InfoProgress(acts: seq<Act>)
    requires acts != [] && acts[|acts| - 1].WriteInfo? && Progress(acts).0 != Broken
    ensures var before, a := acts[..|acts| - 1], acts[|acts| - 1];
            var (p, t) := Progress(before);
            && p.Saving? && p.k < SECONDS && a.ts == t && a.last == (p.k == SECONDS - 1)
            && Progress(acts) == (Saving(p.k + 1), t) && Messages(acts) == Messages(before)
  {
  }

  /** The data of every saved second is what the sample log returned for it. */
  ghost predicate Truthful(log: word -> seq<byte>, acts: seq<Act>)
  {
    forall a :: a in acts && a.WriteInfo? ==> a.data == log(a.second)
  }

  /** The bytes of the first `k` seconds from t - 1 on. */
  ghost function FirstSeconds(log: word -> seq<byte>, t: word, k: nat): seq<byte> {
    if k == 0 then [] else FirstSeconds(log, t, k - 1) + log(Add32(Sub32(t, 1), k - 1))
  }

  /** Every complete record holds the seconds before, at and after the alarm, in this order. */
  lemma {:induction false} ThreeSeconds(log: word -> seq<byte>, acts: seq<Act>)
    requires Progress(acts).0 != Broken && Truthful(log, acts)
    ensures var (hist, pend) := Alarms(acts); var (p, t) := Progress(acts);
            && (pend.Collecting? <==> p.Saving? && p.k < SECONDS)
            && (pend.Collecting? ==> pend.ts == t && pend.info == FirstSeconds(log, t, p.k))
            && forall i :: 0 <= i < |hist| ==> hist[i].info == FirstSeconds(log, hist[i].ts, SECONDS)
  {
    if acts != [] {
      var before := acts[..|acts| - 1];
      ThreeSeconds(log, before);
      assert acts[|acts| - 1] in acts;
    }
  }

  lemma SecondsSpelledOut(log: word -> seq<byte>, t: word)
    ensures FirstSeconds(log, t, SECONDS) == log(Sub32(t, 1)) + log(t) + log(Add32(t, 1))
  {
    NextSeconds(t);
    assert FirstSeconds(log, t, 1) == [] + log(Sub32(t, 1)) == log(Sub32(t, 1));
    assert FirstSeconds(log, t, 2) == log(Sub32(t, 1)) + log(t);
    assert FirstSeconds(log, t, 3) == FirstSeconds(log, t, 2) + log(Add32(t, 1));
  }

  lemma NextSeconds(t: word)
    ensures Add32(Sub32(t, 1), 0) == Sub32(t, 1) && Add32(Sub32(t, 1), 1) == t && Add32(Sub32(t, 1), 2) == Add32(t, 1)
  {
  }

  // ----- alarms and the sample log together -----

  /** The alarm side and the log side. */
  datatype System = System(alarm: World, log: Log.World)

  datatype Move = AlarmMove(e: Event) | LogMove(ev: Log.Event)

  /** The alarm task's answers are those of the log at that moment; the log stores seconds and saves its
      position. */
  ghost predicate CanMove(s: System, m: Move)
  {
    match m
    case AlarmMove(e) => CanHappen(s.alarm, e) && Drained(s.alarm, e) && Answered(s.log.hist, s.alarm, e)
    case LogMove(ev) => (ev.Second? || ev.SaveConfig?) && Log.CanHappen(s.log, ev)
  }

  ghost predicate Answered(hist: seq<Log.Entry>, w: World, e: Event)
    requires CanHappen(w, e)
  {
    e.Task? ==>
      && |e.msg| == Store.MSG
      && (w.n.queue[0].kind == SAVE ==>
            (e.found <==> Has(hist, w.n.queue[0].ts)) && (e.found ==> e.data == DataOf(hist, w.n.queue[0].ts)))
  }

  ghost function Moved(s: System, m: Move): System
    requires CanMove(s, m)
  {
    match m
    case AlarmMove(e) => s.(alarm := After(s.alarm, e))
    case LogMove(ev) => s.(log := Log.After(s.log, ev))
  }

  ghost predicate Moves(s: System, m: Move, s': System) {
    CanMove(s, m) && s' == Moved(s, m)
  }

  ghost predicate IsSystemRun(ss: seq<System>, ms: seq<Move>)
  {
    && |ss| == |ms| + 1 && Start(ss[0].alarm) && Log.FirstStart(ss[0].log)
    && forall i :: 0 <= i < |ms| ==> Moves(ss[i], ms[i], ss[i + 1])
  }

  /** Every part written so far is the log's data for its second. */
  ghost predicate FromLog(hist: seq<Log.Entry>, acts: seq<Act>)
  {
    forall a :: a in acts ==>
      && (a.WriteMsg? ==> |a.msg| == Store.MSG)
      && (a.WriteInfo? ==> Has(hist, a.second) && a.data == DataOf(hist, a.second))
  }

  ghost predicate InTune(s: System) {
    Orderly(s.alarm) && Log.Consistent(s.log) && FromLog(s.log.hist, s.alarm.acts)
  }

  lemma LaterLog(hist: seq<Log.Entry>, e: Log.Entry, acts: seq<Act>)
    requires Log.Chronological(hist + [e]) && Log.Chronological(hist) && FromLog(hist, acts)
    ensures FromLog(hist + [e], acts)
  {
    forall a | a in acts && a.WriteInfo? ensures Has(hist + [e], a.second) && a.data == DataOf(hist + [e], a.second) {
      var i :| 0 <= i < |hist| && hist[i].ts == a.second;
      DataIs(hist, i);
      DataIs(hist + [e], i);
    }
  }

  lemma MoveInTune(s: System, m: Move)
    requires InTune(s) && CanMove(s, m)
    ensures InTune(Moved(s, m))
  {
    match m
    case AlarmMove(e) =>
      EventOrderly(s.alarm, e);
    case LogMove(ev) =>
      Log.EventKeeps(s.log, ev);
      if ev.Second? {
        LaterLog(s.log.hist, ev.e, s.alarm.acts);
      }
  }

  lemma {:induction false} AlwaysInTune(ss: seq<System>, ms: seq<Move>, i: nat)
    requires IsSystemRun(ss, ms) && i < |ss|
    ensures InTune(ss[i])
  {
    if i > 0 {
      AlwaysInTune(ss, ms, i - 1);
      assert Moves(ss[i - 1], ms[i - 1], ss[i - 1 + 1]);
      MoveInTune(ss[i - 1], ms[i - 1]);
    }
  }

  /** The events of either side. */
  ghost function AlarmEvents(ms: seq<Move>): seq<Event> {
    if ms == [] then []
    else
      var before, m := AlarmEvents(ms[..|ms| - 1]), ms[|ms| - 1];
      if m.AlarmMove? then before + [m.e] else before
  }

  ghost function LogEvents(ms: seq<Move>): seq<Log.Event> {
    if ms == [] then []
    else
      var before, m := LogEvents(ms[..|ms| - 1]), ms[|ms| - 1];
      if m.LogMove? then before + [m.ev] else before
  }

  lemma LongerAlarmRun(ws: seq<World>, es: seq<Event>, e: Event, w: World)
    requires IsDrainedRun(ws, es) && Happens(ws[|es|], e, w) && Drained(ws[|es|], e)
    ensures IsDrainedRun(ws + [w], es + [e])
  {
    hide CanHappen, After, Start;
    var ws', es' := ws + [w], es + [e];
    forall i | 0 <= i < |es'| ensures Happens(ws'[i], es'[i], ws'[i + 1]) && Drained(ws'[i], es'[i]) {
      if i < |es| { assert Happens(ws[i], es[i], ws[i + 1]) && Drained(ws[i], es[i]); }
    }
  }

  lemma LongerHistory(ws: seq<Log.World>, evs: seq<Log.Event>, ev: Log.Event, w: Log.World)
    requires Log.History(ws, evs) && Log.Happens(ws[|evs|], ev, w)
    ensures Log.History(ws + [w], evs + [ev])
  {
    hide Log.CanHappen, Log.After, Log.FirstStart;
    var ws', evs' := ws + [w], evs + [ev];
    forall i | 0 <= i < |evs'| ensures Log.Happens(ws'[i], evs'[i], ws'[i + 1]) {
      if i < |evs| { assert Log.Happens(ws[i], evs[i], ws[i + 1]); }
    }
  }

  /** Each side of a system run is a run of its own, of all its events. */
  lemma {:induction false} SidesAreRuns(ss: seq<System>, ms: seq<Move>, i: nat)
      returns (ws: seq<World>, ls: seq<Log.World>)
    requires IsSystemRun(ss, ms) && i < |ss|
    ensures IsDrainedRun(ws, AlarmEvents(ms[..i])) && ws[|ws| - 1] == ss[i].alarm
    ensures Log.History(ls, LogEvents(ms[..i])) && ls[|ls| - 1] == ss[i].log
  {
    if i == 0 {
      ws, ls := [ss[0].alarm], [ss[0].log];
    } else {
      ws, ls := SidesAreRuns(ss, ms, i - 1);
      assert Moves(ss[i - 1], ms[i - 1], ss[i - 1 + 1]);
      assert ms[..i][..i - 1] == ms[..i - 1];
      match ms[i - 1]
      case AlarmMove(e) =>
        LongerAlarmRun(ws, AlarmEvents(ms[..i - 1]), e, ss[i].alarm);
        ws := ws + [ss[i].alarm];
      case LogMove(ev) =>
        LongerHistory(ls, LogEvents(ms[..i - 1]), ev, ss[i].log);
        ls := ls + [ss[i].log];
    }
  }

  /** End to end: sampler, tick, alarm task, sample log and flash.  After any run on an erased chip the
      store is in order, so `Storage_Read_AlarmInfo` answers from `hist`, and every alarm of `hist` carries
      what the log holds for the second before it, its own and the one after. */
  lemma EndToEnd(ss: seq<System>, ms: seq<Move>, i: nat, mem: seq<byte>)
    requires IsSystemRun(ss, ms) && i < |ss| && |mem| == CHIP && Erased(mem, 0, CHIP) && WithinErase(ss[i].alarm.acts)
    ensures var acts, log := ss[i].alarm.acts, ss[i].log.hist;
            var (s, m) := Replayed(mem, acts); var (hist, pend) := Alarms(acts);
            && Store.Recorded(s, m, hist, pend)
            && forall k :: 0 <= k < |hist| ==> ThreeOf(log, hist[k].ts, hist[k].info)
  {
    var acts, log := ss[i].alarm.acts, ss[i].log.hist;
    AlwaysInTune(ss, ms, i);
    var f := (ts: word) => DataOf(log, ts);
    SizedByLog(log, acts);
    RunRecorded(mem, acts);
    ThreeSeconds(f, acts);
    var (hist, pend) := Alarms(acts);
    forall k | 0 <= k < |hist| ensures ThreeOf(log, hist[k].ts, hist[k].info) {
      SecondsSpelledOut(f, hist[k].ts);
      AllFound(log, hist[k].ts, hist[k].info);
    }
  }

  /** `info` is the log's data for the three seconds around `ts`. */
  ghost predicate ThreeOf(log: seq<Log.Entry>, ts: word, info: seq<byte>)
  {
    && Has(log, Sub32(ts, 1)) && Has(log, ts) && Has(log, Add32(ts, 1))
    && info == DataOf(log, Sub32(ts, 1)) + DataOf(log, ts) + DataOf(log, Add32(ts, 1))
  }

  lemma SizedByLog(log: seq<Log.Entry>, acts: seq<Act>)
    requires Log.Chronological(log) && FromLog(log, acts)
    ensures Sized(acts) && Truthful(ts => DataOf(log, ts), acts)
  {
  }

  /** A record of full length misses none of them. */
  lemma AllFound(log: seq<Log.Entry>, ts: word, info: seq<byte>)
    requires Log.Chronological(log) && |info| == 3 * SECOND
    requires info == DataOf(log, Sub32(ts, 1)) + DataOf(log, ts) + DataOf(log, Add32(ts, 1))
    ensures ThreeOf(log, ts, info)
  {
    assert forall t: word :: !Has(log, t) ==> DataOf(log, t) == [];
    assert forall t: word :: |DataOf(log, t)| <= SECOND;
  }
}
