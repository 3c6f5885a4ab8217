/** The whole recorder with power losses at any moment: sampler, tick, alarm task, sample log, alarm store and
    the configuration record both stores restart from. */
module PowerLoss {
  import opened Bytes
  import opened Records
  import opened NorFlash
  import opened AlarmProtocol
  import opened AlarmSlots
  import opened LogLookup
  import Log = SampleLog
  import Store = AlarmStore
  import AlarmRecord

  /** Both tasks, both stores and their devices.  `saved` is the number of alarms in the stored configuration
      record; `log.saved` is the rest of that record.  Three parts only tell the story: `slots`, what the
      chip's slots hold; `reach`, how many had been begun when power last failed; and `ever`, every second
      the log has ever stored. */
  datatype Machine = Machine(alarm: World, log: Log.World, s: Store.Store, mem: seq<byte>, saved: nat,
                             slots: seq<Slot>, reach: nat, ever: seq<Log.Entry>)

  /** A power loss stops the log between two calls or inside a store, and leaves on the flash chip either
      what was there or, inside a write of the alarm task, anything at all in the cells of the open alarm. */
  datatype Move =
    | AlarmMove(e: Event)
    | Second(entry: Log.Entry)
    | SaveConfig
    | Loss(card: Log.Event, flash: seq<byte>)

  function Larger(a: nat, b: nat): nat { if a > b then a else b }

  predicate Open(p: Phase) { p.Saving? && p.k < SECONDS }

  ghost function PhaseOf(m: Machine): Phase { Progress(m.alarm.acts).0 }

  ghost predicate CanMove(m: Machine, v: Move)
  {
    match v
    case AlarmMove(e) =>
      && CanHappen(m.alarm, e) && Drained(m.alarm, e) && AlarmRecord.Answered(m.log.hist, m.alarm, e)
      && (e.Task? && BusAlarm(m.alarm.n.queue[0].kind) ==> m.s.indexNum < Store.TOTAL)
    case Second(entry) => Log.CanHappen(m.log, Log.Second(entry))
    case SaveConfig => true
    case Loss(card, flash) =>
      && (card.PowerCycle? || card.TornSecond?) && Log.CanHappen(m.log, card)
      && (flash == m.mem
          || (m.s.indexNum < Store.TOTAL && (PhaseOf(m) == Raised0 || Open(PhaseOf(m)))
              && Confined(m.mem, flash, m.s.indexNum)))
  }

  ghost function Moved(m: Machine, v: Move): Machine
    requires CanMove(m, v)
  {
    match v
    case AlarmMove(e) =>
      var w := After(m.alarm, e);
      if |w.acts| > |m.alarm.acts| then Written(m, w.acts[|m.alarm.acts|]).(alarm := w) else m.(alarm := w)
    case Second(entry) => m.(log := Log.After(m.log, Log.Second(entry)), ever := m.ever + [entry])
    case SaveConfig => m.(log := Log.After(m.log, Log.SaveConfig), saved := m.s.indexNum)
    case Loss(card, flash) =>
      var slots :=
        if flash == m.mem || m.s.indexNum > |m.slots| then m.slots else Set(m.slots, m.s.indexNum, Spoiled);
      Machine(Fresh(), Log.After(m.log, card), Store.Restarted(m.saved), flash, m.saved, slots, |slots|, m.ever)
  }

  /** `Alarm_Notify_Init`. */
  function Fresh(): World { World(Notify(NONE, 0, Cleared, false, 0, 0, []), [], []) }

  /** What the alarm task's storage calls do.  A slot that was begun before is written a second time. */
  ghost function Written(m: Machine, a: Act): Machine
  {
    var n := m.s.indexNum;
    match a
    case WriteMsg(ts, msg) =>
      if m.s.addr + |msg| <= |m.mem| == CHIP && m.s.infoAddr < U32 && n <= |m.slots|
      then m.(s := Store.MsgStore(m.s, ts), mem := Programmed(m.mem, m.s.addr, msg),
              slots := Set(m.slots, n, if n == |m.slots| then Begun(ts, msg, []) else Spoiled))
      else m
    case WriteInfo(ts, _, data, last) =>
      if ts == m.s.item.ts && n < |m.slots|
         && m.s.infoAddr + |data| <= |m.mem| && m.s.indexAddr + Store.ENTRY <= |m.mem|
      then m.(s := Store.InfoStore(m.s, |data|, last), mem := Store.InfoMem(m.s, m.mem, data, last),
              slots := m.slots[n := Longer(m.slots[n], data, last)])
      else m
    case _ => m
  }

  function Longer(slot: Slot, data: seq<byte>, last: bool): Slot {
    if !slot.Begun? then Spoiled
    else if last then Whole(Store.Alarm(slot.ts, slot.msg, slot.info + data))
    else slot.(info := slot.info + data)
  }

  /** A factory start. */
  ghost predicate FactoryNew(m: Machine)
  {
    && Start(m.alarm) && Log.FirstStart(m.log) && m.s == Store.Restarted(0) && m.saved == 0
    && |m.mem| == CHIP && Erased(m.mem, 0, CHIP) && m.slots == [] && m.reach == 0 && m.ever == []
  }

  ghost predicate Moves(m: Machine, v: Move, m': Machine) {
    CanMove(m, v) && m' == Moved(m, v)
  }

  ghost predicate IsLife(ms: seq<Machine>, vs: seq<Move>)
  {
    && |ms| == |vs| + 1 && FactoryNew(ms[0])
    && forall i :: 0 <= i < |vs| ==> Moves(ms[i], vs[i], ms[i + 1])
  }

  // ----- the invariant -----

  /** Where the store's addresses stand, and what the slots before the current one hold. */
  ghost predicate Placed(s: Store.Store, slots: seq<Slot>, saved: nat, reach: nat, p: Phase, t: word)
  {
    var n := s.indexNum;
    && saved <= n <= |slots| <= Store.TOTAL && reach <= |slots|
    && (n < Store.TOTAL ==>
          && s.addr == MsgAt(n) + (if Open(p) then Store.MSG else 0)
          && s.infoAddr == InfoAt(n) + (if Open(p) then SECOND * p.k else 0)
          && s.indexAddr == EntryAt(n))
    && (Open(p) ==>
          && n < |slots| && s.item == ItemAt(n, t)
          && (slots[n].Spoiled? || (slots[n].Begun? && slots[n].ts == t && |slots[n].info| == SECOND * p.k))
          && (n >= reach ==> slots[n].Begun?))
    && |slots| <= Larger(reach, n + if Open(p) then 1 else 0)
    && forall i :: 0 <= i < n ==> !slots[i].Begun? && (i >= reach ==> slots[i].Whole?)
  }

  /** Second `j` of a record that starts at ts - 1 was stored by the log with these bytes. */
  ghost predicate PartStored(ever: seq<Log.Entry>, ts: word, info: seq<byte>, j: nat)
    requires SECOND * (j + 1) <= |info|
  {
    Log.Entry(Add32(Sub32(ts, 1), j), info[SECOND * j..SECOND * (j + 1)]) in ever
  }

  ghost predicate PartsStored(ever: seq<Log.Entry>, ts: word, info: seq<byte>)
  {
    forall j: nat :: SECOND * (j + 1) <= |info| ==> PartStored(ever, ts, info, j)
  }

  ghost predicate Genuine(ever: seq<Log.Entry>, slot: Slot)
  {
    match slot
    case Whole(a) => PartsStored(ever, a.ts, a.info)
    case Begun(ts, _, info) => PartsStored(ever, ts, info)
    case Spoiled => true
  }

  ghost predicate AllGenuine(ever: seq<Log.Entry>, slots: seq<Slot>)
  {
    forall i :: 0 <= i < |slots| ==> Genuine(ever, slots[i])
  }

  ghost predicate Remembered(hist: seq<Log.Entry>, ever: seq<Log.Entry>)
  {
    forall i :: 0 <= i < |hist| ==> hist[i] in ever
  }

  ghost predicate Inv(m: Machine)
  {
    && Orderly(m.alarm) && Log.Consistent(m.log) && Remembered(m.log.hist, m.ever)
    && Sound(m.mem, m.slots) && AllGenuine(m.ever, m.slots)
    && Placed(m.s, m.slots, m.saved, m.reach, PhaseOf(m), Progress(m.alarm.acts).1)
  }

  // ----- one move -----

  lemma LaterParts(ever: seq<Log.Entry>, entry: Log.Entry, ts: word, info: seq<byte>)
    requires PartsStored(ever, ts, info)
    ensures PartsStored(ever + [entry], ts, info)
  {
    forall j: nat | SECOND * (j + 1) <= |info| ensures PartStored(ever + [entry], ts, info, j) {
      assert PartStored(ever, ts, info, j);
    }
  }

  lemma LaterGenuine(ever: seq<Log.Entry>, entry: Log.Entry, slots: seq<Slot>)
    requires AllGenuine(ever, slots)
    ensures AllGenuine(ever + [entry], slots)
  {
    hide PartsStored;
    forall i | 0 <= i < |slots| ensures Genuine(ever + [entry], slots[i]) {
      assert Genuine(ever, slots[i]);
      match slots[i]
      case Whole(a) => LaterParts(ever, entry, a.ts, a.info);
      case Begun(ts, _, info) => LaterParts(ever, entry, ts, info);
      case Spoiled =>
    }
  }

  /** A new message: the protocol was waiting for it. */
  lemma MessageMove(m: Machine, ts: word, msg: seq<byte>)
    requires Inv(m) && PhaseOf(m) == Raised0 && Progress(m.alarm.acts).1 == ts
    requires m.s.indexNum < Store.TOTAL && |msg| == Store.MSG
    ensures var m' := Written(m, WriteMsg(ts, msg));
            && Sound(m'.mem, m'.slots) && AllGenuine(m'.ever, m'.slots)
            && Placed(m'.s, m'.slots, m'.saved, m'.reach, Saving(0), ts)
  {
    hide Orderly, Log.Consistent, SlotStands, PartsStored, Confined;
    var n := m.s.indexNum;
    var mem := Programmed(m.mem, MsgAt(n), msg);
    var slot := if n == |m.slots| then Begun(ts, msg, []) else Spoiled;
    ProgramConfined(m.mem, n, MsgAt(n), msg);
    if n == |m.slots| { BeginStands(m.mem, n, ts, msg); } else { SpoiledStands(mem, n); }
    SetSound(m.mem, mem, m.slots, n, slot);
    NoParts(m.ever, ts);
  }

  lemma SpoiledStands(mem: seq<byte>, n: nat)
    requires |mem| == CHIP && n < Store.TOTAL
    ensures SlotStands(mem, n, Spoiled)
  {
  }

  lemma NoParts(ever: seq<Log.Entry>, ts: word)
    ensures PartsStored(ever, ts, [])
  {
  }

  /** One second more. */
  lemma OnePartMore(ever: seq<Log.Entry>, ts: word, info: seq<byte>, data: seq<byte>, k: nat)
    requires PartsStored(ever, ts, info) && |info| == SECOND * k && |data| == SECOND
    requires Log.Entry(Add32(Sub32(ts, 1), k), data) in ever
    ensures PartsStored(ever, ts, info + data)
  {
    var all := info + data;
    forall j: nat | SECOND * (j + 1) <= |all| ensures PartStored(ever, ts, all, j) {
      if j < k {
        assert PartStored(ever, ts, info, j);
        assert all[SECOND * j..SECOND * (j + 1)] == info[SECOND * j..SECOND * (j + 1)];
      } else {
        assert all[SECOND * j..SECOND * (j + 1)] == data;
      }
    }
  }

  /** Cells of the open alarm. */
  lemma PartPlace(n: nat, k: nat, off: nat, len: nat)
    requires n < Store.TOTAL && k < SECONDS && off == InfoAt(n) + SECOND * k && len == SECOND
    ensures off + len <= CHIP && EntryAt(n) + Store.ENTRY <= CHIP
    ensures forall p :: off <= p < off + len ==> InSlot(n, p)
    ensures forall p :: EntryAt(n) <= p < EntryAt(n) + Store.ENTRY ==> InSlot(n, p)
  {
  }

  /** The chip after a part, and after the last part. */
  lemma PartSound(m: Machine, t: word, k: nat, data: seq<byte>)
    requires Inv(m) && PhaseOf(m) == Saving(k) && k < SECONDS && Progress(m.alarm.acts).1 == t && |data| == SECOND
    ensures var last := k == SECONDS - 1;
            && m.s.item.ts == t && m.s.infoAddr + |data| <= CHIP && m.s.indexAddr + Store.ENTRY <= CHIP
            && m.s.indexNum < |m.slots|
            && Sound(Store.InfoMem(m.s, m.mem, data, last),
                     Set(m.slots, m.s.indexNum, Longer(m.slots[m.s.indexNum], data, last)))
  {
    hide Orderly, Log.Consistent, Stands, Erased, FreeFrom, PartsStored, Confined, InSlot, Programmed, PutAlarmItem;
    var n, last := m.s.indexNum, k == SECONDS - 1;
    var slot := m.slots[n];
    PartPlace(n, k, m.s.infoAddr, |data|);
    var mid := Programmed(m.mem, m.s.infoAddr, data);
    var mem := Store.InfoMem(m.s, m.mem, data, last);
    ProgramConfined(m.mem, n, m.s.infoAddr, data);
    if last {
      ProgramConfined(mid, n, m.s.indexAddr, PutAlarmItem(m.s.item));
      ConfinedTwice(m.mem, mid, mem, n);
    }
    assert SlotStands(m.mem, n, slot);
    if slot.Begun? {
      PartStands(m.mem, n, slot.ts, slot.msg, slot.info, data);
      if last { LastStands(m.mem, n, slot.ts, slot.msg, slot.info, data); }
    }
    assert SlotStands(mem, n, Longer(slot, data, last));
    SetSound(m.mem, mem, m.slots, n, Longer(slot, data, last));
  }

  lemma SetGenuine(ever: seq<Log.Entry>, slots: seq<Slot>, n: nat, slot: Slot)
    requires AllGenuine(ever, slots) && n <= |slots| && Genuine(ever, slot)
    ensures AllGenuine(ever, Set(slots, n, slot))
  {
    hide Genuine;
  }

  lemma PartGenuine(ever: seq<Log.Entry>, slot: Slot, t: word, k: nat, data: seq<byte>, last: bool)
    requires Genuine(ever, slot) && |data| == SECOND && Log.Entry(Add32(Sub32(t, 1), k), data) in ever
    requires slot.Begun? ==> slot.ts == t && |slot.info| == SECOND * k
    ensures Genuine(ever, Longer(slot, data, last))
  {
    hide PartsStored;
    if slot.Begun? { OnePartMore(ever, t, slot.info, data, k); }
  }

  lemma PartPlaced(s: Store.Store, slots: seq<Slot>, saved: nat, reach: nat, k: nat, t: word, data: seq<byte>)
    requires Placed(s, slots, saved, reach, Saving(k), t) && k < SECONDS && |data| == SECOND
    ensures var last := k == SECONDS - 1;
            && s.indexNum < |slots|
            && Placed(Store.InfoStore(s, |data|, last),
                      slots[s.indexNum := Longer(slots[s.indexNum], data, last)], saved, reach, Saving(k + 1), t)
  {
  }

  /** A part the protocol was waiting for, with the log's bytes. */
  lemma PartMove(m: Machine, t: word, k: nat, data: seq<byte>)
    requires Inv(m) && PhaseOf(m) == Saving(k) && k < SECONDS && Progress(m.alarm.acts).1 == t && |data| == SECOND
    requires Log.Entry(Add32(Sub32(t, 1), k), data) in m.ever
    ensures var last := k == SECONDS - 1;
            var m' := Written(m, WriteInfo(t, Add32(Sub32(t, 1), k), data, last));
            && Sound(m'.mem, m'.slots) && AllGenuine(m'.ever, m'.slots)
            && Placed(m'.s, m'.slots, m'.saved, m'.reach, Saving(k + 1), t)
  {
    var n, last := m.s.indexNum, k == SECONDS - 1;
    PartSound(m, t, k, data);
    PartPlaced(m.s, m.slots, m.saved, m.reach, k, t, data);
    assert Genuine(m.ever, m.slots[n]);
    PartGenuine(m.ever, m.slots[n], t, k, data, last);
    SetGenuine(m.ever, m.slots, n, Longer(m.slots[n], data, last));
  }

  /** The bytes of a second that was found were stored by the log. */
  lemma FoundInEver(hist: seq<Log.Entry>, ever: seq<Log.Entry>, ts: word)
    requires Log.Chronological(hist) && Remembered(hist, ever) && Has(hist, ts)
    ensures |DataOf(hist, ts)| == SECOND && Log.Entry(ts, DataOf(hist, ts)) in ever
  {
    var i :| 0 <= i < |hist| && hist[i].ts == ts;
    DataIs(hist, i);
    assert hist[i] == Log.Entry(ts, DataOf(hist, ts));
  }

  /** What the protocol accepts as the next action. */
  lemma NextAct(acts: seq<Act>, a: Act)
    requires Progress(acts + [a]).0 != Broken
    ensures var (p, t) := Progress(acts); var (p', t') := Progress(acts + [a]);
            match a
            case Raise(ts) => p == Idle && p' == Raised0 && t' == ts
            case WriteMsg(ts, _) => p == Raised0 && ts == t && p' == Saving(0) && t' == t
            case WriteInfo(ts, second, _, last) =>
              && p.Saving? && p.k < SECONDS && ts == t && second == Add32(Sub32(t, 1), p.k)
              && last == (p.k == SECONDS - 1) && p' == Saving(p.k + 1) && t' == t
            case EndSave => p == Saving(SECONDS) && p' == Idle && t' == t
  {
    ProgressStep(acts, a);
  }

  /** An event appends at most one action. */
  lemma OneAct(w: World, e: Event)
    requires CanHappen(w, e)
    ensures var w' := After(w, e);
            || w'.acts == w.acts
            || (|w'.acts| == |w.acts| + 1 && w'.acts == w.acts + [w'.acts[|w.acts|]])
    ensures var w' := After(w, e);
            |w'.acts| > |w.acts| ==>
              match w'.acts[|w.acts|]
              case WriteMsg(ts, msg) => e.Task? && BusAlarm(w.n.queue[0].kind) && msg == e.msg
              case WriteInfo(ts, second, data, _) =>
                e.Task? && e.found && w.n.queue[0] == Msg(SAVE, second) && data == e.data
              case _ => true
  {
  }

  /** Phases without an open alarm. */
  lemma ClosedPlaced(s: Store.Store, slots: seq<Slot>, saved: nat, reach: nat, p: Phase, t: word, p': Phase, t': word)
    requires Placed(s, slots, saved, reach, p, t) && !Open(p) && !Open(p')
    ensures Placed(s, slots, saved, reach, p', t')
  {
  }

  lemma AlarmMoveKeeps(m: Machine, e: Event)
    requires Inv(m) && CanMove(m, AlarmMove(e))
    ensures Inv(Moved(m, AlarmMove(e)))
  {
    hide Orderly, Log.Consistent, Sound, AllGenuine, Placed, After, Written, CanHappen;
    var w := After(m.alarm, e);
    EventOrderly(m.alarm, e);
    NotBroken(w);
    OneAct(m.alarm, e);
    if |w.acts| > |m.alarm.acts| {
      var a := w.acts[|m.alarm.acts|];
      NextAct(m.alarm.acts, a);
      ActKeeps(m, e, a);
    }
  }

  lemma NotBroken(w: World)
    requires Orderly(w)
    ensures Progress(w.acts).0 != Broken
  {
  }

  lemma ActKeeps(m: Machine, e: Event, a: Act)
    requires Inv(m) && CanMove(m, AlarmMove(e)) && After(m.alarm, e).acts == m.alarm.acts + [a]
    requires Progress(m.alarm.acts + [a]).0 != Broken
    ensures var m' := Written(m, a); var (p, t) := Progress(m.alarm.acts + [a]);
            && m'.log == m.log && m'.ever == m.ever
            && Sound(m'.mem, m'.slots) && AllGenuine(m'.ever, m'.slots)
            && Placed(m'.s, m'.slots, m'.saved, m'.reach, p, t)
  {
    hide Orderly, Sound, AllGenuine, Placed;
    OneAct(m.alarm, e);
    NextAct(m.alarm.acts, a);
    match a
    case Raise(ts) => ClosedPlaced(m.s, m.slots, m.saved, m.reach, Idle, Progress(m.alarm.acts).1, Raised0, ts);
    case WriteMsg(ts, msg) => MessageMove(m, ts, msg);
    case WriteInfo(ts, second, data, last) =>
      FoundInEver(m.log.hist, m.ever, second);
      PartMove(m, ts, PhaseOf(m).k, data);
    case EndSave =>
      ClosedPlaced(m.s, m.slots, m.saved, m.reach, Saving(SECONDS), Progress(m.alarm.acts).1, Idle,
                   Progress(m.alarm.acts).1);
  }

  /** The sample log's seconds after a power loss are some of those before. */
  lemma LogLoss(log: Log.World, card: Log.Event, ever: seq<Log.Entry>)
    requires Log.Consistent(log) && Log.CanHappen(log, card) && (card.PowerCycle? || card.TornSecond?)
    requires Remembered(log.hist, ever)
    ensures Log.Consistent(Log.After(log, card)) && Remembered(Log.After(log, card).hist, ever)
  {
    hide Log.Consistent;
    Log.EventKeeps(log, card);
  }

  lemma LogGrows(log: Log.World, entry: Log.Entry, ever: seq<Log.Entry>)
    requires Log.Consistent(log) && Log.CanHappen(log, Log.Second(entry)) && Remembered(log.hist, ever)
    ensures Log.Consistent(Log.After(log, Log.Second(entry)))
    ensures Remembered(Log.After(log, Log.Second(entry)).hist, ever + [entry])
  {
    hide Log.Consistent, Log.Stored, Log.StoredMem;
    Log.EventKeeps(log, Log.Second(entry));
  }

  /** What power loss leaves of the alarms. */
  lemma LossKeeps(m: Machine, card: Log.Event, flash: seq<byte>)
    requires Inv(m) && CanMove(m, Loss(card, flash))
    ensures Inv(Moved(m, Loss(card, flash)))
  {
    hide Orderly, Log.Consistent, Log.After, Log.CanHappen, Sound, SlotStands, Genuine;
    var m' := Moved(m, Loss(card, flash));
    var n := m.s.indexNum;
    LogLoss(m.log, card, m.ever);
    FreshOrderly();
    if flash != m.mem {
      SpoilSound(m.mem, flash, m.slots, n);
      SetGenuine(m.ever, m.slots, n, Spoiled);
    }
  }

  lemma SpoilSound(mem: seq<byte>, flash: seq<byte>, slots: seq<Slot>, n: nat)
    requires Sound(mem, slots) && n <= |slots| && n < Store.TOTAL && Confined(mem, flash, n)
    ensures Sound(flash, Set(slots, n, Spoiled))
    ensures forall ever :: Genuine(ever, Spoiled)
  {
    SpoiledStands(flash, n);
    SetSound(mem, flash, slots, n, Spoiled);
  }

  lemma FreshOrderly()
    ensures Orderly(Fresh()) && Progress(Fresh().acts) == (Idle, 0)
  {
  }

  lemma MoveKeeps(m: Machine, v: Move)
    requires Inv(m) && CanMove(m, v)
    ensures Inv(Moved(m, v))
  {
    match v
    case AlarmMove(e) => AlarmMoveKeeps(m, e);
    case Second(entry) =>
      hide Orderly, Log.Consistent, Log.After, Log.CanHappen, Sound, Placed, AllGenuine;
      LogGrows(m.log, entry, m.ever);
      LaterGenuine(m.ever, entry, m.slots);
    case SaveConfig => SaveKeeps(m);
    case Loss(card, flash) => LossKeeps(m, card, flash);
  }

  lemma SaveKeeps(m: Machine)
    requires Inv(m)
    ensures Inv(Moved(m, SaveConfig))
  {
    hide Orderly, Sound, AllGenuine;
    Log.EventKeeps(m.log, Log.SaveConfig);
  }

  lemma NewIsSound(mem: seq<byte>)
    requires |mem| == CHIP && Erased(mem, 0, CHIP)
    ensures Sound(mem, [])
  {
  }

  lemma FactoryNewInv(m: Machine)
    requires FactoryNew(m)
    ensures Inv(m)
  {
    NewIsSound(m.mem);
  }

  /** Main result: in every life of the recorder, power losses in both stores included, the sample log is
      consistent, the protocol in order, every slot of the chip holds what is known of it, and what it
      holds of an alarm are seconds the log has stored. */
  lemma {:induction false} AlwaysSafe(ms: seq<Machine>, vs: seq<Move>, i: nat)
    requires IsLife(ms, vs) && i < |ms|
    ensures Inv(ms[i])
  {
    hide Inv, FactoryNew, CanMove, Moved;
    if i == 0 {
      FactoryNewInv(ms[0]);
    } else {
      AlwaysSafe(ms, vs, i - 1);
      assert Moves(ms[i - 1], vs[i - 1], ms[i - 1 + 1]);
      MoveKeeps(ms[i - 1], vs[i - 1]);
    }
  }

  /** Power can fail at any moment, and while an alarm is being written with anything in its cells. */
  lemma AnyMoment(m: Machine, flash: seq<byte>)
    requires Inv(m) && Confined(m.mem, flash, m.s.indexNum)
    ensures CanMove(m, SaveConfig) && CanMove(m, Loss(Log.PowerCycle, m.mem))
    ensures Open(PhaseOf(m)) ==> CanMove(m, Loss(Log.PowerCycle, flash))
    ensures PhaseOf(m) == Raised0 && m.s.indexNum < 640 ==> CanMove(m, Loss(Log.PowerCycle, flash))
  {
    hide Orderly, Sound, AllGenuine, Confined;
  }

  // ----- which alarms are lost -----

  /** What any move does to the slots: only the current one can change, and only a loss goes back. */
  ghost predicate SlotStep(m: Machine, m': Machine)
  {
    && m.s.indexNum <= |m.slots| <= |m'.slots| <= Larger(|m.slots|, m.s.indexNum + 1)
    && forall k :: 0 <= k < |m.slots| && k != m.s.indexNum ==> m'.slots[k] == m.slots[k]
  }

  ghost predicate Spoils(m: Machine, m': Machine)
    requires m.s.indexNum <= |m.slots|
  {
    var n := m.s.indexNum;
    n < |m'.slots| && m'.slots[n].Spoiled? && !(n < |m.slots| && m.slots[n].Spoiled?)
  }

  /** Without power loss: the count goes on by one at most, and a slot is spoiled only by being begun again. */
  ghost predicate Goes(m: Machine, m': Machine)
  {
    && SlotStep(m, m') && m.saved <= m'.saved && m'.reach == m.reach
    && (m'.s.indexNum == m.s.indexNum || m'.s.indexNum == m.s.indexNum + 1)
    && (Spoils(m, m') ==> m.s.indexNum < |m.slots|)
  }

  lemma SameGoes(m: Machine, m': Machine)
    requires Inv(m) && m'.slots == m.slots && m'.s == m.s && m'.reach == m.reach && m.saved <= m'.saved
    ensures Goes(m, m')
  {
  }

  lemma AlarmGoes(m: Machine, e: Event)
    requires Inv(m) && CanMove(m, AlarmMove(e))
    ensures Goes(m, Moved(m, AlarmMove(e)))
  {
    hide Orderly, Log.Consistent, Sound, AllGenuine, After, Store.InfoMem, Programmed;
    var w := After(m.alarm, e);
    if |w.acts| > |m.alarm.acts| {
      match w.acts[|m.alarm.acts|]
      case Raise(_) =>
      case WriteMsg(ts, msg) =>
      case WriteInfo(_, _, data, last) =>
      case EndSave =>
    }
  }

  lemma MoveGoes(m: Machine, v: Move)
    requires Inv(m) && CanMove(m, v) && !v.Loss?
    ensures Goes(m, Moved(m, v))
  {
    if v.AlarmMove? {
      AlarmGoes(m, v.e);
    } else {
      hide Log.After, Log.CanHappen;
      SameGoes(m, Moved(m, v));
    }
  }

  /** The power loss puts slot `k` at risk: it had been begun, and the saved count does not cover it. */
  ghost predicate PutsAtRisk(m: Machine, v: Move, m': Machine, k: nat) {
    v.Loss? && m.saved <= k < |m'.slots|
  }

  ghost predicate RiskAt(ms: seq<Machine>, vs: seq<Move>, j: nat, k: nat)
    requires j < |vs| && |ms| == |vs| + 1
  {
    PutsAtRisk(ms[j], vs[j], ms[j + 1], k)
  }

  ghost predicate EverAtRisk(ms: seq<Machine>, vs: seq<Move>, i: nat, k: nat)
    requires i <= |vs| && |ms| == |vs| + 1
  {
    exists j :: 0 <= j < i && RiskAt(ms, vs, j, k)
  }

  /** Slots the firmware will write again, or is writing again, count as at risk, and so do spoiled ones. */
  ghost predicate Suspect(m: Machine, k: nat)
  {
    (m.s.indexNum <= k < m.reach) || (k < |m.slots| && m.slots[k].Spoiled?)
  }

  lemma SuspectStep(m: Machine, v: Move, k: nat)
    requires Inv(m) && CanMove(m, v) && Suspect(Moved(m, v), k)
    ensures Suspect(m, k) || PutsAtRisk(m, v, Moved(m, v), k)
  {
    var m' := Moved(m, v);
    if !v.Loss? {
      MoveGoes(m, v);
      hide Moved, CanMove, Orderly, Log.Consistent, Sound, AllGenuine;
    } else {
      hide Orderly, Log.Consistent, Sound, AllGenuine, Log.After;
    }
  }

  lemma {:induction false} SuspectWhy(ms: seq<Machine>, vs: seq<Move>, i: nat, k: nat)
    requires IsLife(ms, vs) && i < |ms| && Suspect(ms[i], k)
    ensures EverAtRisk(ms, vs, i, k)
  {
    hide CanMove, Moved, Inv;
    if i > 0 {
      AlwaysSafe(ms, vs, i - 1);
      assert Moves(ms[i - 1], vs[i - 1], ms[i - 1 + 1]);
      SuspectStep(ms[i - 1], vs[i - 1], k);
      if Suspect(ms[i - 1], k) {
        SuspectWhy(ms, vs, i - 1, k);
      } else {
        assert RiskAt(ms, vs, i - 1, k);
      }
    }
  }

  /** Once at risk, a slot is written again before it counts as complete. */
  ghost predicate Doubtful(m: Machine, k: nat)
  {
    && k < |m.slots|
    && (k < m.s.indexNum || (k == m.s.indexNum && Open(PhaseOf(m))) ==> m.slots[k].Spoiled?)
  }

  lemma AlarmDoubt(m: Machine, e: Event, k: nat)
    requires Inv(m) && CanMove(m, AlarmMove(e)) && Doubtful(m, k)
    ensures Doubtful(Moved(m, AlarmMove(e)), k)
  {
    hide Orderly, Log.Consistent, Sound, AllGenuine, After, CanHappen, Store.InfoMem, Programmed;
    var w := After(m.alarm, e);
    EventOrderly(m.alarm, e);
    NotBroken(w);
    OneAct(m.alarm, e);
    if |w.acts| > |m.alarm.acts| {
      var a := w.acts[|m.alarm.acts|];
      NextAct(m.alarm.acts, a);
      ActDoubt(m, a, k, Progress(w.acts).0);
    }
  }

  lemma ActDoubt(m: Machine, a: Act, k: nat, p: Phase)
    requires Inv(m) && Doubtful(m, k)
    requires match a
             case Raise(_) => PhaseOf(m) == Idle && p == Raised0
             case WriteMsg(_, msg) =>
               PhaseOf(m) == Raised0 && p == Saving(0) && |msg| == Store.MSG && m.s.indexNum < Store.TOTAL
             case WriteInfo(_, _, _, last) =>
               PhaseOf(m).Saving? && PhaseOf(m).k < SECONDS && last == (PhaseOf(m).k == SECONDS - 1)
               && p == Saving(PhaseOf(m).k + 1)
             case EndSave => p == Idle
    ensures var m' := Written(m, a);
            k < |m'.slots| && (k < m'.s.indexNum || (k == m'.s.indexNum && Open(p)) ==> m'.slots[k].Spoiled?)
  {
    assert |m.mem| == CHIP;
    hide Orderly, Log.Consistent, Sound, AllGenuine, Store.InfoMem, Programmed;
  }

  lemma DoubtStep(m: Machine, v: Move, k: nat)
    requires Inv(m) && CanMove(m, v) && (Doubtful(m, k) || PutsAtRisk(m, v, Moved(m, v), k))
    ensures Doubtful(Moved(m, v), k)
  {
    if v.AlarmMove? {
      AlarmDoubt(m, v.e, k);
    } else {
      hide Orderly, Log.Consistent, Sound, AllGenuine, Log.After, Log.CanHappen;
    }
  }

  lemma {:induction false} DoubtStays(ms: seq<Machine>, vs: seq<Move>, i: nat, k: nat)
    requires IsLife(ms, vs) && i < |ms| && EverAtRisk(ms, vs, i, k)
    ensures Doubtful(ms[i], k)
  {
    hide CanMove, Moved, Inv, Doubtful, PutsAtRisk;
    AlwaysSafe(ms, vs, i - 1);
    assert Moves(ms[i - 1], vs[i - 1], ms[i - 1 + 1]);
    var j :| 0 <= j < i && RiskAt(ms, vs, j, k);
    if j < i - 1 {
      DoubtStays(ms, vs, i - 1, k);
    }
    DoubtStep(ms[i - 1], vs[i - 1], k);
  }

  /** Exactly which alarms power losses cost: a completed slot holds its alarm if and only if no power loss
      found it begun and not covered by the saved count. */
  lemma LostIff(ms: seq<Machine>, vs: seq<Move>, i: nat, k: nat)
    requires IsLife(ms, vs) && i < |ms| && k < ms[i].s.indexNum
    ensures k < |ms[i].slots| && (ms[i].slots[k].Whole? <==> !EverAtRisk(ms, vs, i, k))
  {
    hide CanMove, Moved, Orderly, Log.Consistent, Sound, AllGenuine;
    AlwaysSafe(ms, vs, i);
    if EverAtRisk(ms, vs, i, k) {
      DoubtStays(ms, vs, i, k);
    } else if ms[i].slots[k].Spoiled? {
      SuspectWhy(ms, vs, i, k);
    }
  }

  /** The record is what the log stored for the second before the alarm, its own and the one after. */
  ghost predicate ThreeStored(ever: seq<Log.Entry>, ts: word, info: seq<byte>)
  {
    && |info| == 3 * SECOND
    && Log.Entry(Sub32(ts, 1), info[..SECOND]) in ever
    && Log.Entry(ts, info[SECOND..2 * SECOND]) in ever
    && Log.Entry(Add32(ts, 1), info[2 * SECOND..]) in ever
  }

  lemma ThreeParts(ever: seq<Log.Entry>, ts: word, info: seq<byte>)
    requires PartsStored(ever, ts, info) && |info| == 3 * SECOND
    ensures ThreeStored(ever, ts, info)
  {
    AlarmRecord.NextSeconds(ts);
    assert PartStored(ever, ts, info, 0) && PartStored(ever, ts, info, 1) && PartStored(ever, ts, info, 2);
    assert info[SECOND * 0..SECOND * (0 + 1)] == info[..SECOND];
    assert info[SECOND * 2..SECOND * (2 + 1)] == info[2 * SECOND..];
  }

  /** Alarm `a` is on the chip, complete and genuine, and `Storage_Read_AlarmInfo` reads it unless an earlier
      index cell shows the same timestamp. */
  ghost predicate Available(m: Machine, k: nat, a: Store.Alarm)
    requires |m.mem| == CHIP && k < Store.TOTAL && m.s.indexNum <= Store.TOTAL
  {
    && SlotStands(m.mem, k, Whole(a)) && ThreeStored(m.ever, a.ts, a.info)
    && k < Store.Searched(m.s.indexNum) && Store.Shows(m.mem, k) == a.ts
    && forall off: nat, len: nat :: off + len <= Store.INFO ==>
         Store.BytesBehind(m.mem, k, off, len) == a.info[off..off + len]
  }

  lemma WholeAvailable(m: Machine, k: nat, a: Store.Alarm)
    requires Inv(m) && k < m.s.indexNum && m.slots[k] == Whole(a)
    ensures Available(m, k, a)
  {
    hide Orderly, Log.Consistent, FreeFrom, PartsStored, ThreeStored, Store.Shows, Store.BytesBehind;
    assert SlotStands(m.mem, k, m.slots[k]) && Genuine(m.ever, m.slots[k]);
    ThreeParts(m.ever, a.ts, a.info);
    WholeReads(m.mem, k, a, 0, 0);
    forall off: nat, len: nat | off + len <= Store.INFO
      ensures Store.BytesBehind(m.mem, k, off, len) == a.info[off..off + len]
    {
      WholeReads(m.mem, k, a, off, len);
    }
  }

  /** End to end with power losses: every completed alarm that no loss put at risk is available. */
  lemma EndToEnd(ms: seq<Machine>, vs: seq<Move>, i: nat, k: nat)
    requires IsLife(ms, vs) && i < |ms| && k < ms[i].s.indexNum && !EverAtRisk(ms, vs, i, k)
    ensures |ms[i].mem| == CHIP && k < |ms[i].slots| && ms[i].s.indexNum <= Store.TOTAL
    ensures ms[i].slots[k].Whole? && Available(ms[i], k, ms[i].slots[k].a)
  {
    hide CanMove, Moved, Orderly, Log.Consistent, AllGenuine, FreeFrom, SlotStands, EverAtRisk, Available;
    AlwaysSafe(ms, vs, i);
    LostIff(ms, vs, i, k);
    WholeAvailable(ms[i], k, ms[i].slots[k].a);
  }

  lemma StepSurvives(m: Machine, v: Move, k: nat)
    requires Inv(m) && CanMove(m, v) && k < m.saved
    ensures var m' := Moved(m, v);
            k < m'.saved && k < |m.slots| && k < |m'.slots| && m'.slots[k] == m.slots[k]
  {
    if v.Loss? {
      hide Orderly, Log.Consistent, Sound, AllGenuine, Log.After, Log.CanHappen;
    } else {
      MoveGoes(m, v);
      hide Moved, CanMove, Orderly, Log.Consistent, Sound, AllGenuine;
    }
  }

  /** A slot the saved count covers never changes again. */
  lemma {:induction false} Survives(ms: seq<Machine>, vs: seq<Move>, i: nat, j: nat, k: nat)
    requires IsLife(ms, vs) && i <= j < |ms| && k < ms[i].saved
    ensures k < ms[j].saved && k < |ms[i].slots| && k < |ms[j].slots| && ms[j].slots[k] == ms[i].slots[k]
  {
    hide CanMove, Moved, Orderly, Log.Consistent, Sound, AllGenuine;
    AlwaysSafe(ms, vs, i);
    if i < j {
      Survives(ms, vs, i, j - 1, k);
      AlwaysSafe(ms, vs, j - 1);
      assert Moves(ms[j - 1], vs[j - 1], ms[j - 1 + 1]);
      StepSurvives(ms[j - 1], vs[j - 1], k);
    }
  }

  // ----- what a save and a loss are worth -----

  /** A save covers every completed alarm: its slot never changes again, no later loss puts it at risk, and the
      count never goes back behind it. */
  lemma SaveCovers(ms: seq<Machine>, vs: seq<Move>, i: nat, j: nat, k: nat)
    requires IsLife(ms, vs) && i < j < |ms| && vs[i] == SaveConfig && k < ms[i].s.indexNum
    ensures k < |ms[i].slots| && k < |ms[j].slots| && ms[j].slots[k] == ms[i].slots[k]
    ensures k < ms[j].s.indexNum && (j < |vs| ==> !RiskAt(ms, vs, j, k)) && !RiskAt(ms, vs, i, k)
  {
    hide CanMove, Orderly, Log.Consistent, Log.After, Sound, AllGenuine;
    assert Moves(ms[i], vs[i], ms[i + 1]);
    AlwaysSafe(ms, vs, j);
    Survives(ms, vs, i + 1, j, k);
  }

  ghost predicate NoSave(vs: seq<Move>, i: nat, j: nat)
  {
    forall l :: i <= l < j && l < |vs| ==> !vs[l].SaveConfig?
  }

  lemma UnsavedStep(m: Machine, v: Move)
    requires Inv(m) && CanMove(m, v) && !v.SaveConfig?
    ensures Moved(m, v).saved == m.saved && Moved(m, v).log.saved == m.log.saved
    ensures v.Loss? ==>
      && Moved(m, v).s == Store.Restarted(m.saved)
      && Log.CanRestart(m.log) && Moved(m, v).log.hist == m.log.hist[..Log.ITEMS * m.log.saved.blockNum]
  {
    if v.AlarmMove? {
      UnsavedAct(m, v.e);
    }
  }

  lemma UnsavedAct(m: Machine, e: Event)
    requires CanMove(m, AlarmMove(e))
    ensures Moved(m, AlarmMove(e)).saved == m.saved && Moved(m, AlarmMove(e)).log == m.log
  {
    hide After, AlarmRecord.Answered, Store.InfoMem, Programmed;
  }

  lemma {:induction false} StaysSaved(ms: seq<Machine>, vs: seq<Move>, i: nat, j: nat)
    requires IsLife(ms, vs) && i <= j < |ms| && NoSave(vs, i, j)
    ensures ms[j].saved == ms[i].saved && ms[j].log.saved == ms[i].log.saved
  {
    hide CanMove, Moved, Inv;
    if i < j {
      StaysSaved(ms, vs, i, j - 1);
      AlwaysSafe(ms, vs, j - 1);
      assert Moves(ms[j - 1], vs[j - 1], ms[j - 1 + 1]);
      UnsavedStep(ms[j - 1], vs[j - 1]);
    }
  }

  lemma LogStep(m: Machine, v: Move, n: nat)
    requires Inv(m) && CanMove(m, v) && n <= Log.ITEMS * m.log.saved.blockNum
    ensures var m' := Moved(m, v);
            && n <= Log.ITEMS * m'.log.saved.blockNum && n <= |m.log.hist| && n <= |m'.log.hist|
            && m'.log.hist[..n] == m.log.hist[..n]
  {
    hide Log.After, Log.CanHappen, Log.Holds, Orderly, Sound, Placed, AllGenuine;
    match v
    case AlarmMove(e) => UnsavedAct(m, e);
    case Second(entry) => Log.StepDurable(m.log, Log.Second(entry), n);
    case SaveConfig => Log.StepDurable(m.log, Log.SaveConfig, n);
    case Loss(card, _) => Log.StepDurable(m.log, card, n);
  }

  /** What a saved record indexes stays in the log. */
  lemma {:induction false} LogSurvives(ms: seq<Machine>, vs: seq<Move>, i: nat, j: nat, n: nat)
    requires IsLife(ms, vs) && i <= j < |ms| && n <= Log.ITEMS * ms[i].log.saved.blockNum
    ensures n <= Log.ITEMS * ms[j].log.saved.blockNum && n <= |ms[i].log.hist| && n <= |ms[j].log.hist|
    ensures ms[j].log.hist[..n] == ms[i].log.hist[..n]
  {
    hide CanMove, Moved, Orderly, Sound, Placed, AllGenuine, Log.Holds;
    AlwaysSafe(ms, vs, i);
    if i < j {
      LogSurvives(ms, vs, i, j - 1, n);
      AlwaysSafe(ms, vs, j - 1);
      assert Moves(ms[j - 1], vs[j - 1], ms[j - 1 + 1]);
      LogStep(ms[j - 1], vs[j - 1], n);
    }
  }

  lemma SavedAt(m: Machine)
    requires Inv(m)
    ensures var m' := Moved(m, SaveConfig);
            && m'.saved == m.s.indexNum && m'.log.saved == m.log.l.cfg && m'.log.hist == m.log.hist
            && 0 <= Log.Covered(m.log) == Log.ITEMS * m'.log.saved.blockNum <= |m.log.hist|
  {
    hide Orderly, Sound, Placed, AllGenuine;
    Log.SaveStep(m.log);
  }

  /** A loss goes back on both sides exactly to the last save: to the number of alarms complete then, and in the
      log to the index blocks complete then. */
  lemma LossGoesBack(ms: seq<Machine>, vs: seq<Move>, i: nat, j: nat)
    requires IsLife(ms, vs) && i < j < |vs| && vs[i] == SaveConfig && NoSave(vs, i + 1, j) && vs[j].Loss?
    ensures ms[j + 1].s == Store.Restarted(ms[i].s.indexNum)
    ensures ms[j + 1].log.saved == ms[i].log.l.cfg
    ensures 0 <= Log.Covered(ms[i].log)
    ensures Log.Covered(ms[i].log) <= |ms[i].log.hist|
    ensures ms[j + 1].log.hist == ms[i].log.hist[..Log.Covered(ms[i].log)]
  {
    hide Inv, CanMove, Log.Covered, Log.After;
    AlwaysSafe(ms, vs, i);
    AlwaysSafe(ms, vs, j);
    assert Moves(ms[i], vs[i], ms[i + 1]) && Moves(ms[j], vs[j], ms[j + 1]);
    SavedAt(ms[i]);
    StaysSaved(ms, vs, i + 1, j);
    LogSurvives(ms, vs, i + 1, j, Log.Covered(ms[i].log));
    UnsavedStep(ms[j], vs[j]);
  }

  /** A second the log has, asked for by a tick and answered by the alarm task, is the next part of the open
      alarm, and the third one completes it. */
  lemma PartCompletes(m: Machine, rtc: word, msg: seq<byte>)
    requires Inv(m) && Open(PhaseOf(m)) && m.alarm.n.queue == [] && rtc > Add32(m.alarm.n.alarmTs, m.alarm.n.index)
    requires m.reach <= m.s.indexNum && |msg| == Store.MSG
    requires Has(m.log.hist, Add32(Sub32(Progress(m.alarm.acts).1, 1), PhaseOf(m).k))
    ensures m.s.indexNum < |m.slots| && m.slots[m.s.indexNum].Begun? && CanMove(m, AlarmMove(Tick(rtc)))
    ensures var n, k, t := m.s.indexNum, PhaseOf(m).k, Progress(m.alarm.acts).1;
            var data := DataOf(m.log.hist, Add32(Sub32(t, 1), k));
            var m1, answer := Moved(m, AlarmMove(Tick(rtc))), AlarmMove(Task(msg, true, data));
            && CanMove(m1, answer)
            && var m2 := Moved(m1, answer);
               var s := m.slots[n];
               && PhaseOf(m2) == Saving(k + 1)
               && m2.s.indexNum == (if k == 2 then n + 1 else n)
               && m2.slots == m.slots[n := if k == 2 then Whole(Store.Alarm(s.ts, s.msg, s.info + data))
                                           else Begun(s.ts, s.msg, s.info + data)]
  {
    hide SlotStands, FreeFrom, AllGenuine, DataOf, Log.Placed, Log.TableStands, Log.DataStands;
    var n, k, t := m.s.indexNum, PhaseOf(m).k, Progress(m.alarm.acts).1;
    var data := DataOf(m.log.hist, Add32(Sub32(t, 1), k));
    TickAndTask(m.alarm, rtc, msg, true, data);
    FoundInEver(m.log.hist, m.ever, Add32(Sub32(t, 1), k));
    PartSound(m, t, k, data);
    AskedAndAnswered(m.alarm, rtc, msg, data);
  }

  /** The tick's request and the action that answers it. */
  lemma AskedAndAnswered(w: World, rtc: word, msg: seq<byte>, data: seq<byte>)
    requires Orderly(w) && Open(Progress(w.acts).0) && w.n.queue == [] && rtc > Add32(w.n.alarmTs, w.n.index)
    ensures var (p, t) := Progress(w.acts); var second := Add32(Sub32(t, 1), p.k); var w1 := After(w, Tick(rtc));
            && w1.n.queue == [Msg(SAVE, second)] && w1.acts == w.acts
            && After(w1, Task(msg, true, data)).acts == w.acts + [WriteInfo(t, second, data, p.k == SECONDS - 1)]
  {
    BackToTs(Progress(w.acts).1);
  }

  // ----- the sides of a life -----

  /** What the log side sees of a life, every second stored in it, and the alarm side's events since the
      last loss. */
  ghost function LogEvents(vs: seq<Move>): seq<Log.Event> {
    if vs == [] then []
    else
      var before, v := LogEvents(vs[..|vs| - 1]), vs[|vs| - 1];
      if v.AlarmMove? then before else before + [LogEvent(v)]
  }

  ghost function LogEvent(v: Move): Log.Event
    requires !v.AlarmMove?
  {
    match v
    case Second(entry) => Log.Second(entry)
    case SaveConfig => Log.SaveConfig
    case Loss(card, _) => card
  }

  ghost function StoredIn(vs: seq<Move>): seq<Log.Entry> {
    if vs == [] then []
    else
      var before, v := StoredIn(vs[..|vs| - 1]), vs[|vs| - 1];
      if v.Second? then before + [v.entry] else before
  }

  ghost function AlarmEvents(vs: seq<Move>): seq<Event> {
    if vs == [] then []
    else
      var before, v := AlarmEvents(vs[..|vs| - 1]), vs[|vs| - 1];
      if v.Loss? then [] else if v.AlarmMove? then before + [v.e] else before
  }

  lemma MoveSides(m: Machine, v: Move)
    requires CanMove(m, v)
    ensures var m' := Moved(m, v);
            match v
            case AlarmMove(e) =>
              Happens(m.alarm, e, m'.alarm) && Drained(m.alarm, e) && m'.log == m.log && m'.ever == m.ever
            case Second(entry) =>
              Log.Happens(m.log, Log.Second(entry), m'.log) && m'.alarm == m.alarm && m'.ever == m.ever + [entry]
            case SaveConfig => Log.Happens(m.log, Log.SaveConfig, m'.log) && m'.alarm == m.alarm && m'.ever == m.ever
            case Loss(card, _) => Log.Happens(m.log, card, m'.log) && Start(m'.alarm) && m'.ever == m.ever
  {
    hide After, CanHappen, Log.After, Store.InfoMem, Programmed;
    if v.Loss? { FreshStarts(); }
  }

  lemma FreshStarts()
    ensures Start(Fresh())
  {
  }

  /** One move more on the log side. */
  lemma LongerLog(ls: seq<Log.World>, evs: seq<Log.Event>, m: Machine, v: Move)
    requires Log.History(ls, evs) && ls[|ls| - 1] == m.log && CanMove(m, v)
    ensures v.AlarmMove? ==> Moved(m, v).log == m.log
    ensures !v.AlarmMove? ==> Log.History(ls + [Moved(m, v).log], evs + [LogEvent(v)])
  {
    MoveSides(m, v);
    hide CanMove, Moved, CanHappen, After, Log.CanHappen, Log.After, Log.FirstStart;
    if !v.AlarmMove? {
      AlarmRecord.LongerHistory(ls, evs, LogEvent(v), Moved(m, v).log);
    }
  }

  /** One move more on the alarm side. */
  lemma LongerAlarms(ws: seq<World>, es: seq<Event>, m: Machine, v: Move)
    requires IsDrainedRun(ws, es) && ws[|ws| - 1] == m.alarm && CanMove(m, v)
    ensures v.Second? || v.SaveConfig? ==> Moved(m, v).alarm == m.alarm
    ensures v.AlarmMove? ==> IsDrainedRun(ws + [Moved(m, v).alarm], es + [v.e])
    ensures v.Loss? ==> IsDrainedRun([Moved(m, v).alarm], [])
  {
    MoveSides(m, v);
    hide CanMove, Moved, CanHappen, After, Log.CanHappen, Log.After;
    if v.AlarmMove? {
      hide Start;
      AlarmRecord.LongerAlarmRun(ws, es, v.e, Moved(m, v).alarm);
    }
  }

  /** The log of a life is a log of its own with all its events, which `Log.HoldsWhatIsTold` tells. */
  lemma {:induction false} LogOfLife(ms: seq<Machine>, vs: seq<Move>, i: nat) returns (ls: seq<Log.World>)
    requires IsLife(ms, vs) && i < |ms|
    ensures Log.History(ls, LogEvents(vs[..i])) && ls[|ls| - 1] == ms[i].log
  {
    if i == 0 {
      ls := [ms[0].log];
    } else {
      hide CanMove, Moved, Log.History;
      ls := LogOfLife(ms, vs, i - 1);
      assert Moves(ms[i - 1], vs[i - 1], ms[i - 1 + 1]) && vs[..i][..i - 1] == vs[..i - 1];
      LongerLog(ls, LogEvents(vs[..i - 1]), ms[i - 1], vs[i - 1]);
      if !vs[i - 1].AlarmMove? {
        ls := ls + [ms[i].log];
      }
    }
  }

  /** Since the last loss the alarm side is a run from its start. */
  lemma {:induction false} AlarmsOfLife(ms: seq<Machine>, vs: seq<Move>, i: nat) returns (ws: seq<World>)
    requires IsLife(ms, vs) && i < |ms|
    ensures IsDrainedRun(ws, AlarmEvents(vs[..i])) && ws[|ws| - 1] == ms[i].alarm
  {
    if i == 0 {
      ws := [ms[0].alarm];
    } else {
      hide CanMove, Moved, IsDrainedRun;
      ws := AlarmsOfLife(ms, vs, i - 1);
      assert Moves(ms[i - 1], vs[i - 1], ms[i - 1 + 1]) && vs[..i][..i - 1] == vs[..i - 1];
      LongerAlarms(ws, AlarmEvents(vs[..i - 1]), ms[i - 1], vs[i - 1]);
      if vs[i - 1].AlarmMove? {
        ws := ws + [ms[i].alarm];
      } else if vs[i - 1].Loss? {
        ws := [ms[i].alarm];
      }
    }
  }

  /** What the log ever stored are the seconds of the life. */
  lemma {:induction false} EverStored(ms: seq<Machine>, vs: seq<Move>, i: nat)
    requires IsLife(ms, vs) && i < |ms|
    ensures ms[i].ever == StoredIn(vs[..i])
  {
    if i > 0 {
      hide CanMove, Moved, CanHappen, After, Log.CanHappen, Log.After, Log.FirstStart;
      EverStored(ms, vs, i - 1);
      assert Moves(ms[i - 1], vs[i - 1], ms[i - 1 + 1]) && vs[..i][..i - 1] == vs[..i - 1];
      MoveSides(ms[i - 1], vs[i - 1]);
    }
  }
}
