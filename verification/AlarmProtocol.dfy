/** Raising an alarm and saving its three seconds: the 1 kHz sampler, the 1 Hz tick and the alarm
    task share `g_AlarmNotify` and a queue of five messages. */
module AlarmProtocol {
  import opened Bytes
  import opened Records

  const NONE := 0                 // BUS_ALARM_NONE; 1, 2 and 3 are the bus alarms
  const SAVE := 5                 // BUS_ALARM_SAVE
  const QUEUE := 5
  const DEBOUNCE := 5
  const SECONDS := 3

  datatype Sta = Raised | Recovery | Cleared

  /** `AlarmMsg_t` as the queue carries it. */
  datatype Msg = Msg(kind: nat, ts: word)

  /** `AlarmNotify_t`. */
  datatype Notify = Notify(kind: nat, num: nat, sta: Sta, saving: bool, index: nat, alarmTs: word, queue: seq<Msg>)

  function Add32(a: word, k: nat): word { (a + k) % U32 }

  predicate BusAlarm(kind: nat) { 1 <= kind <= 3 }

  // ----- the four routines on values -----

  /** The sample is looked at: `save_sta` and the boot time let it through. */
  predicate Evaluated(n: Notify, boot: word, ts: word) { !n.saving && boot <= ts }

  /** `Adc_Check_Alarm` for a sample that alarms with `kind`. */
  function Alarming(n: Notify, boot: word, kind: nat, ts: word): Notify {
    if !Evaluated(n, boot, ts) then n
    else if kind != n.kind then n.(num := 0, kind := kind)
    else if n.sta == Raised then n
    else if n.num + 1 < DEBOUNCE then n.(num := n.num + 1)
    else n.(num := n.num + 1, sta := Raised, saving := true, alarmTs := Sub32(ts, 1), index := 0,
            queue := if |n.queue| < QUEUE then n.queue + [Msg(kind, ts)] else n.queue)
  }

  /** `Adc_Check_Alarm` for a normal sample. */
  function Normal(n: Notify): Notify {
    n.(kind := NONE, sta := if n.sta == Raised then Recovery else n.sta)
  }

  /** `Adc_Clear_Alarm`; `level` says whether the input is in the clearing range. */
  function Clearing(n: Notify, level: bool): Notify {
    if n.sta != Cleared && level then n.(sta := Cleared, kind := NONE) else n
  }

  /** The save trigger of `time_sync_task` with `Adc_Save_Alarm`. */
  function Ticked(n: Notify, rtc: word): Notify {
    if !(n.saving && rtc > Add32(n.alarmTs, n.index)) then n
    else if n.index >= SECONDS then n.(saving := false, index := 0)
    else n.(queue := if |n.queue| < QUEUE then n.queue + [Msg(SAVE, Add32(n.alarmTs, n.index))] else n.queue)
  }

  /** `alarm_task` on the message at the head of the queue; `found` says whether
      `Storage_Read_AdcData` returned 0. */
  function Handled(n: Notify, found: bool): Notify
    requires n.queue != []
  {
    var m := n.queue[0];
    n.(queue := n.queue[1..], index := if m.kind == SAVE && found then n.index + 1 else n.index)
  }

  // ----- runs -----

  /** What the alarm task and the others do to the outside. */
  datatype Act =
    | Raise(ts: word)
    | WriteMsg(ts: word, msg: seq<byte>)
    | WriteInfo(ts: word, second: word, data: seq<byte>, last: bool)
    | EndSave

  /** An evaluated sample, or an effective clear. */
  datatype Look = Alarm(kind: nat) | Fine | Clear

  datatype World = World(n: Notify, acts: seq<Act>, looks: seq<Look>)

  /** A failed mutex take of the sampler or the tick is `Missed`. */
  datatype Event =
    | Sample(kind: nat, ts: word, boot: word)
    | ClearInput(level: bool)
    | Tick(rtc: word)
    | Task(msg: seq<byte>, found: bool, data: seq<byte>)
    | Missed

  ghost predicate CanHappen(w: World, e: Event)
  {
    match e
    case Sample(kind, _, _) => kind == NONE || BusAlarm(kind)
    case Task(_, _, _) => w.n.queue != []
    case _ => true
  }

  /** The alarm task empties its queue between two ticks. */
  predicate Drained(w: World, e: Event) { e.Tick? ==> w.n.queue == [] }

  predicate Raises(n: Notify, n': Notify) { !n.saving && n'.saving }

  ghost function After(w: World, e: Event): World
    requires CanHappen(w, e)
  {
    match e
    case Sample(kind, ts, boot) =>
      if kind == NONE then w.(n := Normal(w.n), looks := w.looks + [Fine])
      else
        var n := Alarming(w.n, boot, kind, ts);
        World(n, if Raises(w.n, n) then w.acts + [Raise(ts)] else w.acts,
              if Evaluated(w.n, boot, ts) then w.looks + [Alarm(kind)] else w.looks)
    case ClearInput(level) =>
      w.(n := Clearing(w.n, level), looks := if w.n.sta != Cleared && level then w.looks + [Clear] else w.looks)
    case Tick(rtc) =>
      var n := Ticked(w.n, rtc);
      w.(n := n, acts := if w.n.saving && !n.saving then w.acts + [EndSave] else w.acts)
    case Task(msg, found, data) =>
      var m, n := w.n.queue[0], Handled(w.n, found);
      w.(n := n,
         acts := if BusAlarm(m.kind) then w.acts + [WriteMsg(m.ts, msg)]
                 else if m.kind == SAVE && found then
                   w.acts + [WriteInfo(Add32(n.alarmTs, 1), m.ts, data, n.index >= SECONDS)]
                 else w.acts)
    case Missed => w
  }

  /** `Alarm_Notify_Init`. */
  ghost predicate Start(w: World)
  {
    w.n == Notify(NONE, 0, Cleared, false, 0, w.n.alarmTs, []) && w.acts == [] && w.looks == []
  }

  ghost predicate IsRun(ws: seq<World>, es: seq<Event>)
  {
    && |ws| == |es| + 1 && Start(ws[0])
    && forall i :: 0 <= i < |es| ==> Happens(ws[i], es[i], ws[i + 1])
  }

  ghost predicate Happens(w: World, e: Event, w': World)
  {
    CanHappen(w, e) && w' == After(w, e)
  }

  ghost predicate IsDrainedRun(ws: seq<World>, es: seq<Event>)
  {
    IsRun(ws, es) && forall i :: 0 <= i < |es| ==> Drained(ws[i], es[i])
  }

  // ----- the save protocol -----

  /** How far the current alarm has come: raised, message written, k seconds saved. */
  datatype Phase = Idle | Raised0 | Saving(k: nat) | Broken

  /** The actions follow the protocol: Raise t; WriteMsg t; WriteInfo for t-1, t, t+1, the third one
      marked last; EndSave; and only then the next Raise. */
  ghost function Progress(acts: seq<Act>): (p: (Phase, word))
  {
    if acts == [] then (Idle, 0)
    else
      var (p, t) := Progress(acts[..|acts| - 1]);
      match acts[|acts| - 1]
      case Raise(ts) => (if p == Idle then Raised0 else Broken, ts)
      case WriteMsg(ts, _) => (if p == Raised0 && ts == t then Saving(0) else Broken, t)
      case WriteInfo(ts, second, _, last) =>
        (if p.Saving? && p.k < SECONDS && ts == t && second == Add32(Sub32(t, 1), p.k) && last == (p.k == SECONDS - 1)
         then Saving(p.k + 1) else Broken, t)
      case EndSave => (if p == Saving(SECONDS) then Idle else Broken, t)
  }

  ghost predicate InStep(n: Notify, p: Phase, t: word)
  {
    && (n.saving ==> n.alarmTs == Sub32(t, 1))
    && match p
       case Idle => !n.saving && n.queue == []
       case Raised0 => n.saving && n.index == 0 && |n.queue| == 1 && BusAlarm(n.queue[0].kind) && n.queue[0].ts == t
       case Saving(k) => n.saving && n.index == k <= SECONDS &&
                         (n.queue == [] || (k < SECONDS && n.queue == [Msg(SAVE, Add32(n.alarmTs, k))]))
       case Broken => false
  }

  ghost predicate Orderly(w: World)
  {
    var (p, t) := Progress(w.acts);
    InStep(w.n, p, t)
  }

  lemma ProgressStep(acts: seq<Act>, a: Act)
    ensures Progress(acts + [a]).0 == match a
      case Raise(ts) => if Progress(acts).0 == Idle then Raised0 else Broken
      case WriteMsg(ts, _) => if Progress(acts).0 == Raised0 && ts == Progress(acts).1 then Saving(0) else Broken
      case WriteInfo(ts, second, _, last) =>
        var (p, t) := Progress(acts);
        if p.Saving? && p.k < SECONDS && ts == t && second == Add32(Sub32(t, 1), p.k) && last == (p.k == SECONDS - 1)
        then Saving(p.k + 1) else Broken
      case EndSave => if Progress(acts).0 == Saving(SECONDS) then Idle else Broken
    ensures Progress(acts + [a]).1 == if a.Raise? then a.ts else Progress(acts).1
  {
    assert (acts + [a])[..|acts|] == acts;
  }

  lemma BackToTs(t: word)
    ensures Add32(Sub32(t, 1), 1) == t
  {
  }

  lemma TaskOrderly(w: World, e: Event)
    requires Orderly(w) && CanHappen(w, e) && e.Task?
    ensures Orderly(After(w, e))
  {
    var w' := After(w, e);
    BackToTs(Progress(w.acts).1);
    if |w'.acts| > |w.acts| {
      ProgressStep(w.acts, w'.acts[|w.acts|]);
    }
  }

  lemma SampleOrderly(w: World, e: Event)
    requires Orderly(w) && CanHappen(w, e) && e.Sample?
    ensures Orderly(After(w, e))
  {
    if e.kind != NONE && Raises(w.n, After(w, e).n) {
      ProgressStep(w.acts, Raise(e.ts));
    }
  }

  lemma TickOrderly(w: World, e: Event)
    requires Orderly(w) && CanHappen(w, e) && Drained(w, e) && e.Tick?
    ensures Orderly(After(w, e))
  {
    if w.n.saving && !After(w, e).n.saving {
      ProgressStep(w.acts, EndSave);
    }
  }

  lemma EventOrderly(w: World, e: Event)
    requires Orderly(w) && CanHappen(w, e) && Drained(w, e)
    ensures Orderly(After(w, e))
  {
    match e
    case Sample(_, _, _) => SampleOrderly(w, e);
    case Tick(_) => TickOrderly(w, e);
    case Task(_, _, _) => TaskOrderly(w, e);
    case ClearInput(_) =>
    case Missed =>
  }

  /** Main result: in every run whose queue is drained between ticks the outside sees raises, messages,
      exactly three saved seconds in order and the end of the save, and no second raise before that. */
  lemma {:induction false} AlwaysOrderly(ws: seq<World>, es: seq<Event>, i: nat)
    requires IsDrainedRun(ws, es) && i < |ws|
    ensures Orderly(ws[i]) && Progress(ws[i].acts).0 != Broken
  {
    if i > 0 {
      AlwaysOrderly(ws, es, i - 1);
      assert Happens(ws[i - 1], es[i - 1], ws[i - 1 + 1]) && Drained(ws[i - 1], es[i - 1]);
      EventOrderly(ws[i - 1], es[i - 1]);
    }
  }

  /** A second that is not stored yet is asked for again; one that is stored moves the save on; after
      the third the save ends. */
  lemma TickAndTask(w: World, rtc: word, msg: seq<byte>, found: bool, data: seq<byte>)
    requires Orderly(w) && w.n.queue == [] && Progress(w.acts).0.Saving? && rtc > Add32(w.n.alarmTs, w.n.index)
    ensures CanHappen(w, Tick(rtc)) && Drained(w, Tick(rtc))
    ensures var w1 := After(w, Tick(rtc)); var k := Progress(w.acts).0.k;
            if k == SECONDS then Progress(w1.acts).0 == Idle
            else
              && CanHappen(w1, Task(msg, found, data))
              && var w2 := After(w1, Task(msg, found, data));
                 && w2.n.queue == [] && Progress(w2.acts).0 == Saving(if found then k + 1 else k)
  {
    var w1 := After(w, Tick(rtc));
    var k := Progress(w.acts).0.k;
    if k == SECONDS {
      ProgressStep(w.acts, EndSave);
    } else {
      var w2 := After(w1, Task(msg, found, data));
      BackToTs(Progress(w.acts).1);
      if found { ProgressStep(w.acts, w2.acts[|w.acts|]); }
    }
  }

  /** A tick that finds the message of the tick before still in the queue, and the two answers after it. */
  ghost function Undrained(w: World, rtc: word, a1: Answer, a2: Answer): World
    requires w.n.saving && w.n.index < SECONDS && rtc > Add32(w.n.alarmTs, w.n.index) && 0 < |w.n.queue| < QUEUE
  {
    After(After(After(w, Tick(rtc)), Task(a1.msg, a1.found, a1.data)), Task(a2.msg, a2.found, a2.data))
  }

  datatype Answer = Answer(msg: seq<byte>, found: bool, data: seq<byte>)

  /** Draining matters: the second is asked for twice.  The protocol is broken exactly if both messages
      find it; the same second is then stored twice, and the last part of an alarm may be. */
  lemma UndrainedIff(w: World, rtc: word, a1: Answer, a2: Answer)
    requires Orderly(w) && Progress(w.acts).0.Saving? && w.n.queue != [] && rtc > Add32(w.n.alarmTs, w.n.index)
    ensures w.n.index < SECONDS
    ensures var w3 := Undrained(w, rtc, a1, a2); var k := w.n.index;
            && w3.n.queue == []
            && (Progress(w3.acts).0 == Broken <==> a1.found && a2.found)
            && (a1.found != a2.found ==> Progress(w3.acts).0 == Saving(k + 1))
            && (!a1.found && !a2.found ==> w3.acts == w.acts)
            && (a1.found && a2.found ==>
                  var part := Add32(w.n.alarmTs, k);
                  && w3.n.index == k + 2
                  && w3.acts == w.acts + [WriteInfo(Progress(w.acts).1, part, a1.data, k == SECONDS - 1)]
                                + [WriteInfo(Progress(w.acts).1, part, a2.data, k >= SECONDS - 2)])
  {
    var (p, t) := Progress(w.acts);
    BackToTs(t);
    var w1 := After(w, Tick(rtc));
    var w2 := After(w1, Task(a1.msg, a1.found, a1.data));
    var w3 := After(w2, Task(a2.msg, a2.found, a2.data));
    if a1.found { ProgressStep(w.acts, w2.acts[|w.acts|]); }
    if a2.found { ProgressStep(w2.acts, w3.acts[|w2.acts|]); }
    if a1.found && a2.found { OtherSecond(w.n.alarmTs, w.n.index); }
  }

  /** A late alarm message is no harm: the tick's request waits behind it. */
  lemma UndrainedRaise(w: World, rtc: word, a1: Answer, a2: Answer)
    requires Orderly(w) && Progress(w.acts).0 == Raised0 && rtc > Add32(w.n.alarmTs, w.n.index)
    ensures w.n.queue != []
    ensures var w3 := Undrained(w, rtc, a1, a2);
            w3.n.queue == [] && Progress(w3.acts).0 == Saving(if a2.found then 1 else 0)
  {
    BackToTs(Progress(w.acts).1);
    var w1 := After(w, Tick(rtc));
    var w2 := After(w1, Task(a1.msg, a1.found, a1.data));
    var w3 := After(w2, Task(a2.msg, a2.found, a2.data));
    ProgressStep(w.acts, w2.acts[|w.acts|]);
    if a2.found { ProgressStep(w2.acts, w3.acts[|w2.acts|]); }
  }

  /** In every run that was drained so far: the undrained tick and its two answers break the protocol exactly
      if an earlier part is being asked for and both answers find it. */
  lemma UndrainedInRun(ws: seq<World>, es: seq<Event>, i: nat, rtc: word, a1: Answer, a2: Answer)
    requires IsDrainedRun(ws, es) && i < |ws| && ws[i].n.saving && ws[i].n.queue != []
    requires rtc > Add32(ws[i].n.alarmTs, ws[i].n.index)
    ensures ws[i].n.index < SECONDS && |ws[i].n.queue| < QUEUE
    ensures Progress(Undrained(ws[i], rtc, a1, a2).acts).0 == Broken
            <==> Progress(ws[i].acts).0.Saving? && a1.found && a2.found
  {
    AlwaysOrderly(ws, es, i);
    if Progress(ws[i].acts).0.Saving? {
      UndrainedIff(ws[i], rtc, a1, a2);
    } else {
      UndrainedRaise(ws[i], rtc, a1, a2);
    }
  }

  lemma OtherSecond(a: word, k: nat)
    ensures Add32(a, k + 1) != Add32(a, k)
  {
  }

  // ----- debounce -----

  /** Length of the uninterrupted run of same-kind alarming looks at the end. */
  ghost function Streak(looks: seq<Look>): (s: nat)
    ensures s <= |looks|
    ensures s > 0 ==> looks[|looks| - 1].Alarm?
    ensures forall i :: |looks| - s <= i < |looks| ==> looks[i] == looks[|looks| - 1]
  {
    if looks == [] then 0
    else
      var before, last := looks[..|looks| - 1], looks[|looks| - 1];
      if !last.Alarm? then 0
      else if before != [] && before[|before| - 1] == last then Streak(before) + 1 else 1
  }

  ghost predicate Counting(w: World)
  {
    && w.n.num <= DEBOUNCE
    && (w.n.kind == NONE <==> Streak(w.looks) == 0)
    && (w.n.kind != NONE ==> w.looks[|w.looks| - 1] == Alarm(w.n.kind))
    && (w.n.kind != NONE && w.n.sta != Raised ==> w.n.num == Streak(w.looks) - 1 && w.n.num < DEBOUNCE)
  }

  lemma StreakStep(looks: seq<Look>, l: Look)
    ensures Streak(looks + [l]) == if !l.Alarm? then 0
              else if looks != [] && looks[|looks| - 1] == l then Streak(looks) + 1 else 1
  {
    assert (looks + [l])[..|looks|] == looks;
  }

  lemma AlarmingCounting(w: World, e: Event)
    requires Counting(w) && CanHappen(w, e) && e.Sample? && e.kind != NONE
    ensures Counting(After(w, e))
    ensures Raises(w.n, After(w, e).n) <==>
              Evaluated(w.n, e.boot, e.ts) && w.n.sta != Raised && Streak(After(w, e).looks) == DEBOUNCE + 1
  {
    if Evaluated(w.n, e.boot, e.ts) {
      StreakStep(w.looks, Alarm(e.kind));
    }
  }

  lemma EventCounting(w: World, e: Event)
    requires Counting(w) && CanHappen(w, e)
    ensures Counting(After(w, e))
    ensures Raises(w.n, After(w, e).n) <==>
              e.Sample? && e.kind != NONE && Evaluated(w.n, e.boot, e.ts)
              && w.n.sta != Raised && Streak(After(w, e).looks) == DEBOUNCE + 1
  {
    match e
    case Sample(kind, _, _) =>
      if kind != NONE { AlarmingCounting(w, e); } else { StreakStep(w.looks, Fine); }
    case ClearInput(_) => StreakStep(w.looks, Clear);
    case _ =>
  }

  lemma {:induction false} AlwaysCounting(ws: seq<World>, es: seq<Event>, i: nat)
    requires IsRun(ws, es) && i < |ws|
    ensures Counting(ws[i])
  {
    if i > 0 {
      AlwaysCounting(ws, es, i - 1);
      assert Happens(ws[i - 1], es[i - 1], ws[i - 1 + 1]);
      EventCounting(ws[i - 1], es[i - 1]);
    }
  }

  // ----- the same, told by the inputs and what went out -----

  ghost predicate NewRaise(w: World, w': World) {
    |w'.acts| > |w.acts| && w'.acts[|w.acts|].Raise?
  }

  /** Event `j` raised an alarm. */
  ghost predicate RaisedAt(ws: seq<World>, j: nat)
    requires j + 1 < |ws|
  {
    NewRaise(ws[j], ws[j + 1])
  }

  /** A normal sample, or an input in the clearing range. */
  predicate Calms(e: Event) { (e.Sample? && e.kind == NONE) || (e.ClearInput? && e.level) }

  predicate Clears(e: Event) { e.ClearInput? && e.level }

  ghost predicate NoneSince(es: seq<Event>, j: nat, i: nat, calms: bool) {
    forall k :: j < k < i && k < |es| ==> if calms then !Calms(es[k]) else !Clears(es[k])
  }

  /** There was a raise, and no normal sample and no clear since. */
  ghost predicate Standing(ws: seq<World>, es: seq<Event>, i: nat)
    requires |ws| == |es| + 1 && i < |ws|
  {
    exists j :: 0 <= j < i && RaisedAt(ws, j) && NoneSince(es, j, i, true)
  }

  /** There was a raise, and no clear since. */
  ghost predicate Uncleared(ws: seq<World>, es: seq<Event>, i: nat)
    requires |ws| == |es| + 1 && i < |ws|
  {
    exists j :: 0 <= j < i && RaisedAt(ws, j) && NoneSince(es, j, i, false)
  }

  /** An alarm has been raised whose save has not ended. */
  ghost predicate Busy(acts: seq<Act>)
  {
    if acts == [] then false
    else
      match acts[|acts| - 1]
      case Raise(_) => true
      case EndSave => false
      case _ => Busy(acts[..|acts| - 1])
  }

  /** What the sampler has to look at: normal samples; alarming ones after the start time while no alarm is
      being saved; and clears of an alarm not cleared yet. */
  ghost function LooksIn(ws: seq<World>, es: seq<Event>, i: nat): seq<Look>
    requires |ws| == |es| + 1 && i < |ws|
  {
    if i == 0 then []
    else
      LooksIn(ws, es, i - 1) +
      match es[i - 1]
      case Sample(kind, ts, boot) =>
        if kind == NONE then [Fine] else if boot <= ts && !Busy(ws[i - 1].acts) then [Alarm(kind)] else []
      case ClearInput(level) => if level && Uncleared(ws, es, i - 1) then [Clear] else []
      case _ => []
  }

  lemma StandingStep(ws: seq<World>, es: seq<Event>, i: nat)
    requires |ws| == |es| + 1 && 0 < i < |ws|
    ensures Standing(ws, es, i) <==> RaisedAt(ws, i - 1) || (Standing(ws, es, i - 1) && !Calms(es[i - 1]))
    ensures Uncleared(ws, es, i) <==> RaisedAt(ws, i - 1) || (Uncleared(ws, es, i - 1) && !Clears(es[i - 1]))
  {
    hide RaisedAt, Calms, Clears;
    if RaisedAt(ws, i - 1) {
      assert NoneSince(es, i - 1, i, true) && NoneSince(es, i - 1, i, false);
    }
    if Standing(ws, es, i - 1) && !Calms(es[i - 1]) {
      var j :| 0 <= j < i - 1 && RaisedAt(ws, j) && NoneSince(es, j, i - 1, true);
      assert NoneSince(es, j, i, true);
    }
    if Uncleared(ws, es, i - 1) && !Clears(es[i - 1]) {
      var j :| 0 <= j < i - 1 && RaisedAt(ws, j) && NoneSince(es, j, i - 1, false);
      assert NoneSince(es, j, i, false);
    }
    if Standing(ws, es, i) && !RaisedAt(ws, i - 1) {
      var j :| 0 <= j < i && RaisedAt(ws, j) && NoneSince(es, j, i, true);
      assert NoneSince(es, j, i - 1, true);
    }
    if Uncleared(ws, es, i) && !RaisedAt(ws, i - 1) {
      var j :| 0 <= j < i && RaisedAt(ws, j) && NoneSince(es, j, i, false);
      assert NoneSince(es, j, i - 1, false);
    }
  }

  /** What one event does to the standing alarm and to the save. */
  ghost predicate Keeps(w: World, e: Event, w': World)
  {
    && (w'.n.saving <==> Busy(w'.acts)) && (NewRaise(w, w') <==> Raises(w.n, w'.n))
    && (w'.n.sta == Raised <==> NewRaise(w, w') || (w.n.sta == Raised && !Calms(e)))
    && (w'.n.sta != Cleared <==> NewRaise(w, w') || (w.n.sta != Cleared && !Clears(e)))
  }

  lemma BusyStep(acts: seq<Act>, a: Act)
    ensures Busy(acts + [a]) <==> a.Raise? || (Busy(acts) && !a.EndSave?)
  {
    assert (acts + [a])[..|acts|] == acts;
  }

  lemma TaskKeeps(w: World, e: Event)
    requires CanHappen(w, e) && (w.n.saving <==> Busy(w.acts)) && e.Task?
    ensures Keeps(w, e, After(w, e))
  {
    hide Busy;
    var w' := After(w, e);
    if |w'.acts| > |w.acts| { BusyStep(w.acts, w'.acts[|w.acts|]); }
  }

  lemma SampleKeeps(w: World, e: Event)
    requires CanHappen(w, e) && (w.n.saving <==> Busy(w.acts)) && e.Sample?
    ensures Keeps(w, e, After(w, e))
  {
    hide Busy;
    BusyStep(w.acts, Raise(e.ts));
  }

  lemma StateStep(w: World, e: Event)
    requires CanHappen(w, e) && (w.n.saving <==> Busy(w.acts))
    ensures Keeps(w, e, After(w, e))
  {
    match e
    case Sample(_, _, _) => SampleKeeps(w, e);
    case Task(_, _, _) => TaskKeeps(w, e);
    case Tick(_) => hide Busy; BusyStep(w.acts, EndSave);
    case ClearInput(_) =>
    case Missed =>
  }

  /** In every run: the alarm stands exactly between a raise and the next normal sample or clear, the save is on
      exactly between a raise and its end, and what is looked at is told by inputs and actions. */
  lemma {:induction false} AlwaysTold(ws: seq<World>, es: seq<Event>, i: nat)
    requires IsRun(ws, es) && i < |ws|
    ensures ws[i].n.sta == Raised <==> Standing(ws, es, i)
    ensures ws[i].n.sta != Cleared <==> Uncleared(ws, es, i)
    ensures ws[i].n.saving <==> Busy(ws[i].acts)
    ensures ws[i].looks == LooksIn(ws, es, i)
  {
    hide Standing, Uncleared, After, CanHappen;
    if i == 0 {
      NothingYet(ws, es);
    } else {
      AlwaysTold(ws, es, i - 1);
      assert Happens(ws[i - 1], es[i - 1], ws[i - 1 + 1]);
      StateStep(ws[i - 1], es[i - 1]);
      StandingStep(ws, es, i);
      LookStep(ws, es, i);
    }
  }

  lemma NothingYet(ws: seq<World>, es: seq<Event>)
    requires |ws| == |es| + 1
    ensures !Standing(ws, es, 0) && !Uncleared(ws, es, 0)
  {
  }

  lemma LookStep(ws: seq<World>, es: seq<Event>, i: nat)
    requires |ws| == |es| + 1 && 0 < i < |ws| && Happens(ws[i - 1], es[i - 1], ws[i])
    requires ws[i - 1].looks == LooksIn(ws, es, i - 1) && (ws[i - 1].n.saving <==> Busy(ws[i - 1].acts))
    requires ws[i - 1].n.sta != Cleared <==> Uncleared(ws, es, i - 1)
    ensures ws[i].looks == LooksIn(ws, es, i)
  {
    hide Uncleared, Busy, Alarming;
    assert forall l: seq<Look> :: l + [] == l;
  }

  /** Main result, told by inputs and actions: a step raises exactly if it is an alarming sample after the start
      time that makes six of one kind in a row, with nothing being saved and no earlier alarm standing.  The
      raise is for its second, and the queue gets its kind and its second if there is room. */
  lemma RaiseIffSixth(ws: seq<World>, es: seq<Event>, i: nat)
    requires IsRun(ws, es) && i < |es|
    ensures ws[i].n.num <= DEBOUNCE
    ensures var e := es[i];
            NewRaise(ws[i], ws[i + 1]) <==>
              e.Sample? && e.kind != NONE && e.boot <= e.ts && !Busy(ws[i].acts)
              && !Standing(ws, es, i) && Streak(LooksIn(ws, es, i + 1)) == 6
    ensures NewRaise(ws[i], ws[i + 1]) ==>
              && ws[i + 1].acts == ws[i].acts + [Raise(es[i].ts)]
              && ws[i + 1].n.queue == ws[i].n.queue + (if |ws[i].n.queue| < 5 then [Msg(es[i].kind, es[i].ts)] else [])
  {
    hide Standing, Uncleared, LooksIn, Streak, Busy;
    AlwaysCounting(ws, es, i);
    AlwaysTold(ws, es, i);
    AlwaysTold(ws, es, i + 1);
    assert Happens(ws[i], es[i], ws[i + 1]);
    EventCounting(ws[i], es[i]);
    StateStep(ws[i], es[i]);
    assert ws[i].n.queue + [] == ws[i].n.queue;
  }

  /** A tick asks for a second only when that has passed, and otherwise changes nothing; it asks at most once. */
  lemma TickAsks(w: World, rtc: word)
    ensures var w' := After(w, Tick(rtc));
            && (rtc <= Add32(w.n.alarmTs, w.n.index) ==> w' == w)
            && (w'.n.queue == w.n.queue
                || exists ts: word :: ts < rtc && w'.n.queue == w.n.queue + [Msg(SAVE, ts)])
  {
  }

  // ----- the object -----

  class AlarmNotify {
    var kind: nat
    var num: nat
    var alarmSta: Sta
    var saveSta: bool        // ALARM_STA_STR_SAVE
    var index: nat
    var alarmTs: word
    var alarmQueue: seq<Msg>

    ghost function Value(): Notify
      reads this
    {
      Notify(kind, num, alarmSta, saveSta, index, alarmTs, alarmQueue)
    }

    /** `Alarm_Notify_Init`. */
    constructor ()
      ensures Value() == Notify(NONE, 0, Cleared, false, 0, 0, [])
    {
      kind, num, alarmSta, saveSta, index, alarmTs, alarmQueue := NONE, 0, Cleared, false, 0, 0, [];
    }

    /** `xQueueSendToBack` without waiting. */
    method Send(m: Msg) returns (ok: bool)
      modifies this`alarmQueue
      ensures ok == (|old(alarmQueue)| < QUEUE)
      ensures alarmQueue == if ok then old(alarmQueue) + [m] else old(alarmQueue)
    {
      ok := |alarmQueue| < QUEUE;
      if ok {
        alarmQueue := alarmQueue + [m];
      }
    }

    /** `Adc_Check_Alarm`; the thresholds have turned the sample into `alarm`. */
    method CheckAlarm(alarm: nat, ts: word, bootTs: word)
      modifies this
      ensures Value() == if alarm != NONE then Alarming(old(Value()), bootTs, alarm, ts) else Normal(old(Value()))
    {
      if alarm != NONE {
        if saveSta || bootTs > ts {
          return;
        }
        if alarm == kind {
          if alarmSta == Raised {
            return;
          }
          num := num + 1;
          if num < DEBOUNCE {
            return;
          }
        } else {
          num := 0;
          kind := alarm;
          return;
        }
        alarmSta := Raised;
        saveSta := true;
        alarmTs := Sub32(ts, 1);
        index := 0;
        var _ := Send(Msg(alarm, ts));
      } else {
        if kind != NONE {
          kind := NONE;
        }
        if alarmSta == Raised {
          alarmSta := Recovery;
        }
      }
    }

    /** `Adc_Clear_Alarm`. */
    method ClearAlarm(inRange: bool)
      modifies this
      ensures Value() == Clearing(old(Value()), inRange)
    {
      if alarmSta == Raised || alarmSta == Recovery {
        if inRange {
          alarmSta := Cleared;
          kind := NONE;
        }
      }
    }

    /** The end of `time_sync_task`. */
    method Second(rtc: word)
      modifies this
      ensures Value() == Ticked(old(Value()), rtc)
    {
      if saveSta && rtc > Add32(alarmTs, index) {
        SaveAlarm();
      }
    }

    /** `Adc_Save_Alarm`. */
    method SaveAlarm()
      requires saveSta
      modifies this
      ensures Value() == if old(index) >= SECONDS then old(Value()).(saving := false, index := 0)
                         else old(Value()).(queue := if |old(alarmQueue)| < QUEUE
                                then old(alarmQueue) + [Msg(SAVE, Add32(alarmTs, old(index)))] else old(alarmQueue))
    {
      if index >= SECONDS && saveSta {
        saveSta := false;
        index := 0;
        return;
      }
      var _ := Send(Msg(SAVE, Add32(alarmTs, index)));
    }

    /** One message in `alarm_task`: what is to be written where, if anything. */
    method HandleMessage(msg: seq<byte>, found: bool, data: seq<byte>) returns (act: seq<Act>)
      requires alarmQueue != []
      modifies this
      ensures Value() == Handled(old(Value()), found)
      ensures act == var m := old(alarmQueue)[0];
        if BusAlarm(m.kind) then [WriteMsg(m.ts, msg)]
        else if m.kind == SAVE && found then [WriteInfo(Add32(alarmTs, 1), m.ts, data, index >= SECONDS)] else []
    {
      var m := alarmQueue[0];
      alarmQueue := alarmQueue[1..];
      act := [];
      if 1 <= m.kind <= 3 {
        act := [WriteMsg(m.ts, msg)];
      } else if m.kind == SAVE {
        if found {
          index := index + 1;
          act := [WriteInfo(Add32(alarmTs, 1), m.ts, data, index >= SECONDS)];
        }
      }
    }
  }
}
