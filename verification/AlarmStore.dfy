/** The alarm store on NOR flash: 32-byte messages from address 0, 192000-byte sample records from
    20480, and 16-byte index entries from 0x7C00000, for 640 alarms per chip erase. */
module AlarmStore {
  import opened Bytes
  import opened Records
  import opened NorFlash

  const MSG := 32                       // sizeof(AlarmMsg_t)
  const INFO_START := 20_480            // AlARM_INFO_START_ADDR
  const INFO := 192_000                 // ALARM_ITEM_SIZE - 32
  const INDEX_START := 0x7C0_0000       // ALARM_INDEX_START_ADDR
  const ENTRY := 16                     // sizeof(AlarmIndexItem_t)
  const PER_PAGE := 16                  // ALARM_INDEX_NUM_PRE_PAGE
  const TOTAL := 640                    // ALARM_ITEM_TOATL_NUM
  const ERASED_TS := 0xFFFF_FFFF        // the timestamp an erased index entry shows

  /** `AlarmObject_t`. */
  datatype Store = Store(addr: nat, infoAddr: nat, indexAddr: nat, indexNum: nat, item: AlarmItem)

  datatype Alarm = Alarm(ts: word, msg: seq<byte>, info: seq<byte>)

  /** A complete history and perhaps one alarm whose sample record is still being written. */
  datatype Pending = Nothing | Collecting(ts: word, msg: seq<byte>, info: seq<byte>)

  function Entry(hist: seq<Alarm>, i: nat): AlarmItem
    requires i < |hist| <= TOTAL
  {
    AlarmItem(MSG * i, INFO_START + INFO * i, hist[i].ts)
  }

  ghost predicate WellFormed(hist: seq<Alarm>, pend: Pending)
  {
    && |hist| <= TOTAL && (pend.Collecting? ==> |hist| < TOTAL)
    && (forall i :: 0 <= i < |hist| ==> |hist[i].msg| == MSG && |hist[i].info| == INFO)
    && (pend.Collecting? ==> |pend.msg| == MSG && |pend.info| < INFO)
    && (forall i, j :: 0 <= i < j < |hist| ==> hist[i].ts != hist[j].ts)
    && (forall i :: 0 <= i < |hist| ==> pend.Collecting? ==> hist[i].ts != pend.ts)
  }

  /** The three areas' first free addresses. */
  function MsgEnd(n: nat, pend: Pending): nat { MSG * n + if pend.Collecting? then MSG else 0 }
  function InfoEnd(n: nat, pend: Pending): nat { INFO_START + INFO * n + if pend.Collecting? then |pend.info| else 0 }
  function IndexEnd(n: nat): nat { INDEX_START + ENTRY * n }

  ghost predicate Kept(mem: seq<byte>, hist: seq<Alarm>, i: nat)
    requires i < |hist| <= TOTAL
  {
    && Stands(mem, MSG * i, hist[i].msg)
    && Stands(mem, INFO_START + INFO * i, hist[i].info)
    && Stands(mem, INDEX_START + ENTRY * i, PutAlarmItem(Entry(hist, i)))
  }

  ghost predicate PendingKept(mem: seq<byte>, n: nat, pend: Pending)
  {
    pend.Collecting? ==> Stands(mem, MSG * n, pend.msg) && Stands(mem, INFO_START + INFO * n, pend.info)
  }

  /** Every byte behind the three areas' ends is erased. */
  ghost predicate FreeErased(mem: seq<byte>, hist: seq<Alarm>, pend: Pending)
    requires |mem| == CHIP && WellFormed(hist, pend)
  {
    var n := |hist|;
    && Erased(mem, MsgEnd(n, pend), INFO_START - MsgEnd(n, pend))
    && Erased(mem, InfoEnd(n, pend), INDEX_START - InfoEnd(n, pend))
    && Erased(mem, IndexEnd(n), CHIP - IndexEnd(n))
  }

  /** Where the object stands; after alarm 640 it starts over on cells that are no longer erased. */
  ghost predicate At(s: Store, hist: seq<Alarm>, pend: Pending)
  {
    && s.indexNum == |hist|
    && (|hist| < TOTAL ==>
          && s.addr == MsgEnd(|hist|, pend) && s.infoAddr == InfoEnd(|hist|, pend) && s.indexAddr == IndexEnd(|hist|))
    && (pend.Collecting? && |hist| < TOTAL ==>
          s.item == AlarmItem(MSG * |hist|, INFO_START + INFO * |hist|, pend.ts))
  }

  /** The chip holds exactly `hist` and the part of the pending alarm written so far. */
  ghost predicate Recorded(s: Store, mem: seq<byte>, hist: seq<Alarm>, pend: Pending)
  {
    && |mem| == CHIP && WellFormed(hist, pend) && At(s, hist, pend)
    && (forall i :: 0 <= i < |hist| ==> Kept(mem, hist, i))
    && PendingKept(mem, |hist|, pend)
    && FreeErased(mem, hist, pend)
  }

  // ----- one write into erased cells -----

  lemma KeptElsewhere(mem: seq<byte>, hist: seq<Alarm>, i: nat, off: nat, data: seq<byte>)
    requires |mem| == CHIP && |hist| <= TOTAL && i < |hist| && Kept(mem, hist, i)
    requires |hist[i].msg| == MSG && |hist[i].info| == INFO && off + |data| <= CHIP
    requires MSG * |hist| <= off && (off + |data| <= INFO_START || INFO_START + INFO * |hist| <= off)
    requires off + |data| <= INDEX_START || INDEX_START + ENTRY * |hist| <= off
    ensures Kept(Splice(mem, off, data), hist, i)
  {
    StandsElsewhere(mem, MSG * i, hist[i].msg, off, data);
    StandsElsewhere(mem, INFO_START + INFO * i, hist[i].info, off, data);
    StandsElsewhere(mem, INDEX_START + ENTRY * i, PutAlarmItem(Entry(hist, i)), off, data);
  }

  lemma AllKeptElsewhere(mem: seq<byte>, hist: seq<Alarm>, off: nat, data: seq<byte>)
    requires |mem| == CHIP && |hist| <= TOTAL && (forall i :: 0 <= i < |hist| ==> Kept(mem, hist, i))
    requires (forall i :: 0 <= i < |hist| ==> |hist[i].msg| == MSG && |hist[i].info| == INFO) && off + |data| <= CHIP
    requires MSG * |hist| <= off && (off + |data| <= INFO_START || INFO_START + INFO * |hist| <= off)
    requires off + |data| <= INDEX_START || INDEX_START + ENTRY * |hist| <= off
    ensures forall i :: 0 <= i < |hist| ==> Kept(Splice(mem, off, data), hist, i)
  {
    forall i | 0 <= i < |hist| ensures Kept(Splice(mem, off, data), hist, i) {
      KeptElsewhere(mem, hist, i, off, data);
    }
  }

  lemma ErasedElsewhere(mem: seq<byte>, at: nat, len: nat, off: nat, data: seq<byte>)
    requires at + len <= |mem| && off + |data| <= |mem| && Erased(mem, at, len)
    requires at + len <= off || off + |data| <= at
    ensures Erased(Splice(mem, off, data), at, len)
  {
  }

  lemma ErasedPart(mem: seq<byte>, at: nat, len: nat, at': nat, len': nat)
    requires at + len <= |mem| && Erased(mem, at, len) && at <= at' && at' + len' <= at + len
    ensures Erased(mem, at', len')
  {
  }

  /** `Storage_Write_AlarmMsg`: object and chip after it. */
  function MsgStore(s: Store, ts: word): Store
    requires s.addr < U32 && s.infoAddr < U32
  {
    s.(addr := s.addr + MSG, item := AlarmItem(s.addr, s.infoAddr, ts))
  }

  /** Storing a message touches erased cells only and opens the alarm. */
  lemma MsgRecorded(s: Store, mem: seq<byte>, hist: seq<Alarm>, ts: word, msg: seq<byte>)
    requires Recorded(s, mem, hist, Nothing) && |hist| < TOTAL && |msg| == MSG
    requires forall i :: 0 <= i < |hist| ==> hist[i].ts != ts
    ensures Erased(mem, s.addr, MSG)
    ensures Recorded(MsgStore(s, ts), Programmed(mem, s.addr, msg), hist, Collecting(ts, msg, []))
  {
    var n := |hist|;
    var off := MSG * n;
    ErasedPart(mem, MsgEnd(n, Nothing), INFO_START - MsgEnd(n, Nothing), off, MSG);
    ProgramErased(mem, off, msg);
    var m := Splice(mem, off, msg);
    StandsHere(mem, off, msg);
    AllKeptElsewhere(mem, hist, off, msg);
    var pend := Collecting(ts, msg, []);
    ErasedPart(mem, off, INFO_START - off, off + MSG, INFO_START - (off + MSG));
    ErasedElsewhere(mem, off + MSG, INFO_START - (off + MSG), off, msg);
    ErasedElsewhere(mem, InfoEnd(n, Nothing), INDEX_START - InfoEnd(n, Nothing), off, msg);
    ErasedElsewhere(mem, IndexEnd(n), CHIP - IndexEnd(n), off, msg);
  }

  /** `Storage_Write_AlarmInfo`: the object after an accepted call. */
  function InfoStore(s: Store, len: nat, last: bool): Store {
    var s1 := s.(infoAddr := s.infoAddr + len);
    if !last then s1
    else if s.indexNum + 1 >= TOTAL then
      s1.(indexNum := TOTAL, addr := 0, infoAddr := INFO_START, indexAddr := INDEX_START)
    else s1.(indexAddr := s.indexAddr + ENTRY, indexNum := s.indexNum + 1)
  }

  function InfoMem(s: Store, mem: seq<byte>, data: seq<byte>, last: bool): (m: seq<byte>)
    requires s.infoAddr + |data| <= |mem| && s.indexAddr + ENTRY <= |mem|
    ensures |m| == |mem|
  {
    var m := Programmed(mem, s.infoAddr, data);
    if last then Programmed(m, s.indexAddr, PutAlarmItem(s.item)) else m
  }

  function MoreInfo(pend: Pending, data: seq<byte>): Pending
    requires pend.Collecting?
  {
    pend.(info := pend.info + data)
  }

  /** The sample bytes of a pending alarm: erased cells only, right behind the ones before. */
  lemma InfoStands(s: Store, mem: seq<byte>, hist: seq<Alarm>, pend: Pending, data: seq<byte>)
    requires Recorded(s, mem, hist, pend) && pend.Collecting? && |pend.info| + |data| <= INFO
    ensures s.infoAddr + |data| <= INDEX_START && Erased(mem, s.infoAddr, |data|)
    ensures var m := Programmed(mem, s.infoAddr, data); var n := |hist|;
            && m == Splice(mem, s.infoAddr, data)
            && (forall i :: 0 <= i < |hist| ==> Kept(m, hist, i))
            && Stands(m, MSG * n, pend.msg) && Stands(m, INFO_START + INFO * n, pend.info + data)
            && Erased(m, MsgEnd(n, pend), INFO_START - MsgEnd(n, pend))
            && Erased(m, s.infoAddr + |data|, INDEX_START - (s.infoAddr + |data|))
            && Erased(m, IndexEnd(n), CHIP - IndexEnd(n))
  {
    var n, off := |hist|, InfoEnd(|hist|, pend);
    var end := off + |data|;
    ErasedPart(mem, off, INDEX_START - off, off, |data|);
    ProgramErased(mem, off, data);
    AllKeptElsewhere(mem, hist, off, data);
    StandsElsewhere(mem, MSG * n, pend.msg, off, data);
    StandsGrows(mem, INFO_START + INFO * n, pend.info, data);
    ErasedElsewhere(mem, MsgEnd(n, pend), INFO_START - MsgEnd(n, pend), off, data);
    ErasedPart(mem, off, INDEX_START - off, end, INDEX_START - end);
    ErasedElsewhere(mem, end, INDEX_START - end, off, data);
    ErasedElsewhere(mem, IndexEnd(n), CHIP - IndexEnd(n), off, data);
  }

  lemma StandsGrows(mem: seq<byte>, at: nat, x: seq<byte>, y: seq<byte>)
    requires Stands(mem, at, x) && at + |x| + |y| <= |mem|
    ensures Stands(Splice(mem, at + |x|, y), at, x + y)
  {
    var m := Splice(mem, at + |x|, y);
    assert m[at..at + |x + y|] == m[at..at + |x|] + m[at + |x|..at + |x| + |y|];
    StandsElsewhere(mem, at, x, at + |x|, y);
  }

  /** A part that is not the last keeps the alarm open. */
  lemma InfoRecorded(s: Store, mem: seq<byte>, hist: seq<Alarm>, pend: Pending, data: seq<byte>)
    requires Recorded(s, mem, hist, pend) && pend.Collecting? && |pend.info| + |data| < INFO
    ensures s.infoAddr + |data| <= CHIP && s.indexAddr + ENTRY <= CHIP
    ensures Recorded(InfoStore(s, |data|, false), InfoMem(s, mem, data, false), hist, MoreInfo(pend, data))
  {
    InfoStands(s, mem, hist, pend, data);
  }

  /** The index entry that closes an alarm, written into erased cells. */
  lemma IndexStands(m: seq<byte>, hist: seq<Alarm>, a: Alarm)
    requires |m| == CHIP && |hist| < TOTAL && (forall i :: 0 <= i < |hist| ==> Kept(m, hist, i))
    requires forall i :: 0 <= i < |hist| ==> |hist[i].msg| == MSG && |hist[i].info| == INFO
    requires |a.msg| == MSG && |a.info| == INFO
    requires Stands(m, MSG * |hist|, a.msg) && Stands(m, INFO_START + INFO * |hist|, a.info)
    requires Erased(m, IndexEnd(|hist|), CHIP - IndexEnd(|hist|))
    ensures Erased(m, IndexEnd(|hist|), ENTRY)
    ensures var e := PutAlarmItem(Entry(hist + [a], |hist|)); var m2 := Programmed(m, IndexEnd(|hist|), e);
            && m2 == Splice(m, IndexEnd(|hist|), e)
            && forall i :: 0 <= i < |hist + [a]| ==> Kept(m2, hist + [a], i)
  {
    hide Stands, Erased, PutAlarmItem, Programmed;
    var n, e, off := |hist|, PutAlarmItem(Entry(hist + [a], |hist|)), IndexEnd(|hist|);
    EntryWritten(m, off, e);
    var m2 := Splice(m, off, e);
    AllKeptElsewhere(m, hist, off, e);
    NewEntryStands(m, n, a, off, e);
    KeptNew(m2, hist, a);
    forall i | 0 <= i < |hist + [a]| ensures Kept(m2, hist + [a], i) {
      if i < n { KeptLonger(m2, hist, a, i); }
    }
  }

  lemma EntryWritten(m: seq<byte>, off: nat, e: seq<byte>)
    requires |m| == CHIP && off + ENTRY <= CHIP && |e| == ENTRY && Erased(m, off, CHIP - off)
    ensures Erased(m, off, ENTRY) && Programmed(m, off, e) == Splice(m, off, e)
  {
    ErasedPart(m, off, CHIP - off, off, ENTRY);
    ProgramErased(m, off, e);
  }

  lemma NewEntryStands(m: seq<byte>, n: nat, a: Alarm, off: nat, e: seq<byte>)
    requires |m| == CHIP && n < TOTAL && |a.msg| == MSG && |a.info| == INFO && |e| == ENTRY && off == IndexEnd(n)
    requires Stands(m, MSG * n, a.msg) && Stands(m, INFO_START + INFO * n, a.info)
    ensures var m2 := Splice(m, off, e);
            Stands(m2, MSG * n, a.msg) && Stands(m2, INFO_START + INFO * n, a.info) && Stands(m2, off, e)
  {
    StandsElsewhere(m, MSG * n, a.msg, off, e);
    StandsElsewhere(m, INFO_START + INFO * n, a.info, off, e);
    StandsHere(m, off, e);
  }

  lemma KeptNew(mem: seq<byte>, hist: seq<Alarm>, a: Alarm)
    requires |hist| < TOTAL
    requires Stands(mem, MSG * |hist|, a.msg) && Stands(mem, INFO_START + INFO * |hist|, a.info)
    requires Stands(mem, INDEX_START + ENTRY * |hist|, PutAlarmItem(Entry(hist + [a], |hist|)))
    ensures Kept(mem, hist + [a], |hist|)
  {
  }

  lemma KeptLonger(mem: seq<byte>, hist: seq<Alarm>, a: Alarm, i: nat)
    requires i < |hist| < TOTAL && Kept(mem, hist, i)
    ensures Kept(mem, hist + [a], i)
  {
    assert (hist + [a])[i] == hist[i];
  }

  /** The last part completes the alarm; the object is ready for the next one until 640 are stored. */
  lemma LastInfoRecorded(s: Store, mem: seq<byte>, hist: seq<Alarm>, pend: Pending, data: seq<byte>)
    requires Recorded(s, mem, hist, pend) && pend.Collecting? && |pend.info| + |data| == INFO
    ensures s.infoAddr + |data| <= CHIP && s.indexAddr + ENTRY <= CHIP
    ensures Erased(mem, s.indexAddr, ENTRY)
    ensures var a := Alarm(pend.ts, pend.msg, pend.info + data);
            Recorded(InfoStore(s, |data|, true), InfoMem(s, mem, data, true), hist + [a], Nothing)
  {
    var n := |hist|;
    var a := Alarm(pend.ts, pend.msg, pend.info + data);
    InfoStands(s, mem, hist, pend, data);
    var m := Programmed(mem, s.infoAddr, data);
    IndexStands(m, hist, a);
    var e, off := PutAlarmItem(Entry(hist + [a], n)), IndexEnd(n);
    assert s.item == Entry(hist + [a], n);
    ErasedPart(mem, off, CHIP - off, off, ENTRY);
    ErasedElsewhere(m, MsgEnd(n, pend), INFO_START - MsgEnd(n, pend), off, e);
    ErasedElsewhere(m, InfoEnd(n + 1, Nothing), INDEX_START - InfoEnd(n + 1, Nothing), off, e);
    ErasedPart(m, off, CHIP - off, off + ENTRY, CHIP - (off + ENTRY));
    ErasedElsewhere(m, off + ENTRY, CHIP - (off + ENTRY), off, e);
    NextHistory(hist, pend, a);
  }

  /** A last part that comes twice, as after two undrained ticks: the alarms stay readable, but the second
      part and a second index entry take cells of the next alarm, and no history explains the chip. */
  lemma DoubledLast(s: Store, mem: seq<byte>, hist: seq<Alarm>, pend: Pending, data: seq<byte>, again: seq<byte>)
    requires Recorded(s, mem, hist, pend) && pend.Collecting? && |hist| + 1 < TOTAL
    requires |pend.info| + |data| == INFO && |again| <= INFO
    ensures s.infoAddr + |data| <= CHIP && s.indexAddr + ENTRY <= CHIP
    ensures var s1, m1 := InfoStore(s, |data|, true), InfoMem(s, mem, data, true);
            var all := hist + [Alarm(pend.ts, pend.msg, pend.info + data)];
            && s1.infoAddr + |again| <= CHIP && s1.indexAddr + ENTRY <= CHIP
            && var s2, m2 := InfoStore(s1, |again|, true), InfoMem(s1, m1, again, true);
               && (forall i :: 0 <= i < |all| ==> Kept(m2, all, i))
               && (forall other: seq<Alarm>, more: Pending :: !Recorded(s2, m2, other, more))
  {
    var n := |hist|;
    var all := hist + [Alarm(pend.ts, pend.msg, pend.info + data)];
    LastInfoRecorded(s, mem, hist, pend, data);
    var s1, m1 := InfoStore(s, |data|, true), InfoMem(s, mem, data, true);
    var s2, m2 := InfoStore(s1, |again|, true), InfoMem(s1, m1, again, true);
    ExtraInfo(s1, m1, all, again);
    forall other: seq<Alarm>, more: Pending ensures !Recorded(s2, m2, other, more) {
      NoHistory(s2, m2, n, s.item, other, more);
    }
  }

  /** The entry of alarm `n` in the cell of alarm `n + 1` fits no history. */
  lemma NoHistory(s: Store, mem: seq<byte>, n: nat, item: AlarmItem, other: seq<Alarm>, more: Pending)
    requires n + 2 <= TOTAL && |mem| == CHIP && s.indexNum == n + 2 && item.msgAddr == MSG * n
    requires Stands(mem, IndexEnd(n + 1), PutAlarmItem(item))
    ensures !Recorded(s, mem, other, more)
  {
    AlarmItemRoundTrip(mem, IndexEnd(n + 1), item);
    if |other| == n + 2 {
      assert Entry(other, n + 1) != item;
      if Kept(mem, other, n + 1) {
        EntryStands(mem, other, n + 1);
      }
    }
  }

  /** Another part and its index entry behind a complete history. */
  lemma ExtraInfo(s: Store, mem: seq<byte>, hist: seq<Alarm>, data: seq<byte>)
    requires Recorded(s, mem, hist, Nothing) && |hist| < TOTAL && |data| <= INFO
    ensures s.infoAddr + |data| <= CHIP && s.indexAddr + ENTRY <= CHIP
    ensures var m := InfoMem(s, mem, data, true);
            && (forall i :: 0 <= i < |hist| ==> Kept(m, hist, i))
            && Stands(m, IndexEnd(|hist|), PutAlarmItem(s.item))
  {
    var n := |hist|;
    var off, at, e := InfoEnd(n, Nothing), IndexEnd(n), PutAlarmItem(s.item);
    ErasedPart(mem, off, INDEX_START - off, off, |data|);
    ProgramErased(mem, off, data);
    AllKeptElsewhere(mem, hist, off, data);
    var m := Splice(mem, off, data);
    ErasedElsewhere(mem, at, CHIP - at, off, data);
    ErasedPart(m, at, CHIP - at, at, ENTRY);
    ProgramErased(m, at, e);
    AllKeptElsewhere(m, hist, at, e);
    StandsHere(m, at, e);
  }

  lemma NextHistory(hist: seq<Alarm>, pend: Pending, a: Alarm)
    requires WellFormed(hist, pend) && pend.Collecting? && a.ts == pend.ts && a.msg == pend.msg && |a.info| == INFO
    ensures WellFormed(hist + [a], Nothing)
  {
  }

  /** `Storage_Clear_AlarmData` and a first start: everything erased, nothing recorded. */
  lemma ClearRecorded(s: Store, mem: seq<byte>)
    requires |mem| == CHIP && Erased(mem, 0, CHIP) && s.(item := AlarmItem(0, 0, 0)) == Restarted(0)
    ensures Recorded(s, mem, [], Nothing)
  {
  }

  // ----- restart -----

  /** The store that resumes behind `alarmNum` alarms. */
  function Restarted(alarmNum: nat): Store {
    Store(MSG * alarmNum, INFO_START + INFO * alarmNum, INDEX_START + ENTRY * alarmNum, alarmNum, AlarmItem(0, 0, 0))
  }

  /** `Alarm_Object_Init`: the saved count is used with NEXT_ON only, and a flag it does not know leaves the
      cleared object. */
  function Initialised(alarmNum: nat, flag: nat): Store {
    if flag == FIRST_ON then Restarted(0)
    else if flag == NEXT_ON then Restarted(alarmNum)
    else Store(0, 0, 0, 0, AlarmItem(0, 0, 0))
  }

  /** Behind an erase only the two known flags start the store where it belongs. */
  lemma InitialisedIff(alarmNum: nat, flag: nat, mem: seq<byte>)
    requires |mem| == CHIP && Erased(mem, 0, CHIP)
    ensures Recorded(Initialised(alarmNum, flag), mem, [], Nothing)
            <==> flag == FIRST_ON || (flag == NEXT_ON && alarmNum == 0)
  {
    if flag == FIRST_ON || (flag == NEXT_ON && alarmNum == 0) {
      ClearRecorded(Restarted(0), mem);
    }
  }

  /** A restart resumes the record exactly when the saved count is current and the cells of an alarm
      in progress were not programmed yet: the message slot is not skipped and would be ANDed. */
  lemma RestartIff(s: Store, mem: seq<byte>, hist: seq<Alarm>, pend: Pending, k: nat)
    requires Recorded(s, mem, hist, pend) && k <= |hist|
    ensures Recorded(Restarted(k), mem, hist[..k], Nothing) <==>
              k == |hist| && (pend.Collecting? ==> AllOnes(pend.msg) && AllOnes(pend.info))
  {
    var n := |hist|;
    if k == n {
      assert hist[..k] == hist;
      if pend.Collecting? {
        ErasedIff(mem, MSG * n, pend.msg, INFO_START - MSG * n);
        ErasedIff(mem, INFO_START + INFO * n, pend.info, INDEX_START - (INFO_START + INFO * n));
      }
    } else {
      assert Kept(mem, hist, k);
      var e, at := PutAlarmItem(Entry(hist, k)), INDEX_START + ENTRY * k;
      assert mem[at + 3] == mem[at..at + ENTRY][3] == e[3];
      SmallWord(MSG * k);
      assert e[3] == PutWord(MSG * k)[3] == 0;
    }
  }

  lemma SmallWord(v: word)
    requires v < 0x100_0000
    ensures PutWord(v)[3] == 0
  {
  }

  ghost predicate AllOnes(b: seq<byte>) {
    forall i :: 0 <= i < |b| ==> b[i] == 0xFF
  }

  lemma ErasedIff(mem: seq<byte>, at: nat, data: seq<byte>, len: nat)
    requires Stands(mem, at, data) && |data| <= len && at + len <= |mem|
    requires Erased(mem, at + |data|, len - |data|)
    ensures Erased(mem, at, len) <==> AllOnes(data)
  {
    assert forall i :: 0 <= i < |data| ==> data[i] == mem[at..at + |data|][i] == mem[at + i];
    if AllOnes(data) {
      forall p | at <= p < at + len ensures mem[p] == 0xFF {
        if p < at + |data| { assert data[p - at] == mem[p]; }
      }
    }
  }

  // ----- the object -----

  /** The timestamp an index cell shows: that of its alarm, or 0xFFFFFFFF behind the last one. */
  lemma CellShows(mem: seq<byte>, hist: seq<Alarm>, i: nat)
    requires |mem| == CHIP && |hist| <= TOTAL && i < TOTAL && (forall j :: 0 <= j < |hist| ==> Kept(mem, hist, j))
    requires Erased(mem, IndexEnd(|hist|), CHIP - IndexEnd(|hist|))
    ensures i < |hist| ==> GetAlarmItem(mem, INDEX_START + ENTRY * i) == Entry(hist, i)
    ensures i >= |hist| ==> GetAlarmItem(mem, INDEX_START + ENTRY * i).ts == ERASED_TS
  {
    if i < |hist| { EntryStands(mem, hist, i); }
  }

  class AlarmObject {
    const flash: Flash
    var addr: nat
    var infoAddr: nat
    var indexAddr: nat
    var indexNum: nat
    var indexItem: AlarmItem
    var savedNum: nat       // g_ConfigInfo.alarm_num

    ghost function Value(): Store
      reads this
    {
      Store(addr, infoAddr, indexAddr, indexNum, indexItem)
    }

    /** `Alarm_Object_Init`; `alarmNum` and `flag` come from the configuration record. */
    constructor (flash: Flash, alarmNum: nat, flag: nat)
      requires flash.Valid()
      ensures this.flash == flash && Value() == Initialised(alarmNum, flag) && savedNum == alarmNum
    {
      this.flash := flash;
      savedNum := alarmNum;
      addr, infoAddr, indexAddr, indexNum, indexItem := 0, 0, 0, 0, AlarmItem(0, 0, 0);
      if flag == FIRST_ON {
        addr := 0;
        infoAddr := INFO_START;
        indexAddr := INDEX_START;
      } else if flag == NEXT_ON {
        indexNum := alarmNum;
        addr := MSG * alarmNum;
        infoAddr := INFO_START + INFO * alarmNum;
        indexAddr := INDEX_START + ENTRY * alarmNum;
      }
    }

    /** `Storage_Write_AlarmMsg`. */
    method WriteAlarmMsg(ts: word, data: seq<byte>) returns (ret: int)
      requires flash.Valid() && |data| == MSG && addr + MSG <= CHIP && infoAddr < U32
      modifies this, flash
      ensures ret == 0 && flash.Valid() && savedNum == old(savedNum)
      ensures Value() == MsgStore(old(Value()), ts)
      ensures flash.mem == Programmed(old(flash.mem), old(addr), data)
    {
      flash.WriteData(addr, data);
      indexItem := AlarmItem(addr, infoAddr, ts);
      addr := addr + MSG;
      ret := 0;
    }

    /** `Storage_Write_AlarmInfo`: refused unless the timestamp is that of the open alarm. */
    method WriteAlarmInfo(ts: word, data: seq<byte>, last: bool) returns (ret: int)
      requires flash.Valid() && infoAddr + |data| <= CHIP && indexAddr + ENTRY <= CHIP
      modifies this, flash
      ensures flash.Valid() && ret == (if ts == old(indexItem).ts then 0 else -1)
      ensures ret == 0 ==>
        && Value() == InfoStore(old(Value()), |data|, last)
        && flash.mem == InfoMem(old(Value()), old(flash.mem), data, last)
        && savedNum == if last then indexNum else old(savedNum)
      ensures ret == -1 ==> Value() == old(Value()) && flash.mem == old(flash.mem) && savedNum == old(savedNum)
    {
      if ts != indexItem.ts {
        return -1;
      }
      flash.WriteData(infoAddr, data);
      infoAddr := infoAddr + |data|;
      if last {
        flash.WriteData(indexAddr, PutAlarmItem(indexItem));
        indexAddr := indexAddr + ENTRY;
        indexNum := indexNum + 1;
        if indexNum >= TOTAL {
          indexNum := TOTAL;
          addr := 0;
          infoAddr := INFO_START;
          indexAddr := INDEX_START;
        }
        savedNum := indexNum;
      }
      return 0;
    }

    /** `Storage_Clear_AlarmData`: an empty store on an erased chip. */
    method ClearAlarmData()
      modifies this, flash
      ensures flash.Valid() && Recorded(Value(), flash.mem, [], Nothing) && savedNum == old(savedNum)
    {
      addr, infoAddr, indexAddr, indexNum := 0, INFO_START, INDEX_START, 0;
      flash.EraseChip();
      ClearRecorded(Value(), flash.mem);
    }

    /** One page of the index searched from the front; `i` counts from the start of the index. */
    method ScanPage(ts: word, num: nat) returns (found: bool, item: AlarmItem, i: nat)
      requires flash.Valid() && num + PER_PAGE <= TOTAL
      ensures found ==>
        && num <= i < num + PER_PAGE && item == GetAlarmItem(flash.mem, INDEX_START + ENTRY * i) && item.ts == ts
      ensures forall k :: num <= k < (if found then i else num + PER_PAGE) ==> Shows(flash.mem, k) != ts
    {
      hide ReadFrom;
      found, item, i := false, AlarmItem(0, 0, 0), 0;
      var at := INDEX_START + ENTRY * num;
      var buf := flash.ReadData(at, PAGE);
      for j := 0 to PER_PAGE
        invariant forall k :: num <= k < num + j ==> Shows(flash.mem, k) != ts
      {
        SameAlarmItem(flash.mem, at, buf, ENTRY * j);
        var it := GetAlarmItem(buf, ENTRY * j);
        assert Shows(flash.mem, num + j) == it.ts;
        if ts == it.ts {
          return true, it, num + j;
        }
      }
    }

    /** `Storage_Read_AlarmInfo`: 0 with the bytes behind the first searched index cell that shows the
        timestamp.  On a chip that holds `hist` that is 0 with the stored bytes exactly for the recorded
        timestamps, with one exception: 0xFFFFFFFF, which an erased entry shows, is found as soon as the
        last page searched is not full. */
    method ReadAlarmInfo(ts: word, off: nat, len: nat, ghost hist: seq<Alarm>, ghost pend: Pending)
      returns (ret: int, data: seq<byte>)
      requires flash.Valid() && indexNum <= TOTAL && off + len <= INFO
      ensures ret == 0 || ret == -1
      ensures ret == 0 <==> exists k :: 0 <= k < Searched(indexNum) && Shows(flash.mem, k) == ts
      ensures forall k :: 0 <= k < Searched(indexNum) && FirstShown(flash.mem, k, ts) ==>
                data == BytesBehind(flash.mem, k, off, len)
      ensures Recorded(Value(), flash.mem, hist, pend) ==>
        && (ret == 0 <==> (exists i :: 0 <= i < |hist| && hist[i].ts == ts)
                          || (ts == ERASED_TS && (|hist| == 0 || |hist| % PER_PAGE != 0)))
        && forall i :: 0 <= i < |hist| && hist[i].ts == ts ==> data == hist[i].info[off..off + len]
    {
      hide Recorded, Shows, GetAlarmItem, ReadFrom, Searched;
      var found, item, i := FindEntry(ts);
      if Recorded(Value(), flash.mem, hist, pend) {
        FoundMeans(Value(), flash.mem, hist, pend, ts, found, i, off, len);
      }
      if !found {
        return -1, [];
      }
      data := flash.ReadData(item.infoAddr + off, len);
      return 0, data;
    }

    /** The search loop: page after page until all counted entries are covered, at least one page. */
    method FindEntry(ts: word) returns (found: bool, item: AlarmItem, i: nat)
      requires flash.Valid() && indexNum <= TOTAL
      ensures found ==>
        && i < Searched(indexNum) && item == GetAlarmItem(flash.mem, INDEX_START + ENTRY * i)
        && FirstShown(flash.mem, i, ts)
      ensures !found ==> forall k :: 0 <= k < Searched(indexNum) ==> Shows(flash.mem, k) != ts
    {
      var num := 0;
      ghost var pages := 0;
      while true
        invariant num == PER_PAGE * pages && (num == 0 || num < indexNum)
        invariant forall k :: 0 <= k < num ==> Shows(flash.mem, k) != ts
        decreases TOTAL - num
      {
        found, item, i := ScanPage(ts, num);
        if found {
          return;
        }
        num := num + PER_PAGE;
        pages := pages + 1;
        if num >= indexNum {
          return;
        }
      }
    }
  }

  /** The search on a chip that holds `hist`. */
  lemma FoundMeans(s: Store, mem: seq<byte>, hist: seq<Alarm>, pend: Pending, ts: word, found: bool, i: nat,
                   off: nat, len: nat)
    requires Recorded(s, mem, hist, pend) && off + len <= INFO
    requires found ==> i < Searched(s.indexNum) && FirstShown(mem, i, ts)
    requires !found ==> forall k :: 0 <= k < Searched(s.indexNum) ==> Shows(mem, k) != ts
    ensures found <==> (exists k :: 0 <= k < |hist| && hist[k].ts == ts)
                       || (ts == ERASED_TS && (|hist| == 0 || |hist| % PER_PAGE != 0))
    ensures found ==> forall k :: 0 <= k < |hist| && hist[k].ts == ts ==>
              BytesBehind(mem, i, off, len) == hist[k].info[off..off + len]
  {
    hide Shows, BytesBehind, Searched, Kept;
    SearchMeans(mem, hist, ts, found, i);
    if found && i < |hist| {
      InfoBytes(mem, hist, i, off, len);
    }
  }

  /** Where the index entry of alarm `i` points, its bytes stand. */
  lemma InfoBytes(mem: seq<byte>, hist: seq<Alarm>, i: nat, off: nat, len: nat)
    requires |mem| == CHIP && i < |hist| <= TOTAL && Kept(mem, hist, i)
    requires |hist[i].info| == INFO && off + len <= INFO
    ensures BytesBehind(mem, i, off, len) == hist[i].info[off..off + len]
  {
    EntryStands(mem, hist, i);
    StandsPart(mem, INFO_START + INFO * i, hist[i].info, off, len);
  }

  lemma EntryStands(mem: seq<byte>, hist: seq<Alarm>, i: nat)
    requires |mem| == CHIP && i < |hist| <= TOTAL && Kept(mem, hist, i)
    ensures GetAlarmItem(mem, INDEX_START + ENTRY * i) == Entry(hist, i)
  {
    AlarmItemRoundTrip(mem, INDEX_START + ENTRY * i, Entry(hist, i));
  }

  /** How many index cells a full search covers. */
  function Searched(n: nat): (c: nat)
    requires n <= TOTAL
    ensures n <= c <= TOTAL
  {
    if n == 0 then PER_PAGE else PER_PAGE * ((n + PER_PAGE - 1) / PER_PAGE)
  }

  /** What finding or not finding a timestamp in the searched cells says about the history. */
  lemma SearchMeans(mem: seq<byte>, hist: seq<Alarm>, ts: word, found: bool, i: nat)
    requires |mem| == CHIP && |hist| <= TOTAL && (forall j :: 0 <= j < |hist| ==> Kept(mem, hist, j))
    requires Erased(mem, IndexEnd(|hist|), CHIP - IndexEnd(|hist|))
    requires found ==> i < Searched(|hist|) && Shows(mem, i) == ts
    requires forall k :: 0 <= k < (if found then i else Searched(|hist|)) ==> Shows(mem, k) != ts
    ensures found <==> (exists k :: 0 <= k < |hist| && hist[k].ts == ts)
                       || (ts == ERASED_TS && (|hist| == 0 || |hist| % PER_PAGE != 0))
    requires forall j, k :: 0 <= j < k < |hist| ==> hist[j].ts != hist[k].ts
    ensures found ==> forall k :: 0 <= k < |hist| && hist[k].ts == ts ==> k == i
  {
    forall k | 0 <= k < TOTAL ensures Shows(mem, k) == if k < |hist| then hist[k].ts else ERASED_TS {
      CellShows(mem, hist, k);
    }
    if !found && |hist| < Searched(|hist|) {
      assert Shows(mem, |hist|) == ERASED_TS;
    }
  }

  /** The timestamp word of index cell `i`. */
  function Shows(mem: seq<byte>, i: nat): word
    requires INDEX_START + ENTRY * (i + 1) <= |mem|
  {
    GetAlarmItem(mem, INDEX_START + ENTRY * i).ts
  }

  /** The first index cell with this timestamp. */
  ghost predicate FirstShown(mem: seq<byte>, k: nat, ts: word)
    requires |mem| == CHIP && k < TOTAL
  {
    Shows(mem, k) == ts && forall j :: 0 <= j < k ==> Shows(mem, j) != ts
  }

  /** The bytes its entry points to; an address beyond the chip loses its upper bits. */
  function BytesBehind(mem: seq<byte>, k: nat, off: nat, len: nat): (b: seq<byte>)
    requires |mem| == CHIP && k < TOTAL
    ensures |b| == len
  {
    ReadFrom(mem, GetAlarmItem(mem, INDEX_START + ENTRY * k).infoAddr + off, len)
  }

  lemma SameAlarmItem(mem: seq<byte>, at: nat, buf: seq<byte>, off: nat)
    requires at + |buf| <= |mem| && mem[at..at + |buf|] == buf && off + ENTRY <= |buf|
    ensures GetAlarmItem(mem, at + off) == GetAlarmItem(buf, off)
  {
    SubSlice(mem, at, at + |buf|, off, off + ENTRY);
    var x, y := mem[at + off..at + off + ENTRY], buf[off..off + ENTRY];
    assert x == y;
    assert forall k :: 0 <= k < ENTRY ==> x[k] == mem[at + off + k] && y[k] == buf[off + k];
  }
}
