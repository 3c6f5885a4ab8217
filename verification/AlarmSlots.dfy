/** The alarm store slot by slot.  Alarm `i` has its own cells in each of the three areas; what stands in
    them does not depend on the other alarms, also when a restart makes the firmware write some slots a
    second time. */
module AlarmSlots {
  import opened Bytes
  import opened Records
  import opened NorFlash
  import opened AlarmStore

  /** What is known of the cells of a slot: an alarm of which a part has been written, a complete alarm, or
      cells that were programmed twice or by a write that power loss interrupted. */
  datatype Slot = Begun(ts: word, msg: seq<byte>, info: seq<byte>) | Whole(a: Alarm) | Spoiled

  function MsgAt(i: nat): nat { MSG * i }
  function InfoAt(i: nat): nat { INFO_START + INFO * i }
  function EntryAt(i: nat): nat { INDEX_START + ENTRY * i }

  function ItemAt(i: nat, ts: word): AlarmItem
    requires i < TOTAL
  {
    AlarmItem(MsgAt(i), InfoAt(i), ts)
  }

  ghost predicate SlotStands(mem: seq<byte>, i: nat, slot: Slot)
    requires |mem| == CHIP && i < TOTAL
  {
    match slot
    case Whole(a) =>
      && |a.msg| == MSG && |a.info| == INFO && Stands(mem, MsgAt(i), a.msg) && Stands(mem, InfoAt(i), a.info)
      && Stands(mem, EntryAt(i), PutAlarmItem(ItemAt(i, a.ts)))
    case Begun(ts, msg, info) =>
      && |msg| == MSG && |info| < INFO && Stands(mem, MsgAt(i), msg) && Stands(mem, InfoAt(i), info)
      && Erased(mem, InfoAt(i) + |info|, INFO - |info|) && Erased(mem, EntryAt(i), ENTRY)
    case Spoiled => true
  }

  /** The cells of slot `q` and of all behind it are erased. */
  ghost predicate FreeFrom(mem: seq<byte>, q: nat)
    requires |mem| == CHIP && q <= TOTAL
  {
    && Erased(mem, MsgAt(q), INFO_START - MsgAt(q)) && Erased(mem, InfoAt(q), INDEX_START - InfoAt(q))
    && Erased(mem, EntryAt(q), CHIP - EntryAt(q))
  }

  /** The chip is as `slots` says. */
  ghost predicate Sound(mem: seq<byte>, slots: seq<Slot>)
  {
    && |mem| == CHIP && |slots| <= TOTAL && FreeFrom(mem, |slots|)
    && forall i :: 0 <= i < |slots| ==> SlotStands(mem, i, slots[i])
  }

  /** Address `p` belongs to slot `n`. */
  predicate InSlot(n: nat, p: nat) {
    MsgAt(n) <= p < MsgAt(n + 1) || InfoAt(n) <= p < InfoAt(n + 1) || EntryAt(n) <= p < EntryAt(n + 1)
  }

  /** Nothing changes outside slot `n`. */
  ghost predicate Confined(mem: seq<byte>, mem': seq<byte>, n: nat)
  {
    |mem| == |mem'| == CHIP && forall p :: 0 <= p < CHIP && !InSlot(n, p) ==> mem'[p] == mem[p]
  }

  lemma SameStands(mem: seq<byte>, mem': seq<byte>, at: nat, bytes: seq<byte>)
    requires |mem'| == |mem| && Stands(mem, at, bytes) && forall p :: at <= p < at + |bytes| ==> mem'[p] == mem[p]
    ensures Stands(mem', at, bytes)
  {
  }

  lemma Apart(i: nat, n: nat, p: nat)
    requires i < TOTAL && n < TOTAL && i != n && InSlot(i, p)
    ensures !InSlot(n, p)
  {
  }

  lemma OtherSlot(mem: seq<byte>, mem': seq<byte>, n: nat, i: nat, slot: Slot)
    requires Confined(mem, mem', n) && i < TOTAL && n < TOTAL && i != n && SlotStands(mem, i, slot)
    ensures SlotStands(mem', i, slot)
  {
    hide Stands;
    forall p: nat | InSlot(i, p) ensures p < CHIP && mem'[p] == mem[p] {
      Apart(i, n, p);
    }
    match slot
    case Whole(a) =>
      SameStands(mem, mem', MsgAt(i), a.msg);
      SameStands(mem, mem', InfoAt(i), a.info);
      SameStands(mem, mem', EntryAt(i), PutAlarmItem(ItemAt(i, a.ts)));
    case Begun(ts, msg, info) =>
      SameStands(mem, mem', MsgAt(i), msg);
      SameStands(mem, mem', InfoAt(i), info);
    case Spoiled =>
  }

  lemma OtherFree(mem: seq<byte>, mem': seq<byte>, n: nat, q: nat)
    requires Confined(mem, mem', n) && n < q <= TOTAL && FreeFrom(mem, q)
    ensures FreeFrom(mem', q)
  {
  }

  lemma FreeBehind(mem: seq<byte>, q: nat)
    requires |mem| == CHIP && q < TOTAL && FreeFrom(mem, q)
    ensures FreeFrom(mem, q + 1)
  {
  }

  /** Slot `n` becomes `slot`; it may be the next one. */
  function Set(slots: seq<Slot>, n: nat, slot: Slot): seq<Slot>
    requires n <= |slots|
  {
    if n < |slots| then slots[n := slot] else slots + [slot]
  }

  /** A change confined to one slot leaves the others as they are. */
  lemma SetSound(mem: seq<byte>, mem': seq<byte>, slots: seq<Slot>, n: nat, slot: Slot)
    requires Sound(mem, slots) && n <= |slots| && n < TOTAL && Confined(mem, mem', n) && SlotStands(mem', n, slot)
    ensures Sound(mem', Set(slots, n, slot))
  {
    assert |mem'| == CHIP;
    hide SlotStands, FreeFrom, Confined;
    var slots' := Set(slots, n, slot);
    if n == |slots| { FreeBehind(mem, n); }
    OtherFree(mem, mem', n, |slots'|);
    forall i | 0 <= i < |slots'| ensures SlotStands(mem', i, slots'[i]) {
      if i != n { OtherSlot(mem, mem', n, i, slots[i]); }
    }
  }

  lemma ProgramConfined(mem: seq<byte>, n: nat, off: nat, data: seq<byte>)
    requires |mem| == CHIP && n < TOTAL && off + |data| <= CHIP && forall p :: off <= p < off + |data| ==> InSlot(n, p)
    ensures Confined(mem, Programmed(mem, off, data), n)
  {
    hide InSlot;
  }

  lemma ConfinedTwice(mem: seq<byte>, mid: seq<byte>, mem': seq<byte>, n: nat)
    requires Confined(mem, mid, n) && Confined(mid, mem', n)
    ensures Confined(mem, mem', n)
  {
    hide InSlot;
  }

  /** A message stored into a slot never begun opens the alarm. */
  lemma BeginStands(mem: seq<byte>, n: nat, ts: word, msg: seq<byte>)
    requires |mem| == CHIP && n < TOTAL && FreeFrom(mem, n) && |msg| == MSG
    ensures SlotStands(Programmed(mem, MsgAt(n), msg), n, Begun(ts, msg, []))
  {
    ProgramErased(mem, MsgAt(n), msg);
    StandsHere(mem, MsgAt(n), msg);
    ErasedElsewhere(mem, InfoAt(n), INFO, MsgAt(n), msg);
    ErasedElsewhere(mem, EntryAt(n), ENTRY, MsgAt(n), msg);
  }

  /** A part goes behind the parts before it. */
  lemma PartStands(mem: seq<byte>, n: nat, ts: word, msg: seq<byte>, info: seq<byte>, data: seq<byte>)
    requires |mem| == CHIP && n < TOTAL && SlotStands(mem, n, Begun(ts, msg, info)) && |info| + |data| <= INFO
    ensures var m := Programmed(mem, InfoAt(n) + |info|, data); var end := InfoAt(n) + |info| + |data|;
            && Stands(m, MsgAt(n), msg) && Stands(m, InfoAt(n), info + data)
            && Erased(m, end, INFO - |info| - |data|) && Erased(m, EntryAt(n), ENTRY)
  {
    hide Stands, Programmed;
    var off := InfoAt(n) + |info|;
    ErasedPart(mem, off, INFO - |info|, off, |data|);
    ProgramErased(mem, off, data);
    StandsElsewhere(mem, MsgAt(n), msg, off, data);
    StandsGrows(mem, InfoAt(n), info, data);
    ErasedPart(mem, off, INFO - |info|, off + |data|, INFO - |info| - |data|);
    ErasedElsewhere(mem, off + |data|, INFO - |info| - |data|, off, data);
    ErasedElsewhere(mem, EntryAt(n), ENTRY, off, data);
  }

  /** The last part and the index entry complete the alarm. */
  lemma LastStands(mem: seq<byte>, n: nat, ts: word, msg: seq<byte>, info: seq<byte>, data: seq<byte>)
    requires |mem| == CHIP && n < TOTAL && SlotStands(mem, n, Begun(ts, msg, info)) && |info| + |data| == INFO
    ensures SlotStands(Programmed(Programmed(mem, InfoAt(n) + |info|, data), EntryAt(n), PutAlarmItem(ItemAt(n, ts))),
                       n, Whole(Alarm(ts, msg, info + data)))
  {
    PartStands(mem, n, ts, msg, info, data);
    var m, e := Programmed(mem, InfoAt(n) + |info|, data), PutAlarmItem(ItemAt(n, ts));
    ProgramErased(m, EntryAt(n), e);
    StandsElsewhere(m, MsgAt(n), msg, EntryAt(n), e);
    StandsElsewhere(m, InfoAt(n), info + data, EntryAt(n), e);
    StandsHere(m, EntryAt(n), e);
  }

  /** What a slot written a second time holds: the new bytes exactly where they only clear bits. */
  lemma OverwrittenIff(mem: seq<byte>, at: nat, was: seq<byte>, data: seq<byte>)
    requires Stands(mem, at, was) && |data| == |was|
    ensures Stands(Programmed(mem, at, data), at, data)
            <==> forall p :: 0 <= p < |data| ==> And(was[p], data[p]) == data[p]
  {
    var now := Programmed(mem, at, data)[at..at + |data|];
    forall p | 0 <= p < |data| ensures now[p] == And(was[p], data[p]) {
      assert mem[at..at + |was|][p] == mem[at + p];
    }
  }

  /** Alarm 640 sends the store back to the first cells without an erase: the next message reads right exactly
      if it only clears bits of the first alarm's. */
  lemma FullStartsOver(s: Store, mem: seq<byte>, hist: seq<Alarm>, pend: Pending, data: seq<byte>, msg: seq<byte>)
    requires Recorded(s, mem, hist, pend) && pend.Collecting? && |hist| + 1 == TOTAL && |pend.info| + |data| == INFO
    requires |msg| == MSG
    ensures s.infoAddr + |data| <= CHIP && s.indexAddr + ENTRY <= CHIP
    ensures var s', m' := InfoStore(s, |data|, true), InfoMem(s, mem, data, true);
            && s'.indexNum == 640 && s'.addr == 0 && s'.infoAddr == 20_480 && s'.indexAddr == 0x7C0_0000
            && (Stands(Programmed(m', s'.addr, msg), s'.addr, msg)
                <==> forall p :: 0 <= p < MSG ==> And(hist[0].msg[p], msg[p]) == msg[p])
  {
    LastInfoRecorded(s, mem, hist, pend, data);
    var m', all := InfoMem(s, mem, data, true), hist + [Alarm(pend.ts, pend.msg, pend.info + data)];
    assert Kept(m', all, 0) && all[0] == hist[0];
    OverwrittenIff(m', 0, hist[0].msg, msg);
  }

  // ----- slots and histories -----

  /** The slots of a history in which nothing was written twice. */
  function SlotsOf(hist: seq<Alarm>, pend: Pending): (s: seq<Slot>)
    ensures |s| == |hist| + if pend.Collecting? then 1 else 0
    ensures forall i :: 0 <= i < |hist| ==> s[i] == Whole(hist[i])
    ensures pend.Collecting? ==> s[|hist|] == Begun(pend.ts, pend.msg, pend.info)
  {
    seq(|hist|, i requires 0 <= i < |hist| => Whole(hist[i]))
    + if pend.Collecting? then [Begun(pend.ts, pend.msg, pend.info)] else []
  }

  lemma FreeParts(mem: seq<byte>, hist: seq<Alarm>, pend: Pending)
    requires |mem| == CHIP && WellFormed(hist, pend)
    ensures FreeErased(mem, hist, pend) <==>
              && FreeFrom(mem, |SlotsOf(hist, pend)|)
              && (pend.Collecting? ==>
                    && Erased(mem, InfoAt(|hist|) + |pend.info|, INFO - |pend.info|)
                    && Erased(mem, EntryAt(|hist|), ENTRY))
  {
  }

  /** As long as nothing is written twice the slots say what the history says. */
  lemma RecordedIffSound(s: Store, mem: seq<byte>, hist: seq<Alarm>, pend: Pending)
    requires |mem| == CHIP && WellFormed(hist, pend)
    ensures Recorded(s, mem, hist, pend) <==> At(s, hist, pend) && Sound(mem, SlotsOf(hist, pend))
  {
    hide Stands, Erased, FreeFrom, FreeErased, At;
    var slots := SlotsOf(hist, pend);
    FreeParts(mem, hist, pend);
    forall i | 0 <= i < |hist| ensures Kept(mem, hist, i) <==> SlotStands(mem, i, slots[i]) {
      assert Entry(hist, i) == ItemAt(i, hist[i].ts);
    }
  }

  /** What the search of `Storage_Read_AlarmInfo` meets in the index cell of a complete alarm, and the bytes
      it then reads. */
  lemma WholeReads(mem: seq<byte>, i: nat, a: Alarm, off: nat, len: nat)
    requires |mem| == CHIP && i < TOTAL && SlotStands(mem, i, Whole(a)) && off + len <= INFO
    ensures Shows(mem, i) == a.ts && BytesBehind(mem, i, off, len) == a.info[off..off + len]
  {
    AlarmItemRoundTrip(mem, EntryAt(i), ItemAt(i, a.ts));
    StandsPart(mem, InfoAt(i), a.info, off, len);
  }
}
