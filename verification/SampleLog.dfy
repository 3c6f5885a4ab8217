/** The circular sample log on the eMMC: a data area of 60,000,000 blocks, 125 per second, and
    behind it an index area of 7500 blocks, each indexing 64 seconds.  The newest partial index
    block lives in RAM; the position of the full ones is kept in the configuration record. */
module SampleLog {
  import opened Bytes
  import opened Records
  import Emmc

  const BLOCK := 512
  const DATA_BLOCKS := 60_000_000       // ADC_INDEX_START_ADDR / EMMC_BLOCK_SIZE
  const INDEX_START := 60_000_000
  const SECOND_BLOCKS := 125            // ADC_ITEM_BLOCK_NUM
  const SECOND_BYTES := 64_000
  const ITEMS := 64                     // ADC_INDEX_NUM_PRE_BLOCK
  const INDEX_BLOCKS := 7500            // ADC_INDEX_BLOCK_NUM
  const LAP := 480_000                  // ADC_ITEM_TOTAL_NUM
  const CARD_BLOCKS := 60_620_800       // EMMC_BLOCK_NUM

  /** The part of `g_ConfigInfo` the log restores from. */
  datatype Config = Config(blockNum: nat, currBlock: nat, strTime: word, endTime: word)

  /** `AdcObject_t` with the configuration record it updates. */
  datatype Log = Log(strTime: word, endTime: word, addr: nat, indexAddr: nat, blockNum: nat, currBlock: nat,
                     itemIndex: nat, table: seq<Item>, cfg: Config)

  datatype Entry = Entry(ts: word, data: seq<byte>)

  /** Numbers are in the range of their C types and the card is large enough. */
  ghost predicate Sane(l: Log, mem: seq<byte>)
  {
    && l.addr < DATA_BLOCKS && l.itemIndex < ITEMS && |l.table| == ITEMS
    && INDEX_START <= l.indexAddr < INDEX_START + INDEX_BLOCKS && l.currBlock < INDEX_BLOCKS
    && |mem| == BLOCK * CARD_BLOCKS
  }

  // ----- Storage_Write_AdcData on values -----

  /** A full index table goes to the card and the next one begins.  On a later lap the first table
      is reloaded from the card; `next` is the index block after the one just written. */
  function Flushed(l: Log, next: seq<Item>): (r: Log)
    requires |l.table| == ITEMS && |next| == ITEMS
  {
    var table := if l.currBlock == 0 && l.blockNum == INDEX_BLOCKS then next else l.table;
    var str := if l.currBlock == 0 then table[0].ts else l.strTime;
    var end := table[ITEMS - 1].ts;
    var wraps := l.currBlock + 1 >= INDEX_BLOCKS;
    var blockNum := if wraps then INDEX_BLOCKS else l.blockNum + 1;
    var currBlock := if wraps then 0 else l.currBlock + 1;
    l.(strTime := str, endTime := end, table := table, itemIndex := 0,
       indexAddr := if wraps then INDEX_START else l.indexAddr + 1,
       blockNum := blockNum, currBlock := currBlock,
       cfg := Config(blockNum, currBlock, str, end))
  }

  /** The card after the call. */
  function StoredMem(l: Log, mem: seq<byte>, ts: word, data: seq<byte>, indexed: bool): (m: seq<byte>)
    requires Sane(l, mem) && l.addr * BLOCK + |data| <= |mem|
    ensures |m| == |mem|
  {
    var m := Splice(mem, BLOCK * l.addr, data);
    if indexed && l.itemIndex + 1 >= ITEMS then
      Splice(m, BLOCK * l.indexAddr, PutTable(l.table[l.itemIndex := Item(l.addr, ts)]))
    else m
  }

  /** The object after the call. */
  function Stored(l: Log, mem: seq<byte>, ts: word, data: seq<byte>, indexed: bool): (r: Log)
    requires Sane(l, mem) && l.addr * BLOCK + |data| <= |mem|
  {
    var l1 := Advanced(l, |data| / BLOCK);
    if indexed then NextIfFull(WithItem(l1, Item(l.addr, ts)), StoredMem(l, mem, ts, data, indexed)) else l1
  }

  function NextIfFull(l: Log, mem: seq<byte>): Log
    requires |l.table| == ITEMS && BLOCK * (l.indexAddr + 2) <= |mem|
  {
    if l.itemIndex >= ITEMS then Flushed(l, GetTable(mem, BLOCK * (l.indexAddr + 1), ITEMS)) else l
  }

  function Advanced(l: Log, n: nat): Log {
    l.(addr := if l.addr + n >= DATA_BLOCKS then 0 else l.addr + n)
  }

  function WithItem(l: Log, item: Item): Log
    requires l.itemIndex < |l.table|
  {
    l.(table := l.table[l.itemIndex := item], itemIndex := l.itemIndex + 1)
  }

  /** `Adc_Object_Init`; a flag it does not know leaves the cleared object. */
  function Booted(cfg: Config, flag: nat): Log
    requires cfg.currBlock < INDEX_BLOCKS
  {
    var empty := seq(ITEMS, i => Item(0, 0));
    if flag == NEXT_ON then
      Log(cfg.strTime, cfg.endTime, cfg.currBlock * ITEMS * SECOND_BLOCKS, INDEX_START + cfg.currBlock,
          cfg.blockNum, cfg.currBlock, 0, empty, cfg)
    else Log(0, 0, 0, if flag == FIRST_ON then INDEX_START else 0, 0, 0, 0, empty, cfg)
  }

  // ----- geometry, on every lap -----

  /** Seconds since the start of the data area. */
  function Position(l: Log): nat {
    ITEMS * l.currBlock + l.itemIndex
  }

  ghost predicate Geometry(l: Log)
  {
    && l.itemIndex < ITEMS && |l.table| == ITEMS && l.currBlock < INDEX_BLOCKS
    && l.addr == SECOND_BLOCKS * Position(l)
    && l.indexAddr == INDEX_START + l.currBlock
  }

  lemma GeometryIsSane(l: Log, mem: seq<byte>)
    requires Geometry(l) && |mem| == BLOCK * CARD_BLOCKS
    ensures Sane(l, mem) && l.addr + SECOND_BLOCKS <= DATA_BLOCKS
  {
  }

  /** The two known flags, and no other, start with the geometry in place. */
  lemma BootGeometry(cfg: Config, flag: nat)
    requires cfg.currBlock < INDEX_BLOCKS
    ensures Geometry(Booted(cfg, flag)) <==> flag == FIRST_ON || flag == NEXT_ON
  {
  }

  /** One indexed second keeps the geometry; both rings wrap on the same step; the data write stays
      inside the data area and the index write inside the index area. */
  lemma StoreGeometry(l: Log, mem: seq<byte>, e: Entry)
    requires Geometry(l) && |mem| == BLOCK * CARD_BLOCKS && |e.data| == SECOND_BYTES
    ensures Sane(l, mem)
    ensures var l' := Stored(l, mem, e.ts, e.data, true);
            && Geometry(l') && Position(l') == (if Position(l) + 1 == LAP then 0 else Position(l) + 1)
            && (l'.addr == 0 <==> l'.indexAddr == INDEX_START && l'.itemIndex == 0)
  {
  }

  lemma StoreAreas(l: Log, mem: seq<byte>, e: Entry, p: nat)
    requires Geometry(l) && |mem| == BLOCK * CARD_BLOCKS && |e.data| == SECOND_BYTES && p < |mem|
    requires Sane(l, mem) && StoredMem(l, mem, e.ts, e.data, true)[p] != mem[p]
    ensures BLOCK * l.addr <= p < BLOCK * (l.addr + SECOND_BLOCKS) <= BLOCK * DATA_BLOCKS
         || BLOCK * INDEX_START <= BLOCK * l.indexAddr <= p < BLOCK * (l.indexAddr + 1)
            <= BLOCK * (INDEX_START + INDEX_BLOCKS)
  {
  }

  /** A run of indexed seconds. */
  ghost predicate StoreRun(ls: seq<Log>, mems: seq<seq<byte>>, es: seq<Entry>)
  {
    && |ls| == |mems| == |es| + 1
    && forall i :: 0 <= i < |es| ==> StoreStep(ls[i], mems[i], es[i], ls[i + 1], mems[i + 1])
  }

  ghost predicate StoreStep(l: Log, mem: seq<byte>, e: Entry, l': Log, mem': seq<byte>)
  {
    && Sane(l, mem) && |e.data| == SECOND_BYTES
    && l' == Stored(l, mem, e.ts, e.data, true) && mem' == StoredMem(l, mem, e.ts, e.data, true)
  }

  lemma StepGeometry(l: Log, mem: seq<byte>, e: Entry, l': Log, mem': seq<byte>)
    requires Geometry(l) && StoreStep(l, mem, e, l', mem')
    ensures Geometry(l') && Position(l') == if Position(l) + 1 == LAP then 0 else Position(l) + 1
  {
    StoreGeometry(l, mem, e);
  }

  /** Any number of seconds, through any number of laps: the geometry holds (so `addr` is 125 times
      the position) and the position is the number of seconds since the start, modulo the lap. */
  lemma {:induction false} GeometryForever(ls: seq<Log>, mems: seq<seq<byte>>, es: seq<Entry>, i: nat)
    requires StoreRun(ls, mems, es) && Geometry(ls[0]) && i < |ls|
    ensures Geometry(ls[i]) && Position(ls[i]) == (Position(ls[0]) + i) % LAP
  {
    hide StoreStep, Geometry, Position;
    if i > 0 {
      GeometryForever(ls, mems, es, i - 1);
      assert StoreStep(ls[i - 1], mems[i - 1], es[i - 1], ls[i - 1 + 1], mems[i - 1 + 1]);
      StepGeometry(ls[i - 1], mems[i - 1], es[i - 1], ls[i], mems[i]);
      StepMod(Position(ls[0]), i, Position(ls[i - 1]), Position(ls[i]));
    } else {
      PositionInLap(ls[0]);
    }
  }

  lemma PositionInLap(l: Log)
    requires Geometry(l)
    ensures Position(l) % LAP == Position(l)
  {
  }

  lemma StepMod(start: nat, i: nat, was: nat, now: nat)
    requires i > 0 && was == (start + (i - 1)) % LAP && now == if was + 1 == LAP then 0 else was + 1
    ensures now == (start + i) % LAP
  {
  }

  /** `Storage_Clear_AdcData` on the position fields. */
  function Cleared(l: Log): Log {
    l.(indexAddr := INDEX_START, addr := 0, endTime := 0, strTime := 0, blockNum := 0, currBlock := 0)
  }

  /** Clearing leaves the RAM index alone, so it keeps the geometry exactly when that is empty. */
  lemma ClearGeometry(l: Log)
    requires Geometry(l)
    ensures Geometry(Cleared(l)) <==> l.itemIndex == 0
  {
  }

  // ----- the first lap: the log is a map from seconds to their bytes -----

  ghost predicate Chronological(hist: seq<Entry>)
  {
    && (forall i, j :: 0 <= i < j < |hist| ==> hist[i].ts < hist[j].ts)
    && (forall i :: 0 <= i < |hist| ==> hist[i].ts > 0 && |hist[i].data| == SECOND_BYTES)
  }

  /** A configuration record that describes the first `64 * blockNum` seconds of `hist`. */
  ghost predicate Describes(cfg: Config, hist: seq<Entry>)
  {
    && cfg.blockNum <= INDEX_BLOCKS && ITEMS * cfg.blockNum <= |hist|
    && cfg.currBlock == (if cfg.blockNum == INDEX_BLOCKS then 0 else cfg.blockNum)
    && (cfg.blockNum > 0 ==> cfg.strTime == hist[0].ts && cfg.endTime == hist[ITEMS * cfg.blockNum - 1].ts)
  }

  ghost predicate SecondStands(mem: seq<byte>, hist: seq<Entry>, i: nat)
    requires i < |hist|
  {
    Stands(mem, SECOND_BYTES * i, hist[i].data)
  }

  ghost predicate DataStands(mem: seq<byte>, hist: seq<Entry>)
  {
    forall i :: 0 <= i < |hist| ==> SecondStands(mem, hist, i)
  }

  ghost function IndexItem(hist: seq<Entry>, i: nat): Item
    requires i < |hist| <= LAP
  {
    Item(SECOND_BLOCKS * i, hist[i].ts)
  }

  ghost predicate Indexed(mem: seq<byte>, hist: seq<Entry>, i: nat)
    requires i < |hist| <= LAP && |mem| == BLOCK * CARD_BLOCKS
  {
    GetItem(mem, BLOCK * INDEX_START + 8 * i) == IndexItem(hist, i)
  }

  ghost predicate IndexStands(mem: seq<byte>, hist: seq<Entry>, n: nat)
    requires n <= |hist| <= LAP && |mem| == BLOCK * CARD_BLOCKS
  {
    forall i :: 0 <= i < n ==> Indexed(mem, hist, i)
  }

  ghost predicate TableStands(l: Log, hist: seq<Entry>)
    requires |l.table| == ITEMS && l.itemIndex < ITEMS && |hist| == ITEMS * l.blockNum + l.itemIndex <= LAP
  {
    forall i :: 0 <= i < l.itemIndex ==> l.table[i] == IndexItem(hist, ITEMS * l.blockNum + i)
  }

  /** Position and configuration agree with `hist`. */
  ghost predicate Placed(l: Log, hist: seq<Entry>)
  {
    && |hist| == ITEMS * l.blockNum + l.itemIndex <= LAP && Geometry(l)
    && l.cfg == Config(l.blockNum, l.currBlock, l.strTime, l.endTime) && Describes(l.cfg, hist)
  }

  /** The log holds exactly `hist`, at most one lap of it. */
  ghost predicate Holds(l: Log, mem: seq<byte>, hist: seq<Entry>)
  {
    && |mem| == BLOCK * CARD_BLOCKS && Chronological(hist) && Placed(l, hist)
    && TableStands(l, hist)
    && DataStands(mem, hist)
    && IndexStands(mem, hist, ITEMS * l.blockNum)
  }

  /** Clearing, the configuration record zeroed first as the message handler does, leaves an empty log exactly
      if the RAM index was empty. */
  lemma ClearHolds(l: Log, mem: seq<byte>, hist: seq<Entry>)
    requires Holds(l, mem, hist)
    ensures Holds(Cleared(l).(cfg := Config(0, 0, 0, 0)), mem, []) <==> l.itemIndex == 0
  {
  }

  /** What a clear leaves in a log: no index blocks, but the RAM index of the last seconds and their data. */
  ghost predicate Leftover(l: Log, mem: seq<byte>, hist: seq<Entry>)
  {
    && |mem| == BLOCK * CARD_BLOCKS && Chronological(hist) && |hist| <= LAP && l.blockNum == 0
    && DataStands(mem, hist) && InRam(l, hist)
  }

  /** The RAM index is that of the last seconds of `hist`. */
  ghost predicate InRam(l: Log, hist: seq<Entry>)
    requires |hist| <= LAP
  {
    && |l.table| == ITEMS && l.itemIndex < ITEMS && l.itemIndex <= |hist|
    && forall i :: 0 <= i < l.itemIndex ==> l.table[i] == IndexItem(hist, |hist| - l.itemIndex + i)
  }

  lemma ClearLeaves(l: Log, mem: seq<byte>, hist: seq<Entry>)
    requires Holds(l, mem, hist)
    ensures Leftover(Cleared(l).(cfg := Config(0, 0, 0, 0)), mem, hist)
  {
    HoldsInRam(l, mem, hist);
  }

  lemma HoldsInRam(l: Log, mem: seq<byte>, hist: seq<Entry>)
    requires Holds(l, mem, hist)
    ensures InRam(l, hist)
  {
  }

  /** An unindexed second leaves everything but the address, and so the geometry broken. */
  lemma UnindexedSlips(l: Log, mem: seq<byte>, e: Entry)
    requires Geometry(l) && |mem| == BLOCK * CARD_BLOCKS && |e.data| == SECOND_BYTES && Sane(l, mem)
    ensures var l' := Stored(l, mem, e.ts, e.data, false);
            l' == l.(addr := l'.addr) && l'.addr == SECOND_BLOCKS * ((Position(l) + 1) % LAP) && !Geometry(l')
  {
    assert Position(l) + 1 == LAP || (Position(l) + 1) % LAP == Position(l) + 1;
  }

  /** On the flush that begins a later lap the start time becomes that of the oldest second left on the card;
      the end time is read from the same reloaded table and is then no longer the newest second's. */
  lemma FlushTimes(l: Log, next: seq<Item>)
    requires |l.table| == ITEMS && |next| == ITEMS && l.currBlock < INDEX_BLOCKS
    ensures var l' := Flushed(l, next); var laps := l.currBlock == 0 && l.blockNum == INDEX_BLOCKS;
            && l'.strTime == (if laps then next[0].ts else if l.currBlock == 0 then l.table[0].ts else l.strTime)
            && (l'.endTime == l.table[ITEMS - 1].ts <==> !laps || next[ITEMS - 1].ts == l.table[ITEMS - 1].ts)
            && (l'.blockNum <= INDEX_BLOCKS <==> l.blockNum < INDEX_BLOCKS || l.currBlock == INDEX_BLOCKS - 1)
            && l'.cfg == Config(l'.blockNum, l'.currBlock, l'.strTime, l'.endTime)
  {
  }

  lemma ItemElsewhere(mem: seq<byte>, at: nat, off: nat, data: seq<byte>)
    requires at + 8 <= |mem| && off + |data| <= |mem| && (at + 8 <= off || off + |data| <= at)
    ensures GetItem(Splice(mem, off, data), at) == GetItem(mem, at)
  {
    SameItem(Splice(mem, off, data), at, mem, at);
  }

  /** Writing the next second next to the others. */
  lemma DataGrows(mem: seq<byte>, hist: seq<Entry>, e: Entry)
    requires |mem| == BLOCK * CARD_BLOCKS && |hist| < LAP && DataStands(mem, hist)
    requires forall i :: 0 <= i < |hist| ==> |hist[i].data| == SECOND_BYTES
    requires |e.data| == SECOND_BYTES
    ensures DataStands(Splice(mem, SECOND_BYTES * |hist|, e.data), hist + [e])
  {
    var m := Splice(mem, SECOND_BYTES * |hist|, e.data);
    forall i | 0 <= i < |hist + [e]| ensures SecondStands(m, hist + [e], i) {
      if i < |hist| {
        assert SecondStands(mem, hist, i);
        StandsElsewhere(mem, SECOND_BYTES * i, hist[i].data, SECOND_BYTES * |hist|, e.data);
      } else {
        StandsHere(mem, SECOND_BYTES * |hist|, e.data);
      }
    }
  }

  lemma IndexKept(mem: seq<byte>, hist: seq<Entry>, n: nat, off: nat, data: seq<byte>, e: Entry)
    requires |mem| == BLOCK * CARD_BLOCKS && n <= |hist| < LAP && IndexStands(mem, hist, n)
    requires off + |data| <= BLOCK * INDEX_START
    ensures IndexStands(Splice(mem, off, data), hist + [e], n)
  {
    forall i | 0 <= i < n
      ensures Indexed(Splice(mem, off, data), hist + [e], i)
    {
      ItemElsewhere(mem, BLOCK * INDEX_START + 8 * i, off, data);
      assert Indexed(mem, hist, i);
    }
  }

  lemma FlushKeepsData(mem: seq<byte>, hist: seq<Entry>, off: nat, bytes: seq<byte>)
    requires |mem| == BLOCK * CARD_BLOCKS && |hist| <= LAP && DataStands(mem, hist)
    requires forall i :: 0 <= i < |hist| ==> |hist[i].data| == SECOND_BYTES
    requires BLOCK * INDEX_START <= off && off + |bytes| <= |mem|
    ensures DataStands(Splice(mem, off, bytes), hist)
  {
    forall i | 0 <= i < |hist| ensures SecondStands(Splice(mem, off, bytes), hist, i) {
      assert SecondStands(mem, hist, i);
      StandsElsewhere(mem, SECOND_BYTES * i, hist[i].data, off, bytes);
    }
  }

  /** A flushed table indexes the next 64 seconds. */
  lemma FlushIndexes(mem: seq<byte>, hist: seq<Entry>, b: nat, table: seq<Item>)
    requires |mem| == BLOCK * CARD_BLOCKS && b < INDEX_BLOCKS && |hist| == ITEMS * b + ITEMS && |table| == ITEMS
    requires forall i :: 0 <= i < ITEMS ==> table[i] == IndexItem(hist, ITEMS * b + i)
    requires IndexStands(mem, hist, ITEMS * b)
    ensures IndexStands(Splice(mem, BLOCK * (INDEX_START + b), PutTable(table)), hist, ITEMS * b + ITEMS)
  {
    var off, bytes := BLOCK * (INDEX_START + b), PutTable(table);
    var m := Splice(mem, off, bytes);
    StandsHere(mem, off, bytes);
    forall i | 0 <= i < |hist| ensures Indexed(m, hist, i) {
      assert Indexed(m, hist, i) == (GetItem(m, BLOCK * INDEX_START + 8 * i) == IndexItem(hist, i));
      if i < ITEMS * b {
        ItemElsewhere(mem, BLOCK * INDEX_START + 8 * i, off, bytes);
        assert Indexed(mem, hist, i);
      } else {
        TableRoundTrip(m, off, table, i - ITEMS * b);
        assert off + 8 * (i - ITEMS * b) == BLOCK * INDEX_START + 8 * i;
        assert table[i - ITEMS * b] == IndexItem(hist, ITEMS * b + (i - ITEMS * b));
      }
    }
  }

  /** A RAM index that has just become full. */
  ghost predicate Full(l: Log, hist: seq<Entry>)
  {
    && |l.table| == ITEMS && l.blockNum < INDEX_BLOCKS && |hist| == ITEMS * l.blockNum + ITEMS
    && l.currBlock == l.blockNum && l.indexAddr == INDEX_START + l.currBlock
    && l.addr == (if |hist| == LAP then 0 else SECOND_BLOCKS * |hist|)
    && (l.blockNum > 0 ==> l.strTime == hist[0].ts)
    && forall i :: 0 <= i < ITEMS ==> l.table[i] == IndexItem(hist, ITEMS * l.blockNum + i)
  }

  lemma FlushPlaces(l: Log, next: seq<Item>, hist: seq<Entry>)
    requires Full(l, hist) && |next| == ITEMS
    ensures var l' := Flushed(l, next);
            Placed(l', hist) && TableStands(l', hist) && ITEMS * l'.blockNum == |hist|
  {
    assert l.table[0] == IndexItem(hist, ITEMS * l.blockNum + 0);
    assert l.table[ITEMS - 1] == IndexItem(hist, ITEMS * l.blockNum + (ITEMS - 1));
  }

  lemma Append(hist: seq<Entry>, e: Entry)
    requires Chronological(hist) && 0 < e.ts && |e.data| == SECOND_BYTES && (hist != [] ==> hist[|hist| - 1].ts < e.ts)
    ensures Chronological(hist + [e])
  {
  }

  lemma TableGrows(l: Log, hist: seq<Entry>, e: Entry)
    requires |l.table| == ITEMS && l.itemIndex < ITEMS && |hist| == ITEMS * l.blockNum + l.itemIndex < LAP
    requires TableStands(l, hist) && l.addr == SECOND_BLOCKS * |hist|
    ensures var t := l.table[l.itemIndex := Item(l.addr, e.ts)];
            forall i :: 0 <= i < l.itemIndex + 1 ==> t[i] == IndexItem(hist + [e], ITEMS * l.blockNum + i)
  {
    var t := l.table[l.itemIndex := Item(l.addr, e.ts)];
    forall i | 0 <= i < l.itemIndex + 1 ensures t[i] == IndexItem(hist + [e], ITEMS * l.blockNum + i) {
      if i < l.itemIndex { assert l.table[i] == IndexItem(hist, ITEMS * l.blockNum + i); }
    }
  }

  /** The RAM side of one more second. */
  lemma StorePlaces(l: Log, hist: seq<Entry>, e: Entry)
    requires Placed(l, hist) && TableStands(l, hist) && |hist| < LAP
    ensures var l2 := WithItem(Advanced(l, SECOND_BLOCKS), Item(l.addr, e.ts));
            if l2.itemIndex >= ITEMS then Full(l2, hist + [e])
            else Placed(l2, hist + [e]) && TableStands(l2, hist + [e])
  {
    TableGrows(l, hist, e);
  }

  /** The card side of one more second. */
  lemma StoreRemembers(l: Log, mem: seq<byte>, hist: seq<Entry>, e: Entry)
    requires Holds(l, mem, hist) && |hist| < LAP && |e.data| == SECOND_BYTES && Sane(l, mem)
    ensures var m := StoredMem(l, mem, e.ts, e.data, true);
            && DataStands(m, hist + [e])
            && IndexStands(m, hist + [e], if l.itemIndex + 1 >= ITEMS then |hist| + 1 else ITEMS * l.blockNum)
  {
    var hist' := hist + [e];
    assert BLOCK * l.addr == SECOND_BYTES * |hist|;
    var m := Splice(mem, BLOCK * l.addr, e.data);
    DataGrows(mem, hist, e);
    IndexKept(mem, hist, ITEMS * l.blockNum, BLOCK * l.addr, e.data, e);
    if l.itemIndex + 1 >= ITEMS {
      var table := l.table[l.itemIndex := Item(l.addr, e.ts)];
      TableGrows(l, hist, e);
      FlushKeepsData(m, hist', BLOCK * l.indexAddr, PutTable(table));
      FlushIndexes(m, hist', l.blockNum, table);
    }
  }

  /** One more second: the log holds one entry more. */
  lemma StoreHolds(l: Log, mem: seq<byte>, hist: seq<Entry>, e: Entry)
    requires Holds(l, mem, hist) && |hist| < LAP && |e.data| == SECOND_BYTES
    requires 0 < e.ts && (hist != [] ==> hist[|hist| - 1].ts < e.ts)
    ensures Sane(l, mem)
    ensures Holds(Stored(l, mem, e.ts, e.data, true), StoredMem(l, mem, e.ts, e.data, true), hist + [e])
  {
    GeometryIsSane(l, mem);
    Append(hist, e);
    StorePlaces(l, hist, e);
    StoreRemembers(l, mem, hist, e);
    var l2 := WithItem(Advanced(l, SECOND_BLOCKS), Item(l.addr, e.ts));
    if l2.itemIndex >= ITEMS {
      FlushPlaces(l2, GetTable(StoredMem(l, mem, e.ts, e.data, true), BLOCK * (l.indexAddr + 1), ITEMS), hist + [e]);
    }
  }

  // ----- power loss -----

  /** The controller, the card and the saved configuration record, with the seconds that count as
      stored.  A restart goes back to the saved record and forgets the seconds behind it. */
  datatype World = World(l: Log, mem: seq<byte>, saved: Config, hist: seq<Entry>)

  datatype Event =
    | Second(e: Entry)
    | SaveConfig
    | PowerCycle
    | TornSecond(data: seq<byte>, index: seq<byte>)   // power fails inside a store

  /** What a torn store leaves: anything at all in the blocks it was writing. */
  function TornMem(l: Log, mem: seq<byte>, data: seq<byte>, index: seq<byte>): (m: seq<byte>)
    requires Sane(l, mem) && l.addr * BLOCK + |data| <= |mem| && |index| == BLOCK
    ensures |m| == |mem|
  {
    var m := Splice(mem, BLOCK * l.addr, data);
    if l.itemIndex + 1 >= ITEMS then Splice(m, BLOCK * l.indexAddr, index) else m
  }

  /** Whatever is in those blocks afterwards, a torn store can have left it. */
  lemma TornAnything(l: Log, mem: seq<byte>, data: seq<byte>, index: seq<byte>)
    requires Geometry(l) && Sane(l, mem) && |data| == SECOND_BYTES && |index| == BLOCK
    ensures var m := TornMem(l, mem, data, index);
            Stands(m, BLOCK * l.addr, data) && (l.itemIndex == ITEMS - 1 ==> Stands(m, BLOCK * l.indexAddr, index))
  {
    StandsHere(mem, BLOCK * l.addr, data);
    if l.itemIndex == ITEMS - 1 {
      var m := Splice(mem, BLOCK * l.addr, data);
      StandsHere(m, BLOCK * l.indexAddr, index);
      StandsElsewhere(m, BLOCK * l.addr, data, BLOCK * l.indexAddr, index);
    }
  }

  ghost predicate CanHappen(w: World, ev: Event)
  {
    match ev
    case Second(e) =>
      && Sane(w.l, w.mem) && |w.hist| < LAP && |e.data| == SECOND_BYTES && 0 < e.ts
      && (w.hist != [] ==> w.hist[|w.hist| - 1].ts < e.ts)
    case SaveConfig => true
    case PowerCycle => CanRestart(w)
    case TornSecond(data, index) =>
      Sane(w.l, w.mem) && |w.hist| < LAP && |data| == SECOND_BYTES && |index| == BLOCK && CanRestart(w)
  }

  ghost predicate CanRestart(w: World) {
    w.saved.currBlock < INDEX_BLOCKS && ITEMS * w.saved.blockNum <= |w.hist|
  }

  ghost function After(w: World, ev: Event): World
    requires CanHappen(w, ev)
  {
    match ev
    case Second(e) =>
      World(Stored(w.l, w.mem, e.ts, e.data, true), StoredMem(w.l, w.mem, e.ts, e.data, true), w.saved, w.hist + [e])
    case SaveConfig => w.(saved := w.l.cfg)
    case PowerCycle => w.(l := Booted(w.saved, NEXT_ON), hist := w.hist[..ITEMS * w.saved.blockNum])
    case TornSecond(data, index) =>
      World(Booted(w.saved, NEXT_ON), TornMem(w.l, w.mem, data, index), w.saved, w.hist[..ITEMS * w.saved.blockNum])
  }

  ghost predicate FirstStart(w: World)
  {
    && w.saved == Config(0, 0, 0, 0) && w.l == Booted(w.saved, FIRST_ON) && w.hist == []
    && |w.mem| == BLOCK * CARD_BLOCKS
  }

  ghost predicate History(ws: seq<World>, evs: seq<Event>)
  {
    && |ws| == |evs| + 1 && FirstStart(ws[0])
    && forall i :: 0 <= i < |evs| ==> Happens(ws[i], evs[i], ws[i + 1])
  }

  ghost predicate Happens(w: World, ev: Event, w': World)
  {
    CanHappen(w, ev) && w' == After(w, ev)
  }

  ghost predicate Consistent(w: World)
  {
    Holds(w.l, w.mem, w.hist) && Describes(w.saved, w.hist)
  }

  /** Restarting from any record that describes a part of the history recovers that part. */
  lemma RestartHolds(cfg: Config, l: Log, mem: seq<byte>, hist: seq<Entry>)
    requires Holds(l, mem, hist) && Describes(cfg, hist)
    ensures Holds(Booted(cfg, NEXT_ON), mem, hist[..ITEMS * cfg.blockNum])
  {
    var part := hist[..ITEMS * cfg.blockNum];
    forall i | 0 <= i < |part| ensures SecondStands(mem, part, i) && Indexed(mem, part, i) {
      assert SecondStands(mem, hist, i) && Indexed(mem, hist, i);
    }
  }

  /** Where the running store writes: behind every recorded second, and not into an index block that a
      saved record covers. */
  lemma StorePlace(cfg: Config, l: Log, mem: seq<byte>, hist: seq<Entry>)
    requires Holds(l, mem, hist) && Describes(cfg, hist) && |hist| < LAP
    ensures l.addr == SECOND_BLOCKS * |hist| && l.indexAddr == INDEX_START + l.blockNum && cfg.blockNum <= l.blockNum
    ensures l.indexAddr < INDEX_START + INDEX_BLOCKS
  {
  }

  lemma TornSecondStands(l: Log, mem: seq<byte>, hist: seq<Entry>, data: seq<byte>, index: seq<byte>, i: nat)
    requires Sane(l, mem) && |hist| < LAP && l.addr == SECOND_BLOCKS * |hist|
    requires i < |hist| && SecondStands(mem, hist, i) && |hist[i].data| == |data| == SECOND_BYTES && |index| == BLOCK
    ensures SecondStands(TornMem(l, mem, data, index), hist, i)
  {
    StandsElsewhere(mem, SECOND_BYTES * i, hist[i].data, BLOCK * l.addr, data);
    if l.itemIndex + 1 >= ITEMS {
      StandsElsewhere(Splice(mem, BLOCK * l.addr, data), SECOND_BYTES * i, hist[i].data, BLOCK * l.indexAddr, index);
    }
  }

  lemma TornIndexed(l: Log, mem: seq<byte>, hist: seq<Entry>, data: seq<byte>, index: seq<byte>, i: nat)
    requires Sane(l, mem) && |hist| < LAP && l.addr == SECOND_BLOCKS * |hist|
    requires i < |hist| && i < ITEMS * (l.indexAddr - INDEX_START) && Indexed(mem, hist, i)
    requires |data| == SECOND_BYTES && |index| == BLOCK
    ensures Indexed(TornMem(l, mem, data, index), hist, i)
  {
    var at := BLOCK * INDEX_START + 8 * i;
    ItemElsewhere(mem, at, BLOCK * l.addr, data);
    if l.itemIndex + 1 >= ITEMS {
      ItemElsewhere(Splice(mem, BLOCK * l.addr, data), at, BLOCK * l.indexAddr, index);
    }
  }

  /** Power lost in the middle of a store, whatever that leaves on the card, costs only what was not saved. */
  lemma TornHolds(cfg: Config, l: Log, mem: seq<byte>, hist: seq<Entry>, data: seq<byte>, index: seq<byte>)
    requires Holds(l, mem, hist) && Describes(cfg, hist) && |hist| < LAP
    requires |data| == SECOND_BYTES && |index| == BLOCK && Sane(l, mem)
    ensures Holds(Booted(cfg, NEXT_ON), TornMem(l, mem, data, index), hist[..ITEMS * cfg.blockNum])
  {
    var m, part := TornMem(l, mem, data, index), hist[..ITEMS * cfg.blockNum];
    StorePlace(cfg, l, mem, hist);
    forall i | 0 <= i < |part| ensures SecondStands(m, part, i) && Indexed(m, part, i) {
      assert SecondStands(mem, hist, i) && Indexed(mem, hist, i);
      TornSecondStands(l, mem, hist, data, index, i);
      TornIndexed(l, mem, hist, data, index, i);
      assert SecondStands(m, hist, i) && Indexed(m, hist, i);
    }
  }

  lemma EventKeeps(w: World, ev: Event)
    requires Consistent(w) && CanHappen(w, ev)
    ensures Consistent(After(w, ev))
  {
    match ev
    case Second(e) => StoreHolds(w.l, w.mem, w.hist, e);
    case SaveConfig =>
    case PowerCycle => RestartHolds(w.saved, w.l, w.mem, w.hist);
    case TornSecond(data, index) => TornHolds(w.saved, w.l, w.mem, w.hist, data, index);
  }

  /** In a consistent state everything can happen: a save and a power loss always, and while the first lap has
      room any later second, and a power loss inside its store that leaves anything at all. */
  lemma AnythingCanHappen(w: World, e: Entry, data: seq<byte>, index: seq<byte>)
    requires Consistent(w) && |e.data| == |data| == 64_000 && |index| == 512
    requires 0 < e.ts && (w.hist != [] ==> w.hist[|w.hist| - 1].ts < e.ts)
    ensures CanHappen(w, SaveConfig) && CanHappen(w, PowerCycle)
    ensures |w.hist| < 480_000 ==> CanHappen(w, Second(e)) && CanHappen(w, TornSecond(data, index))
  {
    GeometryIsSane(w.l, w.mem);
  }

  /** Over every run of stores, saves and power losses of the first lap the log holds exactly its
      history. */
  lemma {:induction false} AlwaysConsistent(ws: seq<World>, evs: seq<Event>, i: nat)
    requires History(ws, evs) && i < |ws|
    ensures Consistent(ws[i])
  {
    if i > 0 {
      AlwaysConsistent(ws, evs, i - 1);
      assert Happens(ws[i - 1], evs[i - 1], ws[i - 1 + 1]);
      EventKeeps(ws[i - 1], evs[i - 1]);
    }
  }

  lemma StepDurable(w: World, ev: Event, n: nat)
    requires Consistent(w) && CanHappen(w, ev) && n <= ITEMS * w.saved.blockNum
    ensures var w' := After(w, ev);
            n <= ITEMS * w'.saved.blockNum && |w'.hist| >= n && w'.hist[..n] == w.hist[..n]
  {
  }

  /** What a saved record indexes survives everything that comes later. */
  lemma {:induction false} SavedIsDurable(ws: seq<World>, evs: seq<Event>, i: nat, j: nat, n: nat)
    requires History(ws, evs) && i <= j < |ws| && n == ITEMS * ws[i].saved.blockNum
    ensures Consistent(ws[i]) && Consistent(ws[j])
    ensures n <= ITEMS * ws[j].saved.blockNum <= |ws[j].hist| && ws[j].hist[..n] == ws[i].hist[..n]
  {
    AlwaysConsistent(ws, evs, i);
    AlwaysConsistent(ws, evs, j);
    if i < j {
      SavedIsDurable(ws, evs, i, j - 1, n);
      assert Happens(ws[j - 1], evs[j - 1], ws[j - 1 + 1]);
      StepDurable(ws[j - 1], evs[j - 1], n);
    }
  }

  /** How many seconds of the log a save covers: all but those in the RAM index. */
  ghost function Covered(w: World): int {
    |w.hist| - w.l.itemIndex
  }

  lemma SaveStep(w: World)
    requires Consistent(w)
    ensures var w' := After(w, SaveConfig);
            Covered(w) == ITEMS * w'.saved.blockNum && |w.hist| - ITEMS < Covered(w) <= |w.hist| && w'.hist == w.hist
  {
  }

  /** A save covers every second but the fewer than 64 of the RAM index: they stay through all that comes later. */
  lemma SaveCovers(ws: seq<World>, evs: seq<Event>, i: nat, j: nat)
    requires History(ws, evs) && i < j < |ws| && evs[i] == SaveConfig
    ensures Consistent(ws[j]) && 0 <= Covered(ws[i]) && |ws[i].hist| - ITEMS < Covered(ws[i]) <= |ws[i].hist|
    ensures Covered(ws[i]) <= |ws[j].hist| && ws[j].hist[..Covered(ws[i])] == ws[i].hist[..Covered(ws[i])]
  {
    hide Consistent, CanHappen, FirstStart, Covered;
    AlwaysConsistent(ws, evs, i);
    assert Happens(ws[i], evs[i], ws[i + 1]);
    SaveStep(ws[i]);
    SavedIsDurable(ws, evs, i + 1, j, Covered(ws[i]));
  }

  /** The log as a plain list, and how much of it the last save covers: a second is appended, a save covers
      whole index blocks, a loss goes back to what is covered. */
  ghost function Told(evs: seq<Event>): (r: (seq<Entry>, nat))
    ensures r.1 <= |r.0|
  {
    if evs == [] then ([], 0)
    else
      var (list, covered) := Told(evs[..|evs| - 1]);
      match evs[|evs| - 1]
      case Second(e) => (list + [e], covered)
      case SaveConfig => (list, 64 * (|list| / 64))
      case PowerCycle => (list[..covered], covered)
      case TornSecond(_, _) => (list[..covered], covered)
  }

  lemma ToldStep(w: World, ev: Event, list: seq<Entry>, covered: nat)
    requires Consistent(w) && CanHappen(w, ev) && covered <= |list|
    requires w.hist == list && ITEMS * w.saved.blockNum == covered
    ensures var w' := After(w, ev);
            match ev
            case Second(e) => w'.hist == list + [e] && ITEMS * w'.saved.blockNum == covered
            case SaveConfig => w'.hist == list && ITEMS * w'.saved.blockNum == 64 * (|list| / 64)
            case PowerCycle => w'.hist == list[..covered] && ITEMS * w'.saved.blockNum == covered
            case TornSecond(_, _) => w'.hist == list[..covered] && ITEMS * w'.saved.blockNum == covered
  {
    hide Geometry, Chronological, DataStands, IndexStands, TableStands, Stored, StoredMem, TornMem, Booted;
    if ev.SaveConfig? { WholeBlocks(w); }
  }

  lemma WholeBlocks(w: World)
    requires Consistent(w)
    ensures w.l.cfg.blockNum == |w.hist| / 64
  {
  }

  /** In every run of the first lap the log holds exactly what the events tell. */
  lemma {:induction false} HoldsWhatIsTold(ws: seq<World>, evs: seq<Event>, i: nat)
    requires History(ws, evs) && i < |ws|
    ensures Consistent(ws[i]) && ws[i].hist == Told(evs[..i]).0 && ITEMS * ws[i].saved.blockNum == Told(evs[..i]).1
  {
    hide Consistent, CanHappen, After;
    AlwaysConsistent(ws, evs, i);
    if i > 0 {
      HoldsWhatIsTold(ws, evs, i - 1);
      assert Happens(ws[i - 1], evs[i - 1], ws[i - 1 + 1]);
      assert evs[..i][..i - 1] == evs[..i - 1];
      var (list, covered) := Told(evs[..i - 1]);
      ToldStep(ws[i - 1], evs[i - 1], list, covered);
    }
  }

  /** Entry `k` of index blocks copied to the start of `t`. */
  lemma LoadedItem(t: seq<byte>, mem: seq<byte>, hist: seq<Entry>, num: nat, step: nat, k: nat)
    requires |mem| == BLOCK * CARD_BLOCKS && |hist| <= LAP && ITEMS * (num + step) <= |hist|
    requires IndexStands(mem, hist, ITEMS * (num + step)) && k < ITEMS * step && BLOCK * step <= |t|
    requires t[0..0 + BLOCK * step] == mem[BLOCK * (INDEX_START + num)..BLOCK * (INDEX_START + num) + BLOCK * step]
    ensures GetItem(t, 8 * k) == IndexItem(hist, ITEMS * num + k)
  {
    assert Indexed(mem, hist, ITEMS * num + k);
    CopiedItem(t, 0, mem, BLOCK * (INDEX_START + num), BLOCK * step, 8 * k);
  }

  /** The seconds in the RAM index lie between its first and its last timestamp. */
  lemma InRamTimes(l: Log, hist: seq<Entry>)
    requires Chronological(hist) && |hist| <= LAP && InRam(l, hist)
    ensures l.itemIndex > 0 ==>
              && l.table[0].ts == hist[|hist| - l.itemIndex].ts && l.table[l.itemIndex - 1].ts == hist[|hist| - 1].ts
              && forall i :: |hist| - l.itemIndex <= i < |hist| ==> l.table[0].ts <= hist[i].ts <= hist[|hist| - 1].ts
  {
    if l.itemIndex > 0 {
      assert l.table[0] == IndexItem(hist, |hist| - l.itemIndex + 0);
      assert l.table[l.itemIndex - 1] == IndexItem(hist, |hist| - l.itemIndex + (l.itemIndex - 1));
    }
  }

  /** A timestamp in the range of the RAM index is nowhere else. */
  lemma InRamOnly(l: Log, mem: seq<byte>, hist: seq<Entry>, ts: word)
    requires Chronological(hist) && |hist| <= LAP && InRam(l, hist) && l.table[0].ts <= ts
    ensures Holds(l, mem, hist) && (l.itemIndex > 0 || ts == 0) ==>
              forall i :: 0 <= i < |hist| - l.itemIndex ==> hist[i].ts != ts
  {
    InRamTimes(l, hist);
  }

  // ----- the object -----

  class AdcObject {
    const card: Emmc.Card
    const tables: array<byte>   // g_item_tables, ten blocks
    var strTime: word
    var endTime: word
    var addr: nat
    var indexAddr: nat
    var blockNum: nat
    var currBlock: nat
    var itemIndex: nat
    var table: seq<Item>
    var cfg: Config

    ghost predicate Valid()
      reads this, card
    {
      card.Valid() && Sane(Value(), card.mem) && tables.Length == 10 * BLOCK && tables != card.temp
    }

    ghost function Value(): Log
      reads this
    {
      Log(strTime, endTime, addr, indexAddr, blockNum, currBlock, itemIndex, table, cfg)
    }

    /** `Adc_Object_Init`. */
    constructor (card: Emmc.Card, cfg: Config, flag: nat)
      requires card.Valid() && |card.mem| == BLOCK * CARD_BLOCKS && cfg.currBlock < INDEX_BLOCKS
      ensures this.card == card && Value() == Booted(cfg, flag)
      ensures flag == FIRST_ON || flag == NEXT_ON ==> Valid()
      ensures fresh(tables)
    {
      this.card := card;
      this.cfg := cfg;
      tables := new byte[10 * BLOCK];
      itemIndex, table := 0, seq(ITEMS, i => Item(0, 0));
      blockNum, currBlock, addr, indexAddr, strTime, endTime := 0, 0, 0, 0, 0, 0;
      if flag == FIRST_ON {
        indexAddr := INDEX_START;
        addr := 0;
      } else if flag == NEXT_ON {
        blockNum, currBlock := cfg.blockNum, cfg.currBlock;
        addr := cfg.currBlock * ITEMS * SECOND_BLOCKS;
        indexAddr := INDEX_START + cfg.currBlock;
        endTime, strTime := cfg.endTime, cfg.strTime;
      }
    }

    /** `Storage_Write_AdcData`. */
    method WriteAdcData(ts: word, data: seq<byte>, flag: bool) returns (ret: int)
      requires Valid() && |data| % BLOCK == 0 && BLOCK * addr + |data| <= |card.mem|
      modifies this, card`mem
      ensures ret == 0 && card.Valid()
      ensures Value() == Stored(old(Value()), old(card.mem), ts, data, flag)
      ensures card.mem == StoredMem(old(Value()), old(card.mem), ts, data, flag)
    {
      var a := addr;
      card.EraseWriteBlocks(data, a, |data| / BLOCK);
      assert card.mem == Splice(old(card.mem), BLOCK * a, data);
      addr := a + |data| / BLOCK;
      if addr >= DATA_BLOCKS {
        addr := 0;
      }
      assert Value() == Advanced(old(Value()), |data| / BLOCK);
      if flag {
        AddItem(a, ts);
        assert card.mem == StoredMem(old(Value()), old(card.mem), ts, data, flag);
      }
      ret := 0;
    }

    /** The indexing half of the call. */
    method AddItem(a: word, ts: word)
      requires card.Valid() && |table| == ITEMS && itemIndex < ITEMS && BLOCK * (indexAddr + 2) <= |card.mem|
      modifies this, card`mem
      ensures card.Valid()
      ensures card.mem == if old(itemIndex) + 1 < ITEMS then old(card.mem)
                          else Splice(old(card.mem), BLOCK * old(indexAddr),
                                      PutTable(old(table)[old(itemIndex) := Item(a, ts)]))
      ensures Value() == NextIfFull(WithItem(old(Value()), Item(a, ts)), card.mem)
    {
      table := table[itemIndex := Item(a, ts)];
      itemIndex := itemIndex + 1;
      ghost var l2 := WithItem(old(Value()), Item(a, ts));
      assert Value() == l2;
      if itemIndex >= ITEMS {
        Flush();
        assert Value() == Flushed(l2, GetTable(card.mem, BLOCK * (l2.indexAddr + 1), ITEMS));
      }
    }

    /** The block in which a full index goes to the card. */
    method Flush()
      requires card.Valid() && |table| == ITEMS && BLOCK * (indexAddr + 2) <= |card.mem|
      modifies this, card`mem
      ensures card.Valid() && card.mem == Splice(old(card.mem), BLOCK * old(indexAddr), PutTable(old(table)))
      ensures Value() == Flushed(old(Value()), GetTable(card.mem, BLOCK * (old(indexAddr) + 1), ITEMS))
    {
      card.EraseWriteBlocks(PutTable(table), indexAddr, 1);
      NextTable(GetTable(card.mem, BLOCK * (indexAddr + 1), ITEMS));
    }

    method NextTable(ghost next: seq<Item>)
      requires card.Valid() && |table| == ITEMS && BLOCK * (indexAddr + 2) <= |card.mem|
      requires next == GetTable(card.mem, BLOCK * (indexAddr + 1), ITEMS)
      modifies this
      ensures Value() == Flushed(old(Value()), next)
    {
      hide GetTable, GetItem;
      if currBlock == 0 {
        if blockNum == INDEX_BLOCKS {
          table := LoadTable(indexAddr + 1);
        }
        strTime := table[0].ts;
      }
      endTime := table[ITEMS - 1].ts;
      itemIndex := 0;
      indexAddr := indexAddr + 1;
      blockNum := blockNum + 1;
      currBlock := currBlock + 1;
      if currBlock >= INDEX_BLOCKS {
        indexAddr := INDEX_START;
        currBlock := 0;
        blockNum := INDEX_BLOCKS;
      }
      cfg := Config(blockNum, currBlock, strTime, endTime);
    }

    /** `Storage_Clear_AdcData`. */
    method ClearAdcData()
      modifies this
      ensures Value() == Cleared(old(Value()))
    {
      indexAddr, addr, endTime, strTime, blockNum, currBlock := INDEX_START, 0, 0, 0, 0, 0;
    }

    method LoadTable(block: nat) returns (t: seq<Item>)
      requires card.Valid() && BLOCK * (block + 1) <= |card.mem|
      ensures t == GetTable(card.mem, BLOCK * block, ITEMS)
    {
      hide GetItem, GetTable;
      var buf := new byte[BLOCK];
      card.ReadBlocks(buf, 0, block, 1);
      t := GetTable(buf[..], 0, ITEMS);
      assert buf[..][0..0 + BLOCK] == card.mem[BLOCK * block..BLOCK * block + BLOCK];
      forall i | 0 <= i < ITEMS ensures t[i] == GetItem(card.mem, BLOCK * block + 8 * i) {
        CopiedItem(buf[..], 0, card.mem, BLOCK * block, BLOCK, 8 * i);
      }
    }

    /** The bytes asked for, if second `i` is the one. */
    method ReadSecond(buff: array<byte>, addr: nat, blockOff: nat, n: nat, ghost hist: seq<Entry>, ghost i: nat)
      requires card.Valid() && |card.mem| == BLOCK * CARD_BLOCKS && Chronological(hist) && i < |hist| <= LAP
      requires DataStands(card.mem, hist) && addr == SECOND_BLOCKS * i
      requires blockOff + n <= SECOND_BLOCKS && BLOCK * n <= buff.Length
      modifies buff
      ensures buff[..] == Splice(old(buff[..]), 0, hist[i].data[BLOCK * blockOff..BLOCK * (blockOff + n)])
    {
      assert SecondStands(card.mem, hist, i);
      SubSlice(card.mem, SECOND_BYTES * i, SECOND_BYTES * i + SECOND_BYTES, BLOCK * blockOff, BLOCK * (blockOff + n));
      card.ReadBlocks(buff, 0, addr + blockOff, n);
    }

    /** `Storage_Read_AdcData` on the first lap: 0 with the bytes of the second if it was stored, -1
        and an untouched buffer if it was not, wherever its index entry is.  With an empty RAM table
        the word in front of the table is read; it holds item_index and cleared padding, so 0.  After a clear
        only the seconds that were in the RAM index are still found. */
    method ReadAdcData(ts: word, blockOff: nat, buff: array<byte>, n: nat, ghost hist: seq<Entry>) returns (ret: int)
      requires Valid() && (Holds(Value(), card.mem, hist) || Leftover(Value(), card.mem, hist))
      requires blockOff + n <= SECOND_BLOCKS && BLOCK * n <= buff.Length
      requires buff != tables && buff != card.temp
      modifies buff, tables
      ensures ret == 0 || ret == -1
      ensures Holds(Value(), card.mem, hist) ==> (ret == 0 <==> exists i :: 0 <= i < |hist| && hist[i].ts == ts)
      ensures Leftover(Value(), card.mem, hist) ==>
        (ret == 0 <==> exists i :: |hist| - itemIndex <= i < |hist| && hist[i].ts == ts)
      ensures ret == 0 ==> forall i :: 0 <= i < |hist| && hist[i].ts == ts ==>
        buff[..] == Splice(old(buff[..]), 0, hist[i].data[BLOCK * blockOff..BLOCK * (blockOff + n)])
      ensures ret == -1 ==> buff[..] == old(buff[..])
    {
      if Holds(Value(), card.mem, hist) {
        HoldsInRam(Value(), card.mem, hist);
      }
      InRamTimes(Value(), hist);
      var newest := if itemIndex == 0 then 0 else table[itemIndex - 1].ts;
      hide Holds, Leftover, InRam;
      if table[0].ts <= ts && ts <= newest {
        ret := ReadFromRam(ts, blockOff, buff, n, hist);
        InRamOnly(Value(), card.mem, hist, ts);
      } else {
        ret := ReadFromCard(ts, blockOff, buff, n, hist);
      }
    }

    method ReadFromRam(ts: word, blockOff: nat, buff: array<byte>, n: nat, ghost hist: seq<Entry>) returns (ret: int)
      requires Valid() && Chronological(hist) && |hist| <= LAP && DataStands(card.mem, hist) && InRam(Value(), hist)
      requires blockOff + n <= SECOND_BLOCKS && BLOCK * n <= buff.Length
      modifies buff
      ensures ret == 0 || ret == -1
      ensures ret == 0 <==> exists i :: |hist| - itemIndex <= i < |hist| && hist[i].ts == ts
      ensures ret == 0 ==> forall i :: 0 <= i < |hist| && hist[i].ts == ts ==>
        buff[..] == Splice(old(buff[..]), 0, hist[i].data[BLOCK * blockOff..BLOCK * (blockOff + n)])
      ensures ret == -1 ==> buff[..] == old(buff[..])
    {
      ghost var base := |hist| - itemIndex;
      for i := 0 to itemIndex
        invariant buff[..] == old(buff[..])
        invariant forall k :: base <= k < base + i ==> hist[k].ts != ts
      {
        assert table[i] == IndexItem(hist, base + i);
        if ts == table[i].ts {
          ReadSecond(buff, table[i].addr, blockOff, n, hist, base + i);
          return 0;
        }
      }
      ret := -1;
    }

    /** Up to ten index blocks at a time. */
    method LoadIndex(num: nat, step: nat, ghost hist: seq<Entry>)
      requires Valid() && Holds(Value(), card.mem, hist) && 0 < step <= 10 && num + step <= blockNum
      modifies tables
      ensures forall k :: 0 <= k < ITEMS * step ==> GetItem(tables[..], 8 * k) == IndexItem(hist, ITEMS * num + k)
    {
      ghost var at, len := BLOCK * (INDEX_START + num), BLOCK * step;
      card.ReadBlocks(tables, 0, INDEX_START + num, step);
      assert tables[..][0..0 + len] == card.mem[at..at + len];
      forall k | 0 <= k < ITEMS * step ensures GetItem(tables[..], 8 * k) == IndexItem(hist, ITEMS * num + k) {
        LoadedItem(tables[..], card.mem, hist, num, step, k);
      }
    }

    /** Looks for `ts` in the loaded blocks, whose entries begin with second `base`. */
    method Scan(ts: word, count: nat, ghost base: nat, ghost hist: seq<Entry>) returns (found: bool, addr: nat, i: nat)
      requires Valid() && |hist| <= LAP && base + count <= |hist| && 8 * count <= tables.Length
      requires forall k :: 0 <= k < count ==> GetItem(tables[..], 8 * k) == IndexItem(hist, base + k)
      ensures if found then i < count && hist[base + i].ts == ts && addr == SECOND_BLOCKS * (base + i)
              else forall k :: base <= k < base + count ==> hist[k].ts != ts
    {
      found, addr, i := false, 0, 0;
      for j := 0 to count
        invariant forall k :: base <= k < base + j ==> hist[k].ts != ts
      {
        var item := GetItem(tables[..], 8 * j);
        if ts == item.ts {
          return true, item.addr, j;
        }
      }
    }

    method ReadFromCard(ts: word, blockOff: nat, buff: array<byte>, n: nat, ghost hist: seq<Entry>) returns (ret: int)
      requires Valid() && (blockNum > 0 ==> Holds(Value(), card.mem, hist))
      requires blockOff + n <= SECOND_BLOCKS && BLOCK * n <= buff.Length
      requires buff != tables && buff != card.temp
      modifies buff, tables
      ensures ret == 0 || ret == -1
      ensures blockNum == 0 ==> ret == -1
      ensures blockNum > 0 ==>
        (ret == 0 <==> exists i :: 0 <= i < |hist| - itemIndex && hist[i].ts == ts)
      ensures ret == 0 ==> forall i :: 0 <= i < |hist| && hist[i].ts == ts ==>
        buff[..] == Splice(old(buff[..]), 0, hist[i].data[BLOCK * blockOff..BLOCK * (blockOff + n)])
      ensures ret == -1 ==> buff[..] == old(buff[..])
    {
      hide Sane, TableStands, Indexed, SecondStands, GetItem;
      var num := 0;
      while num < blockNum
        invariant num <= blockNum && buff[..] == old(buff[..])
        invariant forall i :: 0 <= i < ITEMS * num ==> hist[i].ts < ts
      {
        var step := if blockNum - num > 10 then 10 else blockNum - num;
        LoadIndex(num, step, hist);
        ghost var base, last := ITEMS * num, ITEMS * (num + step) - 1;
        assert GetItem(tables[..], 8 * (ITEMS * step - 1)) == IndexItem(hist, base + (ITEMS * step - 1));
        if GetItem(tables[..], 8 * (ITEMS * step - 1)).ts >= ts {
          var found, addr, i := Scan(ts, ITEMS * step, base, hist);
          if found {
            ReadSecond(buff, addr, blockOff, n, hist, base + i);
            return 0;
          }
          assert hist[last].ts >= ts;
          return -1;
        }
        assert hist[last].ts < ts;
        num := num + step;
      }
      return -1;
    }
  }
}
