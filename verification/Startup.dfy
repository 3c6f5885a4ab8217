/** Starting the recorder: `system_init` on the stored configuration record, then the two stores. */
module Startup {
  import opened Bytes
  import opened Records
  import Emmc
  import Log = SampleLog
  import NorFlash
  import Store = AlarmStore

  /** The fields of `ConfigInfo_t` the stores start from; `calibrated` is `cal_flag == DEV_CAL_END`. */
  datatype ConfigInfo = ConfigInfo(flag: nat, calibrated: bool, log: Log.Config, alarmNum: nat)

  predicate Known(flag: nat) { flag == FIRST_ON || flag == NEXT_ON }

  /** `system_init`: an unknown flag makes a factory start, calibration ends the first start. */
  function Normalised(c: ConfigInfo): ConfigInfo {
    if !Known(c.flag) then ConfigInfo(FIRST_ON, false, Log.Config(0, 0, 0, 0), 0)
    else if c.flag == FIRST_ON && c.calibrated then c.(flag := NEXT_ON)
    else c
  }

  /** No stored flag whatever starts the log with its geometry broken. */
  lemma AlwaysGeometry(c: ConfigInfo)
    requires Known(c.flag) ==> c.log.currBlock < Log.INDEX_BLOCKS
    ensures Normalised(c).log.currBlock < Log.INDEX_BLOCKS
    ensures Log.Geometry(Log.Booted(Normalised(c).log, Normalised(c).flag))
  {
    Log.BootGeometry(Normalised(c).log, Normalised(c).flag);
  }

  /** How much of the log and of the alarms a start goes back to. */
  function Resumed(c: ConfigInfo): (nat, nat) {
    var n := Normalised(c);
    if n.flag == NEXT_ON then (Log.ITEMS * n.log.blockNum, n.alarmNum) else (0, 0)
  }

  /** A start on what an earlier run left behind.  The log is sound unless a first start meets a record with
      a position; the alarm store is sound after a factory start, and otherwise exactly if no cell behind the
      alarms it goes back to has been programmed. */
  lemma StartIff(c: ConfigInfo, l: Log.Log, card: seq<byte>, hist: seq<Log.Entry>,
                 s: Store.Store, flash: seq<byte>, alarms: seq<Store.Alarm>, pend: Store.Pending, after: seq<byte>)
    requires Log.Holds(l, card, hist) && (Known(c.flag) ==> Log.Describes(c.log, hist))
    requires Store.Recorded(s, flash, alarms, pend) && (Known(c.flag) ==> c.alarmNum <= |alarms|)
    requires |after| == NorFlash.CHIP
    requires if Known(c.flag) then after == flash else NorFlash.Erased(after, 0, NorFlash.CHIP)
    ensures Normalised(c).log.currBlock < Log.INDEX_BLOCKS && Resumed(c).0 <= |hist| && Resumed(c).1 <= |alarms|
    ensures var n := Normalised(c);
            Log.Holds(Log.Booted(n.log, n.flag), card, hist[..Resumed(c).0])
            <==> n.flag == NEXT_ON || n.log == Log.Config(0, 0, 0, 0)
    ensures var n := Normalised(c);
            Store.Recorded(Store.Initialised(n.alarmNum, n.flag), after, alarms[..Resumed(c).1], Store.Nothing)
            <==> !Known(c.flag)
                 || (Resumed(c).1 == |alarms|
                     && (pend.Collecting? ==> Store.AllOnes(pend.msg) && Store.AllOnes(pend.info)))
  {
    hide Store.Recorded;
    var n := Normalised(c);
    if n.flag == NEXT_ON {
      Log.RestartHolds(c.log, l, card, hist);
    } else {
      EmptyIff(n.log, card);
    }
    if Known(c.flag) {
      Store.RestartIff(s, flash, alarms, pend, Resumed(c).1);
    } else {
      Store.InitialisedIff(0, FIRST_ON, after);
      assert alarms[..0] == [];
    }
  }

  /** A first start holds the empty log exactly if the record has no position. */
  lemma EmptyIff(cfg: Log.Config, card: seq<byte>)
    requires |card| == Log.BLOCK * Log.CARD_BLOCKS && cfg.currBlock < Log.INDEX_BLOCKS
    ensures Log.Holds(Log.Booted(cfg, FIRST_ON), card, []) <==> cfg == Log.Config(0, 0, 0, 0)
  {
  }

  /** `start_task` as far as the stores are concerned: `system_init`, then `storage_manage_start`.  `saved` is
      the record in the EEPROM afterwards. */
  method StartTask(card: Emmc.Card, flash: NorFlash.Flash, stored: ConfigInfo)
      returns (info: ConfigInfo, saved: ConfigInfo, adc: Log.AdcObject, alarm: Store.AlarmObject)
    requires card.Valid() && |card.mem| == Log.BLOCK * Log.CARD_BLOCKS && flash.Valid()
    requires Known(stored.flag) ==> stored.log.currBlock < Log.INDEX_BLOCKS
    modifies flash
    ensures info == Normalised(stored) && saved == (if Known(stored.flag) then stored else info)
    ensures adc.card == card && adc.Valid() && Log.Geometry(adc.Value())
    ensures info.log.currBlock < Log.INDEX_BLOCKS && adc.Value() == Log.Booted(info.log, info.flag)
    ensures alarm.flash == flash && alarm.Value() == Store.Initialised(info.alarmNum, info.flag)
    ensures alarm.savedNum == info.alarmNum
    ensures flash.Valid()
    ensures if Known(stored.flag) then flash.mem == old(flash.mem) else NorFlash.Erased(flash.mem, 0, NorFlash.CHIP)
  {
    info, saved := stored, stored;
    if stored.flag != FIRST_ON && stored.flag != NEXT_ON {
      info := ConfigInfo(FIRST_ON, false, Log.Config(0, 0, 0, 0), 0);
      saved := info;
      flash.EraseChip();
    } else if stored.flag == FIRST_ON && stored.calibrated {
      info := info.(flag := NEXT_ON);
    }
    AlwaysGeometry(stored);
    adc := new Log.AdcObject(card, info.log, info.flag);
    alarm := new Store.AlarmObject(flash, info.alarmNum, info.flag);
  }

  /** A record in use, or one of a first start after calibration, resumes all it covers; any other start
      resumes nothing. */
  lemma ResumedMeans(c: ConfigInfo)
    ensures c.flag == 0xA5 || (c.flag == 0x5A && c.calibrated) ==>
              Resumed(c) == (64 * c.log.blockNum, c.alarmNum) && Normalised(c) == c.(flag := NEXT_ON)
    ensures !(c.flag == 0xA5 || (c.flag == 0x5A && c.calibrated)) ==>
              Resumed(c) == (0, 0) && Normalised(c).flag == FIRST_ON
    ensures c.flag != 0xA5 && c.flag != 0x5A ==>
              Normalised(c) == ConfigInfo(FIRST_ON, false, Log.Config(0, 0, 0, 0), 0)
  {
  }

  /** `kt_ClearData` on the two stores.  The alarms are gone; the sample log is empty exactly if its RAM index
      was, and otherwise still finds the seconds of that index. */
  method ClearData(info: ConfigInfo, adc: Log.AdcObject, alarm: Store.AlarmObject, ghost hist: seq<Log.Entry>)
      returns (cleared: ConfigInfo)
    requires adc.Valid() && Log.Holds(adc.Value(), adc.card.mem, hist)
    modifies adc, alarm, alarm.flash
    ensures cleared == ConfigInfo(FIRST_ON, info.calibrated, Log.Config(0, 0, 0, 0), 0)
    ensures alarm.flash.Valid() && alarm.savedNum == 0
    ensures Store.Recorded(alarm.Value(), alarm.flash.mem, [], Store.Nothing)
    ensures adc.itemIndex == old(adc.itemIndex) && Log.Leftover(adc.Value(), adc.card.mem, hist)
    ensures Log.Holds(adc.Value(), adc.card.mem, []) <==> old(adc.itemIndex) == 0
  {
    Log.ClearHolds(adc.Value(), adc.card.mem, hist);
    Log.ClearLeaves(adc.Value(), adc.card.mem, hist);
    adc.cfg := Log.Config(0, 0, 0, 0);
    alarm.savedNum := 0;
    cleared := ConfigInfo(FIRST_ON, info.calibrated, Log.Config(0, 0, 0, 0), 0);
    alarm.ClearAlarmData();
    adc.ClearAdcData();
  }
}
