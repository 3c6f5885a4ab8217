/** Looking a second up in the sample log, as the alarm task and the message task do. */
module LogLookup {
  import opened Bytes
  import opened Records
  import Log = SampleLog

  const SECOND := 64_000

  /** Second `ts` is in the log. */
  ghost predicate Has(hist: seq<Log.Entry>, ts: word) {
    exists i :: 0 <= i < |hist| && hist[i].ts == ts
  }

  ghost function DataOf(hist: seq<Log.Entry>, ts: word): seq<byte> {
    if Has(hist, ts) then
      var i :| 0 <= i < |hist| && hist[i].ts == ts;
      hist[i].data
    else []
  }

  /** Timestamps name their seconds. */
  lemma DataIs(hist: seq<Log.Entry>, i: nat)
    requires Log.Chronological(hist) && i < |hist|
    ensures Has(hist, hist[i].ts) && DataOf(hist, hist[i].ts) == hist[i].data
  {
  }

  /** What `Storage_Read_AdcData` gets for a whole second into a buffer of 125 blocks. */
  method Look(adc: Log.AdcObject, ts: word, ghost hist: seq<Log.Entry>) returns (found: bool, data: seq<byte>)
    requires adc.Valid() && Log.Holds(adc.Value(), adc.card.mem, hist)
    modifies adc.tables
    ensures found <==> Has(hist, ts)
    ensures |data| == SECOND && (found ==> data == DataOf(hist, ts))
  {
    var buff := new byte[SECOND](_ => 0);
    var ret := adc.ReadAdcData(ts, 0, buff, 125, hist);
    found, data := ret == 0, buff[..];
    if found {
      ghost var i :| 0 <= i < |hist| && hist[i].ts == ts && hist[i].data == DataOf(hist, ts);
      assert hist[i].data[0..SECOND] == hist[i].data;
    }
  }
}
