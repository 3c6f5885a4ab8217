/** Responses to a sample-data request: 848-byte frames that carry 50 items each, four converted words
    per item, with the stamp and the temperature of the first of them. */
module SampleResponse {
  import opened Bytes
  import opened Calendar
  import opened Records
  import opened Wire

  const ITEM := 64              // ADC_ITEM_SIZE
  const ITEMS := 1000           // ADC_ITEM_NUM_PER_SECOND
  const SHARE := 50             // items in a response
  const SECOND_SIZE := 64_000
  const SIZE := 848             // header, SampleDataRes_t and checksum
  const SAMPLE_DATA_RES: byte := 0xA1

  // ----- the items of a second -----

  /** The 64000 bytes of a second. */
  type SecondData = b: seq<byte> | |b| == SECOND_SIZE witness Zeros(SECOND_SIZE)

  /** `data[0]` to `data[3]` of an `AdcItem_t`. */
  datatype Reading = Reading(fCur: word, fVlt: word, rCur: word, rVlt: word)

  function ReadingOf(b: SecondData, i: nat): Reading
    requires i < ITEMS
  {
    Reading(GetWord(b, ITEM * i + 22), GetWord(b, ITEM * i + 26), GetWord(b, ITEM * i + 30), GetWord(b, ITEM * i + 34))
  }

  function Readings(b: SecondData, from: nat, n: nat): (r: seq<Reading>)
    requires from + n <= ITEMS
    ensures |r| == n
  {
    seq(n, i requires 0 <= i < n => ReadingOf(b, from + i))
  }

  /** The item's own date, millisecond stamp and temperature. */
  function TimeOf(b: SecondData, i: nat): (t: seq<byte>)
    requires i < ITEMS
    ensures |t| == 6
  {
    b[ITEM * i..ITEM * i + 6]
  }

  datatype Stamp = Stamp(high: word, low: word)

  function StampOf(b: SecondData, i: nat): Stamp
    requires i < ITEMS
  {
    Stamp(GetWord(b, ITEM * i + 10), GetWord(b, ITEM * i + 6))
  }

  function TempOf(b: SecondData, i: nat): word
    requires i < ITEMS
  {
    GetWord(b, ITEM * i + 38)
  }

  // ----- the response -----

  /** `SampleDataRes_t`. */
  datatype Response = Response(total: word, curr: word, time: seq<byte>, stamp: Stamp, temp: word, data: seq<Reading>)

  predicate WellFormed(r: Response) { |r.time| == 6 && |r.data| == SHARE }

  function Silence(n: nat): (r: seq<Reading>)
    ensures |r| == n
  {
    seq(n, _ => Reading(0, 0, 0, 0))
  }

  /** The date of a second in BCD. */
  function BcdBytes(ts: word): (t: seq<byte>)
    ensures |t| == 6
  {
    DateOfMeans(ts);
    BytesOf(BcdTime(Compact(DateOf(ts))))
  }

  function BytesOf(t: SystemTime): (b: seq<byte>)
    ensures |b| == 6
  {
    [t.ucYear, t.ucMonth, t.ucDay, t.ucHour, t.ucMin, t.ucScd]
  }

  /** The millisecond stamp of response `num` for a second that was never stored. */
  function MissingStamp(ts: word, num: nat): Stamp
    requires num < 20
  {
    var ms := ts * 1000 + num * 50;
    Stamp(ms / U32, ms % U32)
  }

  // ----- its frame -----

  function Head(total: word): (b: seq<byte>)
    ensures |b| == 9
  {
    PutHigh(FRAME_HEAD) + PutHigh(SIZE) + [SAMPLE_DATA_RES] + PutBig(total)
  }

  function PutStamp(s: Stamp): (b: seq<byte>)
    ensures |b| == 8
  {
    PutBig(s.high) + PutBig(s.low)
  }

  function PutReading(r: Reading): (b: seq<byte>)
    ensures |b| == 16
  {
    PutBig(r.fCur) + PutBig(r.fVlt) + PutBig(r.rCur) + PutBig(r.rVlt)
  }

  function PutData(d: seq<Reading>): (b: seq<byte>)
    ensures |b| == 16 * |d|
  {
    if d == [] then [] else PutData(d[..|d| - 1]) + PutReading(d[|d| - 1])
  }

  /** The fields behind the total. */
  function Fields(r: Response): (b: seq<byte>)
    requires WellFormed(r)
    ensures |b| == 822
  {
    PutBig(r.curr) + r.time + PutStamp(r.stamp) + PutBig(r.temp) + PutData(r.data)
  }

  function Body(r: Response): (b: seq<byte>)
    requires WellFormed(r)
    ensures |b| == SIZE - 2
  {
    Head(r.total) + Fields(r) + Zeros(15)
  }

  function Frame(r: Response): (b: seq<byte>)
    requires WellFormed(r)
    ensures |b| == SIZE
  {
    Body(r) + PutHigh(Sum(Body(r)) % 0x1_0000)
  }

  // ----- the peer -----

  function GetReading(f: seq<byte>, at: nat): Reading
    requires at + 16 <= |f|
  {
    Reading(GetBig(f, at), GetBig(f, at + 4), GetBig(f, at + 8), GetBig(f, at + 12))
  }

  function Parse(f: seq<byte>): Response
    requires |f| == SIZE
  {
    Response(GetBig(f, 5), GetBig(f, 9), f[13..19], Stamp(GetBig(f, 19), GetBig(f, 23)), GetBig(f, 27),
             seq(SHARE, i requires 0 <= i < SHARE => GetReading(f, 31 + 16 * i)))
  }

  predicate Sound(f: seq<byte>)
    requires |f| == SIZE
  {
    && GetHigh(f, 0) == FRAME_HEAD && GetHigh(f, 2) == SIZE && f[4] == SAMPLE_DATA_RES
    && Sum(f[..SIZE - 2]) % 0x1_0000 == GetHigh(f, SIZE - 2)
  }

  lemma ReadingRoundTrip(f: seq<byte>, at: nat, r: Reading)
    requires ReadingStands(f, at, r)
    ensures at + 16 <= |f| && GetReading(f, at) == r
  {
    var b := PutReading(r);
    PartStands(f, at, b, [], PutBig(r.fCur), PutBig(r.fVlt) + PutBig(r.rCur) + PutBig(r.rVlt));
    PartStands(f, at, b, PutBig(r.fCur), PutBig(r.fVlt), PutBig(r.rCur) + PutBig(r.rVlt));
    PartStands(f, at, b, PutBig(r.fCur) + PutBig(r.fVlt), PutBig(r.rCur), PutBig(r.rVlt));
    PartStands(f, at, b, PutBig(r.fCur) + PutBig(r.fVlt) + PutBig(r.rCur), PutBig(r.rVlt), []);
    BigRoundTrip(f, at, r.fCur);
    BigRoundTrip(f, at + 4, r.fVlt);
    BigRoundTrip(f, at + 8, r.rCur);
    BigRoundTrip(f, at + 12, r.rVlt);
  }

  ghost predicate ReadingStands(f: seq<byte>, at: nat, r: Reading) {
    Stands(f, at, PutReading(r))
  }

  lemma {:induction false} DataPlaces(f: seq<byte>, at: nat, d: seq<Reading>, i: nat, r: Reading, place: nat)
    requires Stands(f, at, PutData(d)) && i < |d| && r == d[i] && place == at + 16 * i
    ensures ReadingStands(f, place, r)
  {
    var k := |d| - 1;
    var front, back := PutData(d[..k]), PutReading(d[k]);
    assert PutData(d) == front + back;
    HalvesStand(f, at, front, back);
    if i < k {
      DataPlaces(f, at, d[..k], i, r, place);
    }
  }

  ghost predicate AllStand(f: seq<byte>, at: nat, d: seq<Reading>) {
    forall i :: 0 <= i < |d| ==> ReadingStands(f, at + 16 * i, d[i])
  }

  lemma AllPlaces(f: seq<byte>, at: nat, d: seq<Reading>)
    requires Stands(f, at, PutData(d))
    ensures AllStand(f, at, d)
  {
    forall i | 0 <= i < |d| ensures ReadingStands(f, at + 16 * i, d[i]) {
      DataPlaces(f, at, d, i, d[i], at + 16 * i);
    }
  }

  /** Where the parts of a response stand in its frame. */
  lemma FramePlaces(r: Response)
    requires WellFormed(r)
    ensures var f := Frame(r);
            && Stands(f, 0, Head(r.total)) && Stands(f, 9, Fields(r)) && f[..SIZE - 2] == Body(r)
            && Stands(f, SIZE - 2, PutHigh(Sum(Body(r)) % 0x1_0000))
  {
  }

  lemma FieldPlaces(f: seq<byte>, r: Response)
    requires WellFormed(r) && Stands(f, 9, Fields(r))
    ensures Stands(f, 9, PutBig(r.curr)) && Stands(f, 13, r.time) && Stands(f, 19, PutStamp(r.stamp))
    ensures Stands(f, 27, PutBig(r.temp)) && Stands(f, 31, PutData(r.data))
  {
    var c, s, t, d := PutBig(r.curr), PutStamp(r.stamp), PutBig(r.temp), PutData(r.data);
    PartStands(f, 9, Fields(r), [], c, r.time + s + t + d);
    PartStands(f, 9, Fields(r), c, r.time, s + t + d);
    PartStands(f, 9, Fields(r), c + r.time, s, t + d);
    PartStands(f, 9, Fields(r), c + r.time + s, t, d);
    PartStands(f, 9, Fields(r), c + r.time + s + t, d, []);
  }

  lemma HeadPlaces(f: seq<byte>, total: word)
    requires Stands(f, 0, Head(total))
    ensures |f| >= 9 && GetHigh(f, 0) == FRAME_HEAD && GetHigh(f, 2) == SIZE && f[4] == SAMPLE_DATA_RES
    ensures GetBig(f, 5) == total
  {
    var a, b, s := PutHigh(FRAME_HEAD), PutHigh(SIZE), [SAMPLE_DATA_RES];
    PartStands(f, 0, Head(total), [], a, b + s + PutBig(total));
    PartStands(f, 0, Head(total), a, b, s + PutBig(total));
    PartStands(f, 0, Head(total), a + b, s, PutBig(total));
    PartStands(f, 0, Head(total), a + b + s, PutBig(total), []);
    assert f[4..5][0] == f[4];
    HighRoundTrip(f, 0, FRAME_HEAD);
    HighRoundTrip(f, 2, SIZE);
    BigRoundTrip(f, 5, total);
  }

  lemma StampRoundTrip(f: seq<byte>, at: nat, s: Stamp)
    requires Stands(f, at, PutStamp(s))
    ensures Stamp(GetBig(f, at), GetBig(f, at + 4)) == s
  {
    HalvesStand(f, at, PutBig(s.high), PutBig(s.low));
    BigRoundTrip(f, at, s.high);
    BigRoundTrip(f, at + 4, s.low);
  }

  /** The peer accepts the frame and reads the response back. */
  lemma FrameReadable(r: Response)
    requires WellFormed(r)
    ensures Sound(Frame(r)) && Parse(Frame(r)) == r
  {
    var f := Frame(r);
    FramePlaces(r);
    HeadPlaces(f, r.total);
    FieldPlaces(f, r);
    HighRoundTrip(f, SIZE - 2, Sum(Body(r)) % 0x1_0000);
    BigRoundTrip(f, 9, r.curr);
    StampRoundTrip(f, 19, r.stamp);
    BigRoundTrip(f, 27, r.temp);
    AllPlaces(f, 31, r.data);
    ParsedData(f, r.data);
  }

  lemma ParsedData(f: seq<byte>, d: seq<Reading>)
    requires |f| == SIZE && |d| == SHARE && AllStand(f, 31, d)
    ensures Parse(f).data == d
  {
    var p := Parse(f).data;
    forall i | 0 <= i < SHARE ensures p[i] == d[i] {
      assert ReadingStands(f, 31 + 16 * i, d[i]);
      ReadingRoundTrip(f, 31 + 16 * i, d[i]);
    }
  }

  // ----- filling g_send -----

  /** What all responses to one message share. */
  ghost predicate Prepared(buf: seq<byte>, total: word) {
    |buf| == SIZE && Stands(buf, 0, Head(total)) && Stands(buf, 831, Zeros(15))
  }

  /** And what is left of it when the second is missing: its date, and zeros for temperature and readings. */
  ghost predicate PreparedMissing(buf: seq<byte>, total: word, time: seq<byte>) {
    Prepared(buf, total) && |time| == 6 && Stands(buf, 13, time) && Stands(buf, 27, Zeros(804))
  }

  lemma {:induction false} SilentBytes(n: nat)
    ensures PutData(Silence(n)) == Zeros(16 * n)
  {
    if n > 0 {
      assert Silence(n)[..n - 1] == Silence(n - 1);
      SilentBytes(n - 1);
      assert PutReading(Reading(0, 0, 0, 0)) == Zeros(16);
    }
  }

  /** `memset` and the stores before the loop. */
  method Prepare(total: word) returns (buf: seq<byte>)
    ensures Prepared(buf, total) && Stands(buf, 27, Zeros(804))
  {
    buf := Zeros(SIZE);
    buf := Splice(buf, 0, PutHigh(FRAME_HEAD));
    buf := Splice(buf, 2, PutHigh(SIZE));
    buf := buf[4 := SAMPLE_DATA_RES];
    buf := Splice(buf, 5, PutBig(total));
    assert buf[0..9] == Head(total);
  }

  /** The checksum closes a frame whose fields are in place. */
  method Close(was: seq<byte>, ghost r: Response) returns (buf: seq<byte>)
    requires Prepared(was, r.total) && WellFormed(r) && Stands(was, 9, Fields(r))
    ensures buf == Frame(r) && buf[..SIZE - 2] == was[..SIZE - 2]
  {
    assert was[..SIZE - 2] == was[0..9] + was[9..831] + was[831..SIZE - 2];
    assert was[..SIZE - 2] == Body(r);
    var crc := CheckSum8(was[..SIZE - 2]);
    buf := Splice(was, SIZE - 2, PutHigh(crc));
    assert buf[..SIZE - 2] == Body(r) && buf[SIZE - 2..] == PutHigh(crc);
    assert buf == buf[..SIZE - 2] + buf[SIZE - 2..];
  }

  /** The four words of one item. */
  method StoreReading(was: seq<byte>, at: nat, r: Reading) returns (buf: seq<byte>)
    requires at + 16 <= |was|
    ensures buf == Splice(was, at, PutReading(r))
  {
    buf := Splice(was, at, PutBig(r.fCur));
    buf := Splice(buf, at + 4, PutBig(r.fVlt));
    buf := Splice(buf, at + 8, PutBig(r.rCur));
    buf := Splice(buf, at + 12, PutBig(r.rVlt));
    SpliceSplice(was, at, PutBig(r.fCur), PutBig(r.fVlt));
    SpliceSplice(was, at, PutBig(r.fCur) + PutBig(r.fVlt), PutBig(r.rCur));
    SpliceSplice(was, at, PutBig(r.fCur) + PutBig(r.fVlt) + PutBig(r.rCur), PutBig(r.rVlt));
  }

  lemma NextReading(b: SecondData, from: nat, i: nat)
    requires from + i < ITEMS
    ensures PutData(Readings(b, from, i + 1)) == PutData(Readings(b, from, i)) + PutReading(ReadingOf(b, from + i))
  {
    assert Readings(b, from, i + 1)[..i] == Readings(b, from, i);
  }

  lemma NextStore(was: seq<byte>, b: SecondData, from: nat, i: nat)
    requires |was| == SIZE && i < SHARE && from + i < ITEMS
    ensures Splice(Splice(was, 31, PutData(Readings(b, from, i))), 31 + 16 * i, PutReading(ReadingOf(b, i + from)))
         == Splice(was, 31, PutData(Readings(b, from, i + 1)))
  {
    NextReading(b, from, i);
    SpliceSplice(was, 31, PutData(Readings(b, from, i)), PutReading(ReadingOf(b, from + i)));
  }

  /** The inner loop. */
  method StoreReadings(was: seq<byte>, b: SecondData, num: nat) returns (buf: seq<byte>)
    requires |was| == SIZE && num < 20
    ensures buf == Splice(was, 31, PutData(Readings(b, num * SHARE, SHARE)))
  {
    buf := was;
    assert Splice(was, 31, []) == was;
    for index := 0 to SHARE
      invariant buf == Splice(was, 31, PutData(Readings(b, num * SHARE, index)))
    {
      NextStore(was, b, num * SHARE, index);
      buf := StoreReading(buf, 31 + 16 * index, ReadingOf(b, index + num * SHARE));
    }
  }

  /** The response for a share of a stored second. */
  function Found(total: word, curr: word, b: SecondData, num: nat): (r: Response)
    requires num < 20
    ensures WellFormed(r)
  {
    Response(total, curr, TimeOf(b, num * SHARE), StampOf(b, num * SHARE), TempOf(b, num * SHARE),
             Readings(b, num * SHARE, SHARE))
  }

  function Missing(total: word, curr: word, ts: word, num: nat): (r: Response)
    requires num < 20
    ensures WellFormed(r)
  {
    Response(total, curr, BcdBytes(ts), MissingStamp(ts, num), 0, Silence(SHARE))
  }

  /** One turn for a stored second: all fields are stored one behind the other. */
  method FillFound(was: seq<byte>, total: word, curr: word, b: SecondData, num: nat) returns (buf: seq<byte>)
    requires Prepared(was, total) && num < 20
    ensures buf == Frame(Found(total, curr, b, num)) && Prepared(buf, total)
  {
    ghost var r := Found(total, curr, b, num);
    buf := Splice(was, 9, PutBig(curr));
    buf := Splice(buf, 13, TimeOf(b, num * SHARE));
    buf := Splice(buf, 19, PutStamp(StampOf(b, num * SHARE)));
    buf := Splice(buf, 27, PutBig(TempOf(b, num * SHARE)));
    buf := StoreReadings(buf, b, num);
    FiveStores(was, r);
    StandsElsewhere(was, 0, Head(total), 9, Fields(r));
    StandsElsewhere(was, 831, Zeros(15), 9, Fields(r));
    StandsHere(was, 9, Fields(r));
    buf := Close(buf, r);
    StillPrepared(r);
  }

  lemma FiveStores(was: seq<byte>, r: Response)
    requires |was| == SIZE && WellFormed(r)
    ensures Splice(Splice(Splice(Splice(Splice(was, 9, PutBig(r.curr)), 13, r.time), 19, PutStamp(r.stamp)),
                          27, PutBig(r.temp)), 31, PutData(r.data)) == Splice(was, 9, Fields(r))
  {
    var c, s, t, d := PutBig(r.curr), PutStamp(r.stamp), PutBig(r.temp), PutData(r.data);
    SpliceSplice(was, 9, c, r.time);
    SpliceSplice(was, 9, c + r.time, s);
    SpliceSplice(was, 9, c + r.time + s, t);
    SpliceSplice(was, 9, c + r.time + s + t, d);
  }

  lemma StillPrepared(r: Response)
    requires WellFormed(r)
    ensures Prepared(Frame(r), r.total) && Stands(Frame(r), 9, Fields(r))
  {
    FramePlaces(r);
  }

  /** One turn for a missing second: only number and stamp change. */
  method FillMissing(was: seq<byte>, total: word, curr: word, ts: word, num: nat) returns (buf: seq<byte>)
    requires PreparedMissing(was, total, BcdBytes(ts)) && num < 20
    ensures buf == Frame(Missing(total, curr, ts, num)) && PreparedMissing(buf, total, BcdBytes(ts))
  {
    ghost var r := Missing(total, curr, ts, num);
    buf := Splice(was, 9, PutBig(curr));
    var ms := ts * 1000;
    ms := ms + num * 50;
    buf := Splice(buf, 19, PutStamp(Stamp(ms / U32, ms % U32)));
    TwoStores(was, r);
    buf := Close(buf, r);
    StillPrepared(r);
    FieldPlaces(buf, r);
    SilentTail(buf);
  }

  lemma TwoStores(was: seq<byte>, r: Response)
    requires WellFormed(r) && PreparedMissing(was, r.total, r.time) && r.temp == 0 && r.data == Silence(SHARE)
    ensures var b := Splice(Splice(was, 9, PutBig(r.curr)), 19, PutStamp(r.stamp));
            Prepared(b, r.total) && Stands(b, 9, Fields(r))
  {
    var c, s := PutBig(r.curr), PutStamp(r.stamp);
    var b1 := Splice(was, 9, c);
    var b := Splice(b1, 19, s);
    Untouched(was, 0, Head(r.total), c, s);
    Untouched(was, 13, r.time, c, s);
    Untouched(was, 27, Zeros(804), c, s);
    Untouched(was, 831, Zeros(15), c, s);
    StandsHere(was, 9, c);
    StandsElsewhere(b1, 9, c, 19, s);
    StandsHere(b1, 19, s);
    SilentBytes(SHARE);
    assert PutBig(0) + PutData(Silence(SHARE)) == Zeros(804);
    assert b[9..831] == b[9..13] + b[13..19] + b[19..27] + b[27..831];
    assert Fields(r) == c + r.time + s + (PutBig(0) + PutData(r.data));
  }

  lemma Untouched(was: seq<byte>, at: nat, bytes: seq<byte>, c: seq<byte>, s: seq<byte>)
    requires |was| == SIZE && |c| == 4 && |s| == 8 && Stands(was, at, bytes)
    requires at + |bytes| <= 9 || (13 <= at && at + |bytes| <= 19) || 27 <= at
    ensures Stands(Splice(Splice(was, 9, c), 19, s), at, bytes)
  {
    StandsElsewhere(was, at, bytes, 9, c);
    StandsElsewhere(Splice(was, 9, c), at, bytes, 19, s);
  }

  lemma SilentTail(f: seq<byte>)
    requires Stands(f, 27, PutBig(0)) && Stands(f, 31, PutData(Silence(SHARE)))
    ensures Stands(f, 27, Zeros(804))
  {
    SilentBytes(SHARE);
    assert f[27..831] == f[27..31] + f[31..831];
    assert PutBig(0) + Zeros(800) == Zeros(804);
  }

  // ----- the items of a second as the sampler stores them -----

  /** `AdcItem_t`: date, millisecond stamp, raw words, the four measured values, temperature, reserved bytes. */
  datatype AdcItem = AdcItem(time: seq<byte>, ts: Stamp, raw: seq<byte>, data: seq<word>, temp: word, rsvd: seq<byte>)

  predicate IsItem(i: AdcItem) { |i.time| == 6 && |i.raw| == 8 && |i.data| == 4 && |i.rsvd| == 22 }

  /** Its packed bytes, in the order of the fields, words with the low byte first. */
  function ItemBytes(i: AdcItem): (b: seq<byte>)
    requires IsItem(i)
    ensures |b| == ITEM
  {
    i.time + PutWord(i.ts.low) + PutWord(i.ts.high) + i.raw
    + PutWord(i.data[0]) + PutWord(i.data[1]) + PutWord(i.data[2]) + PutWord(i.data[3])
    + PutWord(i.temp) + i.rsvd
  }

  predicate AreItems(items: seq<AdcItem>) { forall k :: 0 <= k < |items| ==> IsItem(items[k]) }

  function ItemsBytes(items: seq<AdcItem>): (b: seq<byte>)
    requires AreItems(items)
    ensures |b| == ITEM * |items|
  {
    if items == [] then [] else ItemsBytes(items[..|items| - 1]) + ItemBytes(items[|items| - 1])
  }

  lemma {:induction false} ItemStands(items: seq<AdcItem>, i: nat)
    requires AreItems(items) && i < |items|
    ensures Stands(ItemsBytes(items), ITEM * i, ItemBytes(items[i]))
  {
    hide ItemBytes, Stands;
    var k := |items| - 1;
    var front, back := ItemsBytes(items[..k]), ItemBytes(items[k]);
    if i < k {
      ItemStands(items[..k], i);
      assert items[..k][i] == items[i];
      StandsLonger(front, back, ITEM * i, ItemBytes(items[i]));
    } else {
      StandsBehind(front, back);
    }
  }

  lemma StandsLonger(front: seq<byte>, back: seq<byte>, at: nat, bytes: seq<byte>)
    requires Stands(front, at, bytes)
    ensures Stands(front + back, at, bytes)
  {
    assert (front + back)[at..at + |bytes|] == front[at..at + |bytes|];
  }

  lemma StandsBehind(front: seq<byte>, back: seq<byte>)
    ensures Stands(front + back, |front|, back)
  {
  }

  /** The fields at their offsets. */
  lemma ItemFields(m: seq<byte>, at: nat, i: AdcItem)
    requires IsItem(i) && Stands(m, at, ItemBytes(i))
    ensures at + ITEM <= |m| && m[at..at + 6] == i.time
    ensures GetWord(m, at + 6) == i.ts.low && GetWord(m, at + 10) == i.ts.high
    ensures GetWord(m, at + 22) == i.data[0] && GetWord(m, at + 26) == i.data[1]
    ensures GetWord(m, at + 30) == i.data[2] && GetWord(m, at + 34) == i.data[3]
    ensures GetWord(m, at + 38) == i.temp
  {
    var b := ItemBytes(i);
    StandsPart(m, at, b, 0, 6);
    assert b[0..6] == i.time;
    FieldWord(m, at, b, 6, i.ts.low);
    FieldWord(m, at, b, 10, i.ts.high);
    FieldWord(m, at, b, 22, i.data[0]);
    FieldWord(m, at, b, 26, i.data[1]);
    FieldWord(m, at, b, 30, i.data[2]);
    FieldWord(m, at, b, 34, i.data[3]);
    FieldWord(m, at, b, 38, i.temp);
  }

  lemma FieldWord(m: seq<byte>, at: nat, b: seq<byte>, off: nat, v: word)
    requires Stands(m, at, b) && off + 4 <= |b| && b[off..off + 4] == PutWord(v)
    ensures at + off + 4 <= |m| && GetWord(m, at + off) == v
  {
    StandsPart(m, at, b, off, 4);
    WordRoundTrip(m, at + off, v);
  }

  /** Response `num` for a second of 1000 items: the four values of items 50 num to 50 num + 49 in order, and
      date, stamp and temperature of item 50 num. */
  ghost predicate CarriesItems(r: Response, items: seq<AdcItem>, num: nat)
    requires |items| == ITEMS && AreItems(items) && num < 20
  {
    && WellFormed(r)
    && r.time == items[50 * num].time && r.stamp == items[50 * num].ts && r.temp == items[50 * num].temp
    && forall k :: 0 <= k < 50 ==> IsReading(r.data[k], items[50 * num + k])
  }

  /** Front current, front voltage, rear current and rear voltage are the item's values in this order. */
  ghost predicate IsReading(r: Reading, i: AdcItem) {
    |i.data| == 4 && r.fCur == i.data[0] && r.fVlt == i.data[1] && r.rCur == i.data[2] && r.rVlt == i.data[3]
  }

  lemma FoundCarriesItems(total: word, curr: word, items: seq<AdcItem>, num: nat)
    requires |items| == ITEMS && AreItems(items) && num < 20
    ensures CarriesItems(Found(total, curr, ItemsBytes(items), num), items, num)
  {
    hide ItemsBytes, ItemBytes, GetWord, Stands;
    var b := ItemsBytes(items);
    ItemStands(items, 50 * num);
    ItemFields(b, ITEM * (50 * num), items[50 * num]);
    forall k | 0 <= k < 50 ensures IsReading(Found(total, curr, b, num).data[k], items[50 * num + k]) {
      ItemStands(items, 50 * num + k);
      ItemFields(b, ITEM * (50 * num + k), items[50 * num + k]);
    }
  }

  /** Where the values stand in the frame, each with its high byte first. */
  ghost predicate FrameCarries(f: seq<byte>, items: seq<AdcItem>, num: nat)
    requires |f| == SIZE && |items| == ITEMS && AreItems(items) && num < 20
  {
    && f[13..19] == items[50 * num].time
    && GetBig(f, 19) == items[50 * num].ts.high && GetBig(f, 23) == items[50 * num].ts.low
    && GetBig(f, 27) == items[50 * num].temp
    && forall k :: 0 <= k < 50 ==> ValuesAt(f, 31 + 16 * k, items[50 * num + k])
  }

  ghost predicate ValuesAt(f: seq<byte>, at: nat, i: AdcItem)
    requires at + 16 <= |f|
  {
    && |i.data| == 4 && GetBig(f, at) == i.data[0] && GetBig(f, at + 4) == i.data[1]
    && GetBig(f, at + 8) == i.data[2] && GetBig(f, at + 12) == i.data[3]
  }

  lemma FrameCarriesItems(r: Response, items: seq<AdcItem>, num: nat)
    requires |items| == ITEMS && AreItems(items) && num < 20 && CarriesItems(r, items, num)
    ensures FrameCarries(Frame(r), items, num)
  {
    hide Frame, Fields, PutData, GetBig;
    var f := Frame(r);
    FramePlaces(r);
    FieldPlaces(f, r);
    StampRoundTrip(f, 19, r.stamp);
    BigRoundTrip(f, 27, r.temp);
    AllPlaces(f, 31, r.data);
    forall k | 0 <= k < 50 ensures ValuesAt(f, 31 + 16 * k, items[50 * num + k]) {
      assert ReadingStands(f, 31 + 16 * k, r.data[k]) && IsReading(r.data[k], items[50 * num + k]);
      ReadingRoundTrip(f, 31 + 16 * k, r.data[k]);
    }
  }

  // ----- a second without data -----

  /** The answer for a missing second: its date in BCD, the milliseconds of the share, zeros. */
  lemma MissingMeans(total: word, curr: word, ts: word, num: nat)
    requires num < 20
    ensures var r := Missing(total, curr, ts, num);
            && r.stamp.high * U32 + r.stamp.low == 1000 * ts + 50 * num && r.temp == 0
            && forall k :: 0 <= k < 50 ==> r.data[k] == Reading(0, 0, 0, 0)
    ensures var t, d := Missing(total, curr, ts, num).time, DateOf(ts);
            && IsDateOf(d, ts) && (ts >= Y2K ==> BcdToDec(t[0]) + 2000 == d.year) && BcdToDec(t[1]) == d.month
            && BcdToDec(t[2]) == d.day && BcdToDec(t[3]) == d.hour && BcdToDec(t[4]) == d.min && BcdToDec(t[5]) == d.sec
  {
    hide DaysBeforeYear, DaysBeforeMonth, Seconds, YearFrom, MonthFrom;
    DateOfMeans(ts);
    var d := DateOf(ts);
    BcdRoundTrip(YearByte(d.year));
    BcdRoundTrip(d.month);
    BcdRoundTrip(d.day);
    BcdRoundTrip(d.hour);
    BcdRoundTrip(d.min);
    BcdRoundTrip(d.sec);
    SideOfY2K(d);
  }
}
