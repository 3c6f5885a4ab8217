/** Little-endian words and the index records the firmware writes by casting its tables to bytes. */
module Records {
  import opened Bytes

  type word = x: int | 0 <= x < U32

  // values of `g_ConfigInfo.flag`
  const FIRST_ON := 0x5A
  const NEXT_ON := 0xA5

  function PutWord(v: word): (b: seq<byte>)
    ensures |b| == 4
  {
    var (q1, q2, q3) := (v / 0x100, v / 0x100 / 0x100, v / 0x100 / 0x100 / 0x100);
    [v % 0x100, q1 % 0x100, q2 % 0x100, q3]
  }

  function GetWord(m: seq<byte>, at: nat): word
    requires at + 4 <= |m|
  {
    m[at] as int + 0x100 * (m[at + 1] as int) + 0x1_0000 * (m[at + 2] as int) + 0x100_0000 * (m[at + 3] as int)
  }

  lemma WordValue(v: word)
    ensures var b := PutWord(v);
            v == b[0] as int + 0x100 * (b[1] as int) + 0x1_0000 * (b[2] as int) + 0x100_0000 * (b[3] as int)
  {
    var q1 := v / 0x100;
    var q2 := q1 / 0x100;
    assert v == 0x100 * q1 + v % 0x100 && q1 == 0x100 * q2 + q1 % 0x100 && q2 == 0x100 * (q2 / 0x100) + q2 % 0x100;
  }

  lemma WordRoundTrip(m: seq<byte>, at: nat, v: word)
    requires at + 4 <= |m| && m[at..at + 4] == PutWord(v)
    ensures GetWord(m, at) == v
  {
    WordValue(v);
    var b := m[at..at + 4];
    assert b[0] == m[at] && b[1] == m[at + 1] && b[2] == m[at + 2] && b[3] == m[at + 3];
  }

  /** `AdcIndexItem_t`: 8 bytes. */
  datatype Item = Item(addr: word, ts: word)

  function PutItem(i: Item): (b: seq<byte>)
    ensures |b| == 8
  {
    PutWord(i.addr) + PutWord(i.ts)
  }

  function GetItem(m: seq<byte>, at: nat): Item
    requires at + 8 <= |m|
  {
    Item(GetWord(m, at), GetWord(m, at + 4))
  }

  function PutTable(t: seq<Item>): (b: seq<byte>)
    ensures |b| == 8 * |t|
  {
    if t == [] then [] else PutTable(t[..|t| - 1]) + PutItem(t[|t| - 1])
  }

  function GetTable(m: seq<byte>, at: nat, n: nat): (t: seq<Item>)
    requires at + 8 * n <= |m|
    ensures |t| == n && forall i :: 0 <= i < n ==> t[i] == GetItem(m, at + 8 * i)
  {
    seq(n, i requires 0 <= i < n => GetItem(m, at + 8 * i))
  }

  lemma ItemRoundTrip(m: seq<byte>, at: nat, i: Item)
    requires at + 8 <= |m| && m[at..at + 8] == PutItem(i)
    ensures GetItem(m, at) == i
  {
    assert m[at..at + 4] == m[at..at + 8][..4] == PutWord(i.addr);
    assert m[at + 4..at + 8] == m[at..at + 8][4..] == PutWord(i.ts);
    WordRoundTrip(m, at, i.addr);
    WordRoundTrip(m, at + 4, i.ts);
  }

  lemma {:induction false} TableEntry(t: seq<Item>, i: nat)
    requires i < |t|
    ensures PutTable(t)[8 * i..8 * i + 8] == PutItem(t[i])
  {
    var k := |t| - 1;
    var init := PutTable(t[..k]);
    if i < k {
      TableEntry(t[..k], i);
      assert PutTable(t)[8 * i..8 * i + 8] == init[8 * i..8 * i + 8];
    }
  }

  lemma ItemInside(m: seq<byte>, at: nat, b: seq<byte>, off: nat, i: Item)
    requires at + |b| <= |m| && m[at..at + |b|] == b && off + 8 <= |b| && b[off..off + 8] == PutItem(i)
    ensures GetItem(m, at + off) == i
  {
    SubSlice(m, at, at + |b|, off, off + 8);
    assert m[at + off..at + off + 8] == PutItem(i);
    ItemRoundTrip(m, at + off, i);
  }

  /** A table written as bytes reads back entry by entry. */
  lemma TableRoundTrip(m: seq<byte>, at: nat, t: seq<Item>, i: nat)
    requires i < |t| && at + |PutTable(t)| <= |m| && m[at..at + |PutTable(t)|] == PutTable(t)
    ensures GetItem(m, at + 8 * i) == t[i]
  {
    TableEntry(t, i);
    ItemInside(m, at, PutTable(t), 8 * i, t[i]);
  }

  /** Equal bytes are equal records. */
  lemma SameItem(m: seq<byte>, at: nat, w: seq<byte>, at': nat)
    requires at + 8 <= |m| && at' + 8 <= |w| && m[at..at + 8] == w[at'..at' + 8]
    ensures GetItem(m, at) == GetItem(w, at')
  {
    var x, y := m[at..at + 8], w[at'..at' + 8];
    assert forall k :: 0 <= k < 8 ==> x[k] == m[at + k] && y[k] == w[at' + k];
  }

  /** Records of a range that was copied to another place. */
  lemma CopiedItem(m: seq<byte>, at: nat, w: seq<byte>, at': nat, len: nat, off: nat)
    requires at + len <= |m| && at' + len <= |w| && m[at..at + len] == w[at'..at' + len] && off + 8 <= len
    ensures GetItem(m, at + off) == GetItem(w, at' + off)
  {
    SubSlice(m, at, at + len, off, off + 8);
    SubSlice(w, at', at' + len, off, off + 8);
    assert m[at + off..at + off + 8] == w[at' + off..at' + off + 8];
    SameItem(m, at + off, w, at' + off);
  }

  /** `AlarmIndexItem_t`: 16 bytes, the last four reserved. */
  datatype AlarmItem = AlarmItem(msgAddr: word, infoAddr: word, ts: word)

  function PutAlarmItem(i: AlarmItem): (b: seq<byte>)
    ensures |b| == 16
  {
    PutWord(i.msgAddr) + PutWord(i.infoAddr) + PutWord(i.ts) + [0, 0, 0, 0]
  }

  function GetAlarmItem(m: seq<byte>, at: nat): AlarmItem
    requires at + 16 <= |m|
  {
    AlarmItem(GetWord(m, at), GetWord(m, at + 4), GetWord(m, at + 8))
  }

  lemma AlarmItemRoundTrip(m: seq<byte>, at: nat, i: AlarmItem)
    requires at + 16 <= |m| && m[at..at + 16] == PutAlarmItem(i)
    ensures GetAlarmItem(m, at) == i
  {
    SubSlice(m, at, at + 16, 0, 4);
    SubSlice(m, at, at + 16, 4, 8);
    SubSlice(m, at, at + 16, 8, 12);
    assert PutAlarmItem(i)[0..4] == PutWord(i.msgAddr);
    assert PutAlarmItem(i)[4..8] == PutWord(i.infoAddr);
    assert PutAlarmItem(i)[8..12] == PutWord(i.ts);
    WordRoundTrip(m, at + 0, i.msgAddr);
    WordRoundTrip(m, at + 4, i.infoAddr);
    WordRoundTrip(m, at + 8, i.ts);
  }
}
