/** Frames of the TCP protocol: fields with the high byte first and a 16-bit sum behind them. */
module Wire {
  import opened Bytes
  import opened Records

  const FRAME_HEAD: nat := 0xAAAA      // MSG_DATA_FRAM_HDR

  function Zeros(n: nat): (z: seq<byte>)
    ensures |z| == n
  {
    seq(n, _ => 0)
  }

  function Sum(s: seq<byte>): nat {
    if s == [] then 0 else Sum(s[..|s| - 1]) + s[|s| - 1] as int
  }

  /** One byte sums to itself, and the sums of two parts add up. */
  lemma {:induction false} SumOfParts(a: seq<byte>, b: seq<byte>)
    ensures Sum(a + b) == Sum(a) + Sum(b)
    ensures forall x: byte :: Sum([x]) == x as int
    decreases |b|
  {
    if b == [] {
      assert a + b == a;
    } else {
      var k := |b| - 1;
      SumOfParts(a, b[..k]);
      assert (a + b)[..|a + b| - 1] == a + b[..k];
    }
    forall x: byte ensures Sum([x]) == x as int {
      assert [x][..0] == [];
    }
  }

  /** A changed byte changes the sum by the difference. */
  lemma SumChanged(s: seq<byte>, i: nat, x: byte)
    requires i < |s|
    ensures Sum(s[i := x]) == Sum(s) - s[i] as int + x as int
  {
    var front, back := s[..i], s[i + 1..];
    assert s == front + ([s[i]] + back) && s[i := x] == front + ([x] + back);
    SumOfParts(front, [s[i]] + back);
    SumOfParts([s[i]], back);
    SumOfParts(front, [x] + back);
    SumOfParts([x], back);
  }

  /** Hence a 16-bit checksum notices every single changed byte. */
  lemma SumNotices(s: seq<byte>, i: nat, x: byte)
    requires i < |s| && x != s[i]
    ensures Sum(s[i := x]) % 0x1_0000 != Sum(s) % 0x1_0000
  {
    SumChanged(s, i, x);
    SmallDifference(Sum(s), Sum(s[i := x]));
  }

  lemma SmallDifference(a: nat, b: nat)
    requires a != b && -0x1_0000 < a - b < 0x1_0000
    ensures a % 0x1_0000 != b % 0x1_0000
  {
  }

  /** `checkSum_8`: a 16-bit accumulator. */
  method CheckSum8(buf: seq<byte>) returns (ret: nat)
    requires |buf| < 0x1_0000
    ensures ret == Sum(buf) % 0x1_0000
  {
    ret := 0;
    var i := 0;
    while i < |buf|
      invariant i <= |buf| && ret == Sum(buf[..i]) % 0x1_0000
    {
      assert buf[..i + 1][..i] == buf[..i];
      ret := (ret + buf[i]) % 0x1_0000;
      i := i + 1;
    }
    assert buf[..|buf|] == buf;
  }

  /** `HConvert` of a 16-bit field: high byte first. */
  function PutHigh(v: nat): (b: seq<byte>)
    requires v < 0x1_0000
    ensures |b| == 2
  {
    [v / 0x100, v % 0x100]
  }

  function GetHigh(m: seq<byte>, at: nat): (v: nat)
    requires at + 2 <= |m|
    ensures v < 0x1_0000
  {
    m[at] as int * 0x100 + m[at + 1] as int
  }

  lemma HighRoundTrip(m: seq<byte>, at: nat, v: nat)
    requires v < 0x1_0000 && Stands(m, at, PutHigh(v))
    ensures GetHigh(m, at) == v
  {
    assert m[at..at + 2][0] == m[at] && m[at..at + 2][1] == m[at + 1];
  }

  /** `DW_HConvert` of a 32-bit field: the bytes of the word in memory turned round. */
  function PutBig(v: word): (b: seq<byte>)
    ensures |b| == 4
  {
    var w := PutWord(v);
    [w[3], w[2], w[1], w[0]]
  }

  /** What a peer reads with the high byte first. */
  function GetBig(m: seq<byte>, at: nat): word
    requires at + 4 <= |m|
  {
    m[at + 3] as int + 0x100 * (m[at + 2] as int) + 0x1_0000 * (m[at + 1] as int) + 0x100_0000 * (m[at] as int)
  }

  /** The high byte is the first one on the wire, for words as for 16-bit fields. */
  lemma HighFirst(v: word, u: nat)
    requires u < 0x1_0000
    ensures var b, w := PutBig(v), PutHigh(u);
            && v == 0x100_0000 * (b[0] as int) + 0x1_0000 * (b[1] as int) + 0x100 * (b[2] as int) + b[3] as int
            && u == 0x100 * (w[0] as int) + w[1] as int
  {
    WordValue(v);
  }

  lemma BigRoundTrip(m: seq<byte>, at: nat, v: word)
    requires Stands(m, at, PutBig(v))
    ensures GetBig(m, at) == v
  {
    WordValue(v);
    var b := m[at..at + 4];
    assert b[0] == m[at] && b[1] == m[at + 1] && b[2] == m[at + 2] && b[3] == m[at + 3];
  }

  /** A part of a frame that begins at `at`. */
  lemma PartStands(m: seq<byte>, at: nat, whole: seq<byte>, before: seq<byte>, part: seq<byte>, after: seq<byte>)
    requires Stands(m, at, whole) && whole == before + part + after
    ensures Stands(m, at + |before|, part)
  {
    StandsPart(m, at, whole, |before|, |part|);
    assert whole[|before|..|before| + |part|] == part;
  }

  lemma HalvesStand(m: seq<byte>, at: nat, front: seq<byte>, back: seq<byte>)
    requires Stands(m, at, front + back)
    ensures Stands(m, at, front) && Stands(m, at + |front|, back)
  {
    PartStands(m, at, front + back, [], front, back);
    PartStands(m, at, front + back, front, back, []);
  }
}
