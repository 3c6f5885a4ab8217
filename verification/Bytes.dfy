/** Bytes, 32-bit arithmetic and block moves shared by the models. */
module Bytes {

  type byte = x: int | 0 <= x < 0x100

  const U32 := 0x1_0000_0000

  /** Unsigned 32-bit subtraction. */
  function Sub32(a: nat, b: nat): (d: nat)
    requires a < U32 && b < U32
    ensures d < U32
  {
    if b <= a then a - b else a + U32 - b
  }

  lemma Sub32IsModular(a: nat, b: nat)
    requires a < U32 && b < U32
    ensures Sub32(a, b) == (a - b) % U32
  {
  }

  function Min(a: int, b: int): (m: int)
    ensures m <= a && m <= b && (m == a || m == b)
  {
    if a < b then a else b
  }

  /** Quotient and remainder are determined by their equation. */
  lemma DivisionIsUnique(v: nat, q: nat, p: nat, r: nat)
    requires p > 0 && v == q * p + r && r < p
    ensures v / p == q && v % p == r
  {
    var x := v / p;
    DivMod(v, p);
    if x < q { MulMono(x + 1, q, p); }
    if x > q { MulMono(q + 1, x, p); }
  }

  lemma DivMod(v: nat, p: nat)
    requires p > 0
    ensures v == v / p * p + v % p && v % p < p && v / p >= 0
  {
  }

  lemma MulMono(x: nat, y: nat, p: nat)
    requires x <= y
    ensures x * p <= y * p
  {
  }

  /** What repeated subtraction of `p` leaves of `v`. */
  function Remainder(v: nat, p: nat): (r: nat)
    requires p > 0
    ensures r < p
  {
    if v < p then v else Remainder(v - p, p)
  }

  /** `buf` with `data` copied over the cells from `off` on. */
  function Splice(buf: seq<byte>, off: nat, data: seq<byte>): (r: seq<byte>)
    requires off + |data| <= |buf|
    ensures |r| == |buf|
    ensures forall p :: 0 <= p < |buf| ==> r[p] == if off <= p < off + |data| then data[p - off] else buf[p]
  {
    seq(|buf|, p requires 0 <= p < |buf| => if off <= p < off + |data| then data[p - off] else buf[p])
  }

  /** Two adjacent block moves are one. */
  lemma SpliceSplice(buf: seq<byte>, off: nat, x: seq<byte>, y: seq<byte>)
    requires off + |x| + |y| <= |buf|
    ensures Splice(Splice(buf, off, x), off + |x|, y) == Splice(buf, off, x + y)
  {
  }

  lemma SubSlice<T>(s: seq<T>, a: nat, b: nat, i: nat, j: nat)
    requires a <= b <= |s| && i <= j <= b - a
    ensures s[a..b][i..j] == s[a + i..a + j]
  {
    var t, u, v := s[a..b], s[a..b][i..j], s[a + i..a + j];
    forall k | 0 <= k < j - i ensures u[k] == v[k] {
      assert u[k] == t[i + k] == s[a + i + k];
    }
  }

  /** A prefix grows by the next part. */
  lemma TakeMore<T>(s: seq<T>, k: nat, n: nat)
    requires k + n <= |s|
    ensures s[..k] + s[k..][..n] == s[..k + n]
  {
  }

  /** `bytes` stands at `at`. */
  ghost predicate Stands(mem: seq<byte>, at: nat, bytes: seq<byte>)
  {
    at + |bytes| <= |mem| && mem[at..at + |bytes|] == bytes
  }

  lemma StandsElsewhere(mem: seq<byte>, at: nat, bytes: seq<byte>, off: nat, data: seq<byte>)
    requires Stands(mem, at, bytes) && off + |data| <= |mem|
    requires at + |bytes| <= off || off + |data| <= at
    ensures Stands(Splice(mem, off, data), at, bytes)
  {
  }

  lemma StandsHere(mem: seq<byte>, off: nat, data: seq<byte>)
    requires off + |data| <= |mem|
    ensures Stands(Splice(mem, off, data), off, data)
  {
  }

  lemma StandsPart(mem: seq<byte>, at: nat, bytes: seq<byte>, off: nat, len: nat)
    requires Stands(mem, at, bytes) && off + len <= |bytes|
    ensures Stands(mem, at + off, bytes[off..off + len])
  {
    SubSlice(mem, at, at + |bytes|, off, off + len);
  }
}
