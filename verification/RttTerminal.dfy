/** Sixteen virtual terminals multiplexed over channel 0.  A switch is the pair 0xFF, id; the
    host's decoder is the partner of `SEGGER_RTT_SetTerminal` and `SEGGER_RTT_TerminalOut`. */
module RttTerminal {
  import opened Bytes
  import opened RingIndex
  import opened RttBuffer

  const TERMINALS := 16
  const MODES := 4   // SEGGER_RTT_MODE_MASK is 3: masking keeps the remainder modulo 4

  /** `_aTerminalId`. */
  function TerminalId(t: nat): byte
    requires t < TERMINALS
    ensures TerminalId(t) == "0123456789ABCDEF"[t] as int
  {
    if t < 10 then 48 + t else 55 + t
  }

  function Switch(t: nat): seq<byte>
    requires t < TERMINALS
  {
    [0xFF, TerminalId(t)]
  }

  // ----- the host -----

  /** The terminal selected, whether an escape byte is open, and every text byte with its terminal. */
  datatype Decoder = Decoder(term: nat, escaped: bool, out: seq<(nat, byte)>)

  function Selected(id: byte, otherwise: nat): nat {
    if 48 <= id <= 57 then id - 48 else if 65 <= id <= 70 then id - 55 else otherwise
  }

  function Feed(d: Decoder, b: byte): Decoder {
    if d.escaped then d.(term := Selected(b, d.term), escaped := false)
    else if b == 0xFF then d.(escaped := true)
    else d.(out := d.out + [(d.term, b)])
  }

  function Decode(d: Decoder, s: seq<byte>): Decoder
    decreases |s|
  {
    if s == [] then d else Decode(Feed(d, s[0]), s[1..])
  }

  // ----- what each call puts into the ring -----

  datatype Op =
    | SetTerminal(t: nat)
    | TerminalOut(t: nat, s: seq<byte>)
    | Write(s: seq<byte>)

  /** A call finds `flags` and the free space of that moment. */
  datatype Call = Call(flags: nat, avail: nat, op: Op)

  ghost predicate PlainText(op: Op) {
    op.SetTerminal? || 0xFF !in op.s
  }

  /** The part of the call's text that goes out: all of it, nothing, or in trim mode a prefix. */
  function Text(c: Call): (r: seq<byte>)
    ensures c.op.SetTerminal? || r <= c.op.s
  {
    match c.op
    case SetTerminal(_) => []
    case TerminalOut(t, s) =>
      if t >= TERMINALS then []
      else if c.flags % MODES == MODE_NO_BLOCK_SKIP then (if c.avail < |s| + 4 then [] else s)
      else if c.flags % MODES == MODE_NO_BLOCK_TRIM then (if c.avail < 4 then [] else s[..Min(|s|, c.avail - 4)])
      else if c.flags % MODES == MODE_BLOCK_IF_FIFO_FULL then s else []
    case Write(s) => s[..Taken(c.flags, c.avail, |s|)]
  }

  /** Whether the call switches terminals at all. */
  predicate Switches(c: Call) {
    match c.op
    case SetTerminal(t) =>
      t < TERMINALS && (c.flags % MODES == MODE_BLOCK_IF_FIFO_FULL || c.avail >= 2)
    case TerminalOut(t, s) =>
      t < TERMINALS &&
      (if c.flags % MODES == MODE_NO_BLOCK_SKIP then c.avail >= |s| + 4
       else if c.flags % MODES == MODE_NO_BLOCK_TRIM then c.avail >= 4
       else c.flags % MODES == MODE_BLOCK_IF_FIFO_FULL)
    case Write(_) => false
  }

  /** The status of a TerminalOut call: -1 for an unknown terminal, an unknown mode and a trimmed call
      without room for the switches. */
  function Status(c: Call): int
    requires c.op.TerminalOut?
  {
    if Switches(c) then |Text(c)|
    else if c.op.t < TERMINALS && c.flags % MODES == MODE_NO_BLOCK_SKIP then 0 else -1
  }

  function ActiveAfter(active: nat, c: Call): nat {
    if c.op.SetTerminal? && Switches(c) then c.op.t else active
  }

  /** The bytes the call enqueues. */
  function Enqueued(active: nat, c: Call): seq<byte>
    requires active < TERMINALS
  {
    if !Switches(c) then (if c.op.Write? then Text(c) else [])
    else if c.op.SetTerminal? then Switch(c.op.t)
    else Switch(c.op.t) + Text(c) + Switch(active)
  }

  function Tagged(t: nat, s: seq<byte>): seq<(nat, byte)> {
    seq(|s|, i requires 0 <= i < |s| => (t, s[i]))
  }

  /** What a reader of the screens should see: the text on the terminal it was meant for. */
  function Meant(active: nat, c: Call): seq<(nat, byte)> {
    Tagged(if c.op.TerminalOut? then c.op.t else active, Text(c))
  }

  /** Against the bounded FIFO: with the content `q` of its moment a TerminalOut call in skip mode writes
      switch, text and switch back all or nothing; in trim mode, given room for the switches, the longest prefix of
      the text that fits between them; in blocking mode everything.  The status counts the text. */
  lemma OutIsFifo(active: nat, c: Call, q: seq<byte>, cap: nat)
    requires active < TERMINALS && c.op.TerminalOut? && |q| + c.avail == cap
    ensures c.op.t >= 16 ==> Enqueued(active, c) == [] && Status(c) == -1
    ensures c.op.t < 16 ==>
              var s, mode := c.op.s, c.flags % 4;
              var whole := Switch(c.op.t) + s + Switch(active);
              && (mode == 0 ==> q + Enqueued(active, c) == FifoSkip(q, cap, whole)
                                && Status(c) == if |q| + |whole| <= cap then |s| else 0)
              && (mode == 1 && c.avail < 4 ==> Enqueued(active, c) == [] && Status(c) == -1)
              && (mode == 1 && c.avail >= 4 ==>
                    var n := if |s| <= c.avail - 4 then |s| else c.avail - 4;
                    Enqueued(active, c) == Switch(c.op.t) + s[..n] + Switch(active) && Status(c) == n)
              && (mode == 2 ==> Enqueued(active, c) == whole && Status(c) == |s|)
              && (mode == 3 ==> Enqueued(active, c) == [] && Status(c) == -1)
  {
  }

  /** A terminal switch is all or nothing as well, and the active terminal follows it. */
  lemma SetIsFifo(active: nat, c: Call, q: seq<byte>, cap: nat)
    requires active < TERMINALS && c.op.SetTerminal? && |q| + c.avail == cap
    ensures c.op.t >= 16 ==> Enqueued(active, c) == [] && ActiveAfter(active, c) == active
    ensures c.op.t < 16 && c.flags % 4 == 2 ==>
              Enqueued(active, c) == Switch(c.op.t) && ActiveAfter(active, c) == c.op.t
    ensures c.op.t < 16 && c.flags % 4 != 2 ==>
              && q + Enqueued(active, c) == FifoSkip(q, cap, Switch(c.op.t))
              && ActiveAfter(active, c) == if |q| + 2 <= cap then c.op.t else active
  {
  }

  // ----- whole runs -----

  function ActiveOf(calls: seq<Call>): (a: nat)
    ensures a < TERMINALS
  {
    if calls == [] then 0 else ActiveAfter(ActiveOf(calls[..|calls| - 1]), calls[|calls| - 1])
  }

  /** Everything ever enqueued. */
  function Stream(calls: seq<Call>): seq<byte> {
    if calls == [] then []
    else Stream(calls[..|calls| - 1]) + Enqueued(ActiveOf(calls[..|calls| - 1]), calls[|calls| - 1])
  }

  function Screens(calls: seq<Call>): seq<(nat, byte)> {
    if calls == [] then []
    else Screens(calls[..|calls| - 1]) + Meant(ActiveOf(calls[..|calls| - 1]), calls[|calls| - 1])
  }

  lemma {:induction false} DecodeConcat(d: Decoder, s: seq<byte>, t: seq<byte>)
    ensures Decode(d, s + t) == Decode(Decode(d, s), t)
    decreases |s|
  {
    if s == [] {
      assert s + t == t;
    } else {
      assert (s + t)[1..] == s[1..] + t;
      DecodeConcat(Feed(d, s[0]), s[1..], t);
    }
  }

  lemma DecodeSwitch(d: Decoder, t: nat)
    requires t < TERMINALS && !d.escaped
    ensures Decode(d, Switch(t)) == d.(term := t)
  {
    assert Switch(t)[1..] == [TerminalId(t)];
    assert Decode(Feed(d, 0xFF), [TerminalId(t)]) == Decode(Feed(Feed(d, 0xFF), TerminalId(t)), []);
  }

  lemma {:induction false} DecodeText(d: Decoder, s: seq<byte>)
    requires !d.escaped && 0xFF !in s
    ensures Decode(d, s) == d.(out := d.out + Tagged(d.term, s))
    decreases |s|
  {
    if s == [] {
      assert d.out + Tagged(d.term, s) == d.out;
    } else {
      DecodeText(Feed(d, s[0]), s[1..]);
      assert d.out + Tagged(d.term, s) == d.out + [(d.term, s[0])] + Tagged(d.term, s[1..]);
    }
  }

  /** One call, decoded by a host at rest: the text appears on its own terminal only, and the host
      ends at rest on the active terminal, so no escape pair was split or left alone. */
  lemma CallDecodes(active: nat, out: seq<(nat, byte)>, c: Call)
    requires active < TERMINALS && PlainText(c.op)
    ensures Decode(Decoder(active, false, out), Enqueued(active, c))
         == Decoder(ActiveAfter(active, c), false, out + Meant(active, c))
  {
    var d := Decoder(active, false, out);
    assert out + [] == out;
    if c.op.Write? {
      DecodeText(d, Text(c));
    } else if Switches(c) {
      DecodeSwitch(d, c.op.t);
      if c.op.TerminalOut? {
        var d1 := d.(term := c.op.t);
        DecodeText(d1, Text(c));
        DecodeSwitch(d1.(out := out + Meant(active, c)), active);
        DecodeConcat(d, Switch(c.op.t), Text(c));
        DecodeConcat(d, Switch(c.op.t) + Text(c), Switch(active));
      }
    }
  }

  /** Main result, over every run of calls in any mixture of modes and buffer fill levels. */
  lemma {:induction false} RunDecodes(calls: seq<Call>)
    requires forall c :: c in calls ==> PlainText(c.op)
    ensures Decode(Decoder(0, false, []), Stream(calls)) == Decoder(ActiveOf(calls), false, Screens(calls))
  {
    if calls != [] {
      var before, c := calls[..|calls| - 1], calls[|calls| - 1];
      RunDecodes(before);
      DecodeConcat(Decoder(0, false, []), Stream(before), Enqueued(ActiveOf(before), c));
      CallDecodes(ActiveOf(before), Screens(before), c);
    }
  }

  /** No text of a TerminalOut call ever shows on a terminal other than the one named. */
  lemma {:induction false} OnlyOnItsTerminal(calls: seq<Call>, i: nat)
    requires i < |Screens(calls)|
    ensures exists k :: 0 <= k < |calls| &&
              var c := calls[k];
              && Screens(calls)[i].1 in Text(c)
              && Screens(calls)[i].0 == if c.op.TerminalOut? then c.op.t else ActiveOf(calls[..k])
  {
    var before, c := calls[..|calls| - 1], calls[|calls| - 1];
    if i < |Screens(before)| {
      OnlyOnItsTerminal(before, i);
      var k :| 0 <= k < |before| &&
        Screens(before)[i].1 in Text(before[k]) &&
        Screens(before)[i].0 == if before[k].op.TerminalOut? then before[k].op.t else ActiveOf(before[..k]);
      assert before[..k] == calls[..k] && before[k] == calls[k];
    } else {
      var j := i - |Screens(before)|;
      assert Screens(calls)[i] == Meant(ActiveOf(before), c)[j];
      assert Text(c)[j] in Text(c);
      assert calls[|calls| - 1] == c && calls[..|calls| - 1] == before;
    }
  }

  // ----- the calls themselves -----

  /** Channel 0.  `drained` is what the host has taken so far. */
  class Channel0 {
    const ring: Ring
    var active: nat
    ghost var drained: seq<byte>

    ghost predicate Valid()
      reads this, ring
    {
      ring.Valid() && active < TERMINALS
    }

    /** Everything ever enqueued. */
    ghost function History(): seq<byte>
      reads this, ring, ring.pBuffer
      requires Valid()
    {
      drained + ring.Contents()
    }

    ghost function This(op: Op): Call
      reads this, ring, ring.pBuffer
      requires Valid()
    {
      Call(ring.flags, ring.Cap() - |ring.Contents()|, op)
    }

    /** `n` bytes have room, or the host makes room for them. */
    ghost predicate Room(n: nat, hostReads: bool)
      reads this, ring, ring.pBuffer
      requires Valid()
    {
      |ring.Contents()| + n <= ring.Cap() || (ring.Cap() > 0 && hostReads)
    }

    constructor (ring: Ring)
      requires ring.Valid() && ring.Contents() == []
      ensures Valid() && this.ring == ring && active == 0 && History() == []
    {
      this.ring := ring;
      active := 0;
      drained := [];
    }

    /** `_WriteBlocking` on channel 0, the host reading as it likes. */
    method Put(s: seq<byte>, host: nat -> nat) returns (written: nat)
      requires Valid() && Room(|s|, ComesBack(host))
      modifies this`drained, ring`rdOff, ring`wrOff, ring.pBuffer
      ensures Valid() && written == |s| && History() == old(History()) + s
      ensures |ring.Contents()| <= |old(ring.Contents())| + |s|
    {
      var taken, rounds;
      ghost var q := ring.Contents();
      written, taken, rounds := ring.WriteBlocking(s, host);
      Regroup(drained, taken, ring.Contents(), q, s);
      drained := drained + taken;
    }

    lemma Regroup(drained: seq<byte>, taken: seq<byte>, now: seq<byte>, was: seq<byte>, s: seq<byte>)
      requires taken + now == was + s
      ensures drained + taken + now == drained + was + s && |now| <= |was| + |s|
    {
      assert drained + taken + now == drained + (taken + now) == drained + (was + s) == drained + was + s;
      assert |taken + now| == |was + s|;
    }

    lemma Assoc(x: seq<byte>, y: seq<byte>, z: seq<byte>)
      ensures x + (y + z) == x + y + z
    {
    }

    method PostTerminalSwitch(t: nat, host: nat -> nat)
      requires Valid() && t < TERMINALS && Room(2, ComesBack(host))
      modifies this`drained, ring`rdOff, ring`wrOff, ring.pBuffer
      ensures Valid() && History() == old(History()) + Switch(t)
      ensures |ring.Contents()| <= |old(ring.Contents())| + 2
    {
      var _ := Put([0xFF, TerminalId(t)], host);
    }

    /** `_WriteNoCheck` on channel 0. */
    method PutUnchecked(s: seq<byte>)
      requires Valid() && |ring.Contents()| + |s| <= ring.Cap()
      modifies ring`wrOff, ring.pBuffer
      ensures Valid() && History() == old(History()) + s
    {
      Assoc(drained, ring.Contents(), s);
      ring.WriteNoCheck(s);
    }

    method SetTerminal(t: nat, host: nat -> nat) returns (r: int)
      requires Valid()
      requires t < TERMINALS && ring.flags % MODES == MODE_BLOCK_IF_FIFO_FULL ==> Room(2, ComesBack(host))
      modifies this, ring`rdOff, ring`wrOff, ring.pBuffer
      ensures Valid() && r == if Switches(old(This(Op.SetTerminal(t)))) then 0 else -1
      ensures History() == old(History()) + Enqueued(old(active), old(This(Op.SetTerminal(t))))
      ensures active == ActiveAfter(old(active), old(This(Op.SetTerminal(t))))
    {
      r := 0;
      if t < TERMINALS {
        if ring.flags % MODES == MODE_BLOCK_IF_FIFO_FULL {
          active := t;
          var _ := Put([0xFF, TerminalId(t)], host);
        } else {
          var avail := ring.GetAvailWriteSpace();
          if avail >= 2 {
            active := t;
            PutUnchecked([0xFF, TerminalId(t)]);
          } else {
            r := -1;
          }
        }
      } else {
        r := -1;
      }
    }

    /** `host` says how much the host reads during each of the three writes. */
    method TerminalOut(t: nat, s: seq<byte>, host: nat -> nat -> nat) returns (status: int)
      requires Valid() && |s| + 4 < U32
      requires t < TERMINALS && ring.flags % MODES == MODE_BLOCK_IF_FIFO_FULL ==> Room(|s| + 4, AllComeBack(host))
      modifies this`drained, ring`rdOff, ring`wrOff, ring.pBuffer
      ensures Valid() && status == Status(old(This(Op.TerminalOut(t, s))))
      ensures History() == old(History()) + Enqueued(active, old(This(Op.TerminalOut(t, s))))
    {
      if t < TERMINALS {
        var avail := ring.GetAvailWriteSpace();
        var mode := ring.flags % MODES;
        if mode == MODE_NO_BLOCK_SKIP {
          if avail < |s| + 4 {
            status := 0;
          } else {
            status := Bracketed(t, s, host);
          }
        } else if mode == MODE_NO_BLOCK_TRIM {
          if avail < 4 {
            status := -1;
          } else {
            status := Bracketed(t, s[..if |s| < avail - 4 then |s| else avail - 4], host);
          }
        } else if mode == MODE_BLOCK_IF_FIFO_FULL {
          status := Bracketed(t, s, host);
        } else {
          status := -1;
        }
      } else {
        status := -1;
      }
    }

    /** Switch, text, switch back. */
    method Bracketed(t: nat, s: seq<byte>, host: nat -> nat -> nat) returns (status: nat)
      requires Valid() && t < TERMINALS && Room(|s| + 4, AllComeBack(host))
      modifies this`drained, ring`rdOff, ring`wrOff, ring.pBuffer
      ensures Valid() && status == |s|
      ensures History() == old(History()) + (Switch(t) + s + Switch(active))
    {
      PostTerminalSwitch(t, host(0));
      status := Put(s, host(1));
      PostTerminalSwitch(active, host(2));
    }

    /** A channel-0 `SEGGER_RTT_WriteNoLock`. */
    method Write(s: seq<byte>, host: nat -> nat) returns (status: nat)
      requires Valid() && (ring.flags == MODE_BLOCK_IF_FIFO_FULL ==> Room(|s|, ComesBack(host)))
      modifies this`drained, ring`rdOff, ring`wrOff, ring.pBuffer
      ensures Valid() && status == |Text(old(This(Op.Write(s))))|
      ensures History() == old(History()) + Enqueued(active, old(This(Op.Write(s))))
    {
      var taken;
      ghost var q := ring.Contents();
      status, taken := ring.WriteNoLock(s, host);
      Regroup(drained, taken, ring.Contents(), q, s[..status]);
      drained := drained + taken;
    }
  }

  ghost predicate AllComeBack(host: nat -> nat -> nat) {
    ComesBack(host(0)) && ComesBack(host(1)) && ComesBack(host(2))
  }
}
