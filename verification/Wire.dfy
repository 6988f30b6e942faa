/** The USB line code as the standard defines it (sections 7.1.8 and 7.1.9 of USB 2.0):
    NRZI levels, a stuffed zero after six ones, bytes sent least significant bit first.
    Bit times are the only time here: one line sample per bit. */
module Wire {
  import opened Avr

  const LINE: bv8 := 0x18     // D+ (bit 4) and D- (bit 3) of the port
  const MINUS: bv8 := 0x08    // D- alone
  const STATE_J: bv8 := 0x08  // idle
  const STATE_K: bv8 := 0x10
  const SYNC: bv8 := 0x80
  const BUFSIZE: nat := 11    // PID, 8 data bytes, 2 CRC bytes

  predicate IsData(sample: bv8) {
    sample & LINE == STATE_J || sample & LINE == STATE_K
  }

  predicate IsSE0(sample: bv8) {
    sample & LINE == 0
  }

  /** The other data state. */
  function Flip(level: bv8): bv8 {
    level ^ LINE
  }

  /** What a receiver that looks through a mask sees. */
  function Seen(sample: bv8, mask: bv8): bv8 {
    sample & mask
  }

  // ------------------------------------------------------------- bytes and bits

  function BitsOf(b: bv8): (r: seq<bool>)
    ensures |r| == 8 && forall i :: 0 <= i < 8 ==> r[i] == BitOf(b, i)
  {
    seq(8, i requires 0 <= i < 8 => BitOf(b, i))
  }

  /** The bits of a packet in the order they go over the wire. */
  function Bits(bytes: seq<bv8>): (r: seq<bool>)
    ensures |r| == 8 * |bytes|
  {
    if bytes == [] then [] else Bits(bytes[..|bytes| - 1]) + BitsOf(bytes[|bytes| - 1])
  }

  lemma EightBits(a: bv8, b: bv8)
    requires BitOf(a, 0) == BitOf(b, 0) && BitOf(a, 1) == BitOf(b, 1)
    requires BitOf(a, 2) == BitOf(b, 2) && BitOf(a, 3) == BitOf(b, 3)
    requires BitOf(a, 4) == BitOf(b, 4) && BitOf(a, 5) == BitOf(b, 5)
    requires BitOf(a, 6) == BitOf(b, 6) && BitOf(a, 7) == BitOf(b, 7)
    ensures a == b
  {
  }

  lemma ByteDetermined(a: bv8, b: bv8)
    requires BitsOf(a) == BitsOf(b)
    ensures a == b
  {
    hide BitOf;
    assert forall i :: 0 <= i < 8 ==> BitOf(a, i) == BitsOf(a)[i] == BitsOf(b)[i] == BitOf(b, i);
    EightBits(a, b);
  }

  lemma {:induction false} BytesDetermined(a: seq<bv8>, b: seq<bv8>)
    requires Bits(a) == Bits(b)
    ensures a == b
  {
    if a != [] {
      var n := |a| - 1;
      assert Bits(a)[..8 * n] == Bits(a[..n]) && Bits(b)[..8 * n] == Bits(b[..n]);
      assert Bits(a)[8 * n..] == BitsOf(a[n]) && Bits(b)[8 * n..] == BitsOf(b[n]);
      BytesDetermined(a[..n], b[..n]);
      ByteDetermined(a[n], b[n]);
    }
  }

  lemma {:induction false} BitsAppend(a: seq<bv8>, b: seq<bv8>)
    ensures Bits(a + b) == Bits(a) + Bits(b)
  {
    hide BitsOf;
    if b == [] {
      assert a + b == a;
    } else {
      var n := |b| - 1;
      BitsAppend(a, b[..n]);
      assert (a + b)[..|a + b| - 1] == a + b[..n];
    }
  }

  lemma LowIsBit(b: bv8)
    ensures Low(b) <= 1
  {
  }

  /** ror moves every bit one place down and the carry to the top. */
  lemma RorBits(s: bv8, carry: bv8)
    requires carry <= 1
    ensures forall j :: 0 <= j < 7 ==> BitOf(Ror(s, carry), j) == BitOf(s, j + 1)
    ensures BitOf(Ror(s, carry), 7) <==> carry == 1
    ensures BitOf(s, 0) <==> Low(s) == 1
  {
    RorLowBits(s, carry);
    RorHighBits(s, carry);
    hide BitOf, Ror, Low;
  }

  lemma RorLowBits(s: bv8, carry: bv8)
    requires carry <= 1
    ensures BitOf(Ror(s, carry), 0) == BitOf(s, 1) && BitOf(Ror(s, carry), 1) == BitOf(s, 2)
    ensures BitOf(Ror(s, carry), 2) == BitOf(s, 3) && BitOf(Ror(s, carry), 3) == BitOf(s, 4)
    ensures BitOf(s, 0) <==> Low(s) == 1
  {
  }

  lemma RorHighBits(s: bv8, carry: bv8)
    requires carry <= 1
    ensures BitOf(Ror(s, carry), 4) == BitOf(s, 5) && BitOf(Ror(s, carry), 5) == BitOf(s, 6)
    ensures BitOf(Ror(s, carry), 6) == BitOf(s, 7) && (BitOf(Ror(s, carry), 7) <==> carry == 1)
  {
  }

  // --------------------------------------------------------------- stuffing, NRZI

  /** Bit stuffing with `ones` ones already on the wire. */
  function Stuff(bits: seq<bool>, ones: nat): (r: seq<bool>)
    ensures |r| >= |bits|
  {
    if bits == [] then []
    else if !bits[0] then [false] + Stuff(bits[1..], 0)
    else if ones >= 5 then [true, false] + Stuff(bits[1..], 0)
    else [true] + Stuff(bits[1..], ones + 1)
  }

  /** NRZI: a zero is a transition, a one is none. Levels are whole port bytes. */
  function Nrzi(bits: seq<bool>, level: bv8): (r: seq<bv8>)
    ensures |r| == |bits|
  {
    if bits == [] then []
    else
      var next := if bits[0] then level else Flip(level);
      [next] + Nrzi(bits[1..], next)
  }

  /** The line states of a packet: sync byte and data bytes, starting from the idle level,
      then the end of packet (two bit times SE0) and idle again. */
  function PacketLine(bytes: seq<bv8>, idle: bv8): (r: seq<bv8>)
    ensures |r| >= 11
  {
    var levels := Nrzi(Stuff(Bits([SYNC] + bytes), 0), idle);
    levels + [idle & !LINE, idle & !LINE, (idle & !LINE) | STATE_J]
  }

  /** The levels of one data bit: its own, and that of the stuff bit if one follows. */
  function BitLevels(bit: bool, ones: nat, level: bv8): seq<bv8> {
    if !bit then [Flip(level)] else if ones >= 5 then [level, Flip(level)] else [level]
  }

  function OnesAfter(bit: bool, ones: nat): nat {
    if !bit || ones >= 5 then 0 else ones + 1
  }

  function LevelAfter(bit: bool, ones: nat, level: bv8): bv8 {
    if !bit || ones >= 5 then Flip(level) else level
  }

  lemma NrziCons(bit: bool, rest: seq<bool>, level: bv8)
    ensures var x := if bit then level else Flip(level);
      Nrzi([bit] + rest, level) == [x] + Nrzi(rest, x)
  {
    hide Flip;
    assert ([bit] + rest)[1..] == rest;
  }

  lemma NrziStuffHead(bits: seq<bool>, ones: nat, level: bv8)
    requires bits != []
    ensures Nrzi(Stuff(bits, ones), level) == BitLevels(bits[0], ones, level)
              + Nrzi(Stuff(bits[1..], OnesAfter(bits[0], ones)), LevelAfter(bits[0], ones, level))
  {
    hide Flip, Nrzi;
    var rest := Stuff(bits[1..], OnesAfter(bits[0], ones));
    if bits[0] && ones >= 5 {
      assert [true, false] + rest == [true] + ([false] + rest);
      NrziCons(true, [false] + rest, level);
      NrziCons(false, rest, level);
    } else {
      NrziCons(bits[0], rest, level);
    }
  }

  // ---------------------------------------------------- a transmitter, bit by bit

  /** What has been put on the wire, its last level, and the run of ones it ends with. */
  datatype Tx = Tx(line: seq<bv8>, level: bv8, ones: nat)

  function Send(t: Tx, bit: bool): Tx {
    Tx(t.line + BitLevels(bit, t.ones, t.level), LevelAfter(bit, t.ones, t.level), OnesAfter(bit, t.ones))
  }

  function SendAll(t: Tx, bits: seq<bool>): Tx {
    if bits == [] then t else Send(SendAll(t, bits[..|bits| - 1]), bits[|bits| - 1])
  }

  lemma {:induction false} SendAllAppend(t: Tx, a: seq<bool>, b: seq<bool>)
    ensures SendAll(t, a + b) == SendAll(SendAll(t, a), b)
  {
    if b == [] {
      assert a + b == a;
    } else {
      assert (a + b)[..|a + b| - 1] == a + b[..|b| - 1];
      SendAllAppend(t, a, b[..|b| - 1]);
    }
  }

  /** Sending bit by bit puts exactly the NRZI levels of the stuffed bits on the wire. */
  lemma {:induction false} SendAllIsNrzi(t: Tx, bits: seq<bool>)
    ensures SendAll(t, bits).line == t.line + Nrzi(Stuff(bits, t.ones), t.level)
    decreases |bits|
  {
    hide Flip;
    if bits != [] {
      var u := Send(t, bits[0]);
      assert bits == [bits[0]] + bits[1..];
      SendAllAppend(t, [bits[0]], bits[1..]);
      assert SendAll(t, [bits[0]]) == u by {
        assert [bits[0]][..0] == [];
      }
      SendAllIsNrzi(u, bits[1..]);
      NrziStuffHead(bits, t.ones, t.level);
    }
  }

  // -------------------------------------------------------- a receiver, bit by bit

  /** Next sample, level of the previous one, run of ones, and the data bits so far. */
  datatype Rx = Rx(pos: nat, prev: bv8, ones: nat, bits: seq<bool>)

  datatype RxResult = Complete(bits: seq<bool>) | Overflow

  /** Sample i of the bus; past the recorded samples the bus reads SE0. */
  function At(line: seq<bv8>, i: nat): bv8 {
    if i < |line| then line[i] else 0
  }

  /** One data bit: compare a sample with the previous one through a mask; after six ones
      skip the following sample, whatever it is. */
  function Step(line: seq<bv8>, r: Rx, mask: bv8): Rx {
    var s := Seen(At(line, r.pos), mask);
    if s != r.prev then Rx(r.pos + 1, s, 0, r.bits + [false])
    else if r.ones >= 5 then Rx(r.pos + 2, Seen(At(line, r.pos + 1), mask), 0, r.bits + [true])
    else Rx(r.pos + 1, s, r.ones + 1, r.bits + [true])
  }

  /** Data bits up to sample m. */
  function Walk(line: seq<bv8>, r: Rx, m: nat, mask: bv8): Rx
    decreases m - r.pos
  {
    if r.pos >= m then r else Walk(line, Step(line, r, mask), m, mask)
  }

  lemma {:induction false} WalkGrows(line: seq<bv8>, r: Rx, m: nat, mask: bv8)
    ensures |Walk(line, r, m, mask).bits| >= |r.bits|
    ensures r.pos < m ==> |Walk(line, r, m, mask).bits| > |r.bits|
    decreases m - r.pos
  {
    if r.pos < m {
      WalkGrows(line, Step(line, r, mask), m, mask);
    }
  }

  lemma FlipIsSeen(x: bv8, mask: bv8)
    requires IsData(x) && (mask == LINE || mask == MINUS)
    ensures IsData(Flip(x)) && Seen(Flip(x), mask) != Seen(x, mask)
  {
  }

  lemma StepReadsBit(line: seq<bv8>, r: Rx, bit: bool, level: bv8, mask: bv8)
    requires mask == LINE || mask == MINUS
    requires IsData(level) && r.prev == Seen(level, mask)
    requires var c := BitLevels(bit, r.ones, level);
      r.pos + |c| <= |line| && forall i :: 0 <= i < |c| ==> line[r.pos + i] == c[i]
    ensures IsData(LevelAfter(bit, r.ones, level))
    ensures Step(line, r, mask) == Rx(r.pos + |BitLevels(bit, r.ones, level)|,
                  Seen(LevelAfter(bit, r.ones, level), mask), OnesAfter(bit, r.ones), r.bits + [bit])
  {
    hide Flip, Seen, IsData;
    FlipIsSeen(level, mask);
    assert line[r.pos + 0] == BitLevels(bit, r.ones, level)[0];
    if bit && r.ones >= 5 {
      assert line[r.pos + 1] == BitLevels(bit, r.ones, level)[1];
    }
  }

  /** Reading back what was sent: over a stretch of the line that carries `bits`, stuffed
      with the run of ones the receiver counts, a receiver collects exactly `bits`. */
  lemma {:induction false} WalkReadsBack(line: seq<bv8>, r: Rx, bits: seq<bool>, level: bv8, m: nat, mask: bv8)
    requires mask == LINE || mask == MINUS
    requires IsData(level) && r.prev == Seen(level, mask)
    requires r.pos <= m <= |line|
    requires line[r.pos..m] == Nrzi(Stuff(bits, r.ones), level)
    ensures var w := Walk(line, r, m, mask);
      w.pos == m && w.bits == r.bits + bits
    decreases |bits|
  {
    hide Step, Stuff, Nrzi, BitLevels, OnesAfter, LevelAfter, IsData, Seen;
    if bits == [] {
      NothingToRead(r.ones, level);
    } else {
      var head := BitLevels(bits[0], r.ones, level);
      var tail := Nrzi(Stuff(bits[1..], OnesAfter(bits[0], r.ones)), LevelAfter(bits[0], r.ones, level));
      NrziStuffHead(bits, r.ones, level);
      var span := line[r.pos..m];
      assert span == head + tail;
      forall i | 0 <= i < |head| ensures line[r.pos + i] == head[i] {
        assert span[i] == head[i];
      }
      HeadLength(bits[0], r.ones, level);
      StepReadsBit(line, r, bits[0], level, mask);
      var q := Step(line, r, mask);
      assert line[q.pos..m] == span[|head|..] == tail;
      WalkReadsBack(line, q, bits[1..], LevelAfter(bits[0], r.ones, level), m, mask);
      assert r.bits + bits == (r.bits + [bits[0]]) + bits[1..];
    }
  }

  lemma NothingToRead(ones: nat, level: bv8)
    ensures Nrzi(Stuff([], ones), level) == []
  {
  }

  lemma HeadLength(bit: bool, ones: nat, level: bv8)
    ensures |BitLevels(bit, ones, level)| >= 1
  {
  }
}
