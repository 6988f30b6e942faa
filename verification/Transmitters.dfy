/** The two transmit loops, register by register. The trace holds what each `out` to the
    port puts on the bus, one entry per bit time. */
module Transmitters {
  import opened Avr
  import opened Wire
  import opened WireReceive

  // ------------------------------------------------------------- registers as bits

  /** The run of ones at the top of the history register, counted up to six. */
  ghost function LeadingOnes(x2: bv8): nat {
    if x2 < 0x80 then 0
    else if x2 < 0xc0 then 1
    else if x2 < 0xe0 then 2
    else if x2 < 0xf0 then 3
    else if x2 < 0xf8 then 4
    else if x2 < 0xfc then 5
    else 6
  }

  lemma HistoryShift(x2: bv8, carry: bv8)
    requires carry <= 1
    ensures LeadingOnes(Ror(x2, carry))
         == if carry == 0 then 0 else if LeadingOnes(x2) >= 5 then 6 else LeadingOnes(x2) + 1
    ensures Ror(x2, carry) >= 0xfc <==> LeadingOnes(Ror(x2, carry)) == 6
  {
  }

  /** The bits of b still to send sit at the bottom of the shift register. */
  ghost predicate StillToSend(shift: bv8, b: bv8, sent: nat) {
    forall j :: 0 <= j && sent + j < 8 ==> BitOf(shift, j) == BitOf(b, sent + j)
  }

  lemma ShiftOut(shift: bv8, carry: bv8, b: bv8, sent: nat)
    requires carry <= 1 && sent < 8 && StillToSend(shift, b, sent)
    ensures StillToSend(Ror(shift, carry), b, sent + 1)
    ensures Low(shift) == (if BitOf(b, sent) then 1 else 0)
  {
    RorBits(shift, carry);
    hide BitOf, Ror, Low;
    assert BitOf(shift, 0) == BitOf(b, sent + 0);
    assert Low(shift) <= 1 by {
      LowIsBit(shift);
    }
    forall j | 0 <= j && sent + 1 + j < 8
      ensures BitOf(Ror(shift, carry), j) == BitOf(b, sent + 1 + j)
    {
      assert BitOf(shift, j + 1) == BitOf(b, sent + (j + 1));
    }
  }

  // -------------------------------------------------------------------- one bit

  /** From the `sbrs shift, 0` of one bit to the point where didStuffN is passed: the bit on
      the wire, the stuff bit behind it if the history shows six ones. */
  method SendBit(shift: bv8, x1: bv8, x2: bv8, carry: bv8, ghost t: Tx)
      returns (out: seq<bv8>, shift': bv8, x1': bv8, x2': bv8)
    requires carry <= 1 && t.level == x1 && t.ones == LeadingOnes(x2)
    ensures shift' == Ror(shift, carry)
    ensures Tx(t.line + out, x1', LeadingOnes(x2')) == Send(t, Low(shift) == 1)
  {
    hide Ror, Low, Flip;
    LowIsBit(shift);
    HistoryShift(x2, Low(shift));
    x1' := x1;
    if Low(shift) == 0 {
      x1' := Flip(x1');
    }
    out := [x1'];
    var c := Low(shift);
    shift' := Ror(shift, carry);
    x2' := Ror(x2, c);
    if x2' >= 0xfc {
      x1' := Flip(x1');
      x2' := 0;
      out := out + [x1'];
    }
  }

  /** Bit 7 of the 20 MHz transmitter: the stuff bit is sent by running the output
      instructions a second time, on a shift register rotated back. */
  method SendBit7(shift: bv8, x1: bv8, x2: bv8, carry: bv8, ghost t: Tx)
      returns (out: seq<bv8>, x1': bv8, x2': bv8)
    requires carry <= 1 && t.level == x1 && t.ones == LeadingOnes(x2)
    ensures Tx(t.line + out, x1', LeadingOnes(x2')) == Send(t, Low(shift) == 1)
  {
    hide Ror, Low, Flip, LeadingOnes;
    LowIsBit(shift);
    HistoryShift(x2, Low(shift));
    x1' := x1;
    if Low(shift) == 0 {
      x1' := Flip(x1');
    }
    out := [x1'];
    var c := Low(shift);
    var shift' := Ror(shift, carry);
    x2' := Ror(x2, c);
    if x2' >= 0xfc {
      x1' := Flip(x1');
      x2' := 0;
      c := Top(shift');
      RolThenRor(shift');
      shift' := Rol(shift', 0);
      out := out + [x1'];
      c := Low(shift');
      x2' := Ror(x2', c);
    }
  }

  lemma RolThenRor(s: bv8)
    ensures Low(Rol(s, 0)) == 0 && Ror(0, 0) == 0 && LeadingOnes(0) == 0
  {
  }

  // ------------------------------------------------------------------ whole packets

  lemma {:induction false} PortKept(t: Tx, bits: seq<bool>)
    ensures SendAll(t, bits).level & !LINE == t.level & !LINE
  {
    if bits != [] {
      PortKept(t, bits[..|bits| - 1]);
      FlipKeepsPort(SendAll(t, bits[..|bits| - 1]).level);
      hide Flip;
    }
  }

  lemma FlipKeepsPort(x: bv8)
    ensures Flip(x) & !LINE == x & !LINE
  {
  }

  lemma OneMore(t: Tx, b: bv8, sent: nat)
    requires sent < 8
    ensures SendAll(t, BitsOf(b)[..sent + 1]) == Send(SendAll(t, BitsOf(b)[..sent]), BitOf(b, sent))
  {
    hide BitOf, Send;
    var bits := BitsOf(b)[..sent + 1];
    assert bits[..|bits| - 1] == BitsOf(b)[..sent];
  }

  lemma ByteSent(t: Tx, done: seq<bv8>, b: bv8)
    ensures SendAll(t, Bits(done + [b])) == SendAll(SendAll(t, Bits(done)), BitsOf(b))
  {
    assert (done + [b])[..|done|] == done;
    SendAllAppend(t, Bits(done), BitsOf(b));
  }

  /** Whatever the history register held before, the sync byte's zeros clear it. */
  lemma PacketSent(port: bv8, ones: nat, bytes: seq<bv8>, t: Tx)
    requires t == SendAll(Tx([], port, ones), Bits([SYNC] + bytes))
    ensures t.line + [t.level & !LINE, t.level & !LINE, (t.level & !LINE) | STATE_J] == PacketLine(bytes, port)
  {
    hide Flip, Bits, Nrzi, SendAll;
    var bits := Bits([SYNC] + bytes);
    SendAllIsNrzi(Tx([], port, ones), bits);
    PortKept(Tx([], port, ones), bits);
    StartsWithZero(bytes);
    assert Stuff(bits, ones) == Stuff(bits, 0);
  }

  lemma StartsWithZero(bytes: seq<bv8>)
    ensures Bits([SYNC] + bytes) != [] && !Bits([SYNC] + bytes)[0]
  {
    hide BitsOf;
    BitsAppend([SYNC], bytes);
    NoBits();
    assert [SYNC][..0] == [];
    SyncBits();
  }

  lemma NoBits()
    ensures Bits([]) == []
  {
  }

  /** bitcnt of the 20 MHz transmitter before inner bit i. */
  function BitCnt(i: nat): bv8
    requires i < 7
  {
    if i == 0 then 0x49 else if i == 1 then 0x24 else if i == 2 then 0x12 else if i == 3 then 0x09
    else if i == 4 then 0x04 else if i == 5 then 0x02 else 0x01
  }

  /** 0x49 shifted out to the right leaves the loop, carry set and register zero, exactly
      on the seventh time. */
  lemma BitCntShift(i: nat)
    requires i < 7
    ensures (Low(BitCnt(i)) == 1 && BitCnt(i) >> 1 == 0) <==> i == 6
    ensures i < 6 ==> BitCnt(i) >> 1 == BitCnt(i + 1)
    ensures Low(BitCnt(i)) <= 1
  {
  }

  /** Seven bits of a byte through the inner loop of the 20 MHz transmitter. */
  method SendSeven20(b: bv8, x1: bv8, x2: bv8, carry: bv8, ghost t: Tx)
      returns (out: seq<bv8>, shift: bv8, x1': bv8, x2': bv8, carry': bv8)
    requires carry <= 1 && t.level == x1 && t.ones == LeadingOnes(x2)
    ensures carry' <= 1 && Low(shift) == (if BitOf(b, 7) then 1 else 0)
    ensures Tx(t.line + out, x1', LeadingOnes(x2')) == SendAll(t, BitsOf(b)[..7])
  {
    hide Ror, Low, Flip, LeadingOnes, BitOf, BitsOf, Send, BitCnt;
    var bitcnt: bv8 := 0x49;
    out, shift, x1', x2', carry' := [], b, x1, x2, carry;
    ghost var i := 0;
    BitCntStarts();
    assert t.line + [] == t.line;
    assert BitsOf(b)[..0] == [];
    while true
      invariant 0 <= i < 7 && bitcnt == BitCnt(i) && carry' <= 1
      invariant StillToSend(shift, b, i)
      invariant Tx(t.line + out, x1', LeadingOnes(x2')) == SendAll(t, BitsOf(b)[..i])
      decreases 7 - i
    {
      ShiftOut(shift, carry', b, i);
      OneMore(t, b, i);
      ghost var before := out;
      var bit: seq<bv8>;
      bit, shift, x1', x2' := SendBit(shift, x1', x2', carry', Tx(t.line + out, x1', LeadingOnes(x2')));
      out := out + bit;
      assert t.line + out == (t.line + before) + bit;
      BitCntShift(i);
      i := i + 1;
      carry' := Low(bitcnt);
      bitcnt := bitcnt >> 1;
      if carry' == 1 && bitcnt == 0 {
        break;
      }
    }
    ShiftOut(shift, carry', b, 7);
  }

  lemma BitCntStarts()
    ensures BitCnt(0) == 0x49
  {
  }

  /** One pass of txByteLoop at 20 MHz. */
  method SendByte20(b: bv8, x1: bv8, x2: bv8, carry: bv8, ghost t: Tx)
      returns (out: seq<bv8>, x1': bv8, x2': bv8)
    requires carry <= 1 && t.level == x1 && t.ones == LeadingOnes(x2)
    ensures Tx(t.line + out, x1', LeadingOnes(x2')) == SendAll(t, BitsOf(b))
  {
    hide Ror, Low, Flip, LeadingOnes, BitOf, BitsOf, Send, SendAll;
    var shift, carry';
    out, shift, x1', x2', carry' := SendSeven20(b, x1, x2, carry, t);
    OneMore(t, b, 7);
    assert BitsOf(b)[..8] == BitsOf(b);
    ghost var seven := Tx(t.line + out, x1', LeadingOnes(x2'));
    var last;
    last, x1', x2' := SendBit7(shift, x1', x2', carry', seven);
    assert t.line + (out + last) == seven.line + last;
    out := out + last;
  }

  /** txByteLoop at 20 MHz, over the sync byte and the cnt - 1 bytes at Y. */
  method SendBytes20(mem: array<bv8>, y: nat, cnt: nat, x10: bv8, x20: bv8, carry0: bv8)
      returns (trace: seq<bv8>, x1: bv8, ghost ones: nat, y': nat)
    requires 1 <= cnt <= 255 && y + cnt <= mem.Length && carry0 <= 1
    ensures Tx(trace, x1, ones) == SendAll(Tx([], x10, LeadingOnes(x20)), Bits([SYNC] + mem[y..y + cnt - 1]))
    ensures y' == y + cnt
  {
    hide Ror, Low, Flip, LeadingOnes, BitOf, BitsOf, Send, Bits, SendAll;
    x1 := x10;
    var x2, carry := x20, carry0;
    var shift := SYNC;
    ghost var t0 := Tx([], x1, LeadingOnes(x2));
    ghost var t, done := t0, [];
    ghost var packet := [SYNC] + mem[y..y + cnt - 1];
    assert forall i :: 1 <= i < cnt ==> packet[i] == mem[y + i - 1];
    var left := cnt;
    y' := y;
    trace := [];
    NothingSent(t0);
    while true
      invariant 1 <= left <= cnt && y' == y + cnt - left && carry <= 1
      invariant done == packet[..cnt - left] && shift == packet[cnt - left]
      invariant t == Tx(trace, x1, LeadingOnes(x2)) == SendAll(t0, Bits(done))
      decreases left
    {
      var out;
      out, x1, x2 := SendByte20(shift, x1, x2, carry, t);
      trace := trace + out;
      t := Tx(trace, x1, LeadingOnes(x2));
      carry := 1;
      ByteSent(t0, done, shift);
      done := done + [shift];
      shift := mem[y'];
      y' := y' + 1;
      left := left - 1;
      if left == 0 {
        break;
      }
    }
    assert done == packet;
    ones := LeadingOnes(x2);
  }

  /** usbSendAndReti at 20 MHz: sync byte and the cnt - 1 bytes at Y, then end of packet.
      x2 and the carry hold whatever they held. */
  method Transmit20(mem: array<bv8>, y: nat, cnt: nat, usbout: bv8, x2: bv8, carry: bv8)
      returns (trace: seq<bv8>, y': nat)
    requires 1 <= cnt <= 255 && y + cnt <= mem.Length && carry <= 1
    requires usbout & LINE == 0
    ensures trace == PacketLine(mem[y..y + cnt - 1], usbout | STATE_J)
    ensures y' == y + cnt
  {
    hide Flip, LeadingOnes, Bits, SendAll, PacketLine;
    var x1 := usbout | STATE_J;
    ghost var ones;
    trace, x1, ones, y' := SendBytes20(mem, y, cnt, x1, x2, carry);
    PacketSent(usbout | STATE_J, LeadingOnes(x2), mem[y..y + cnt - 1], Tx(trace, x1, ones));
    x1 := x1 & !LINE;
    trace := trace + [x1, x1];
    x1 := x1 | STATE_J;
    trace := trace + [x1];
  }

  lemma NothingSent(t: Tx)
    ensures SendAll(t, Bits([])) == t
  {
  }

  // ------------------------------------------------------- the 16.5 MHz bit counter

  /** Passes through the inner loop that a counter starting at s allows: each pass takes 37
      off, the loop is left on the borrow. */
  function Passes(s: nat): nat {
    if s < 37 then 1 else 1 + Passes(s - 37)
  }

  /** The counter before byte k of a packet; it is never reset between bytes. */
  function CounterAt(k: nat): (s: nat)
    ensures s < 256
  {
    if k == 0 then 0xff else AfterPasses(CounterAt(k - 1))
  }

  function AfterPasses(s: nat): (r: nat)
    requires s < 256
    ensures r < 256
  {
    if s < 37 then Sub8(s, 37) else AfterPasses(s - 37)
  }

  lemma CounterSteps(s: nat)
    requires s < 256
    ensures 222 <= s ==> Passes(s) == 7 && AfterPasses(s) == s - 3
    ensures 185 <= s < 222 ==> Passes(s) == 6
  {
    if s >= 222 {
      CounterBelow(s, 7);
    } else if s >= 185 {
      CounterBelow(s, 6);
    }
  }

  /** n full passes and a last, borrowing one. */
  lemma {:induction false} CounterBelow(s: nat, n: nat)
    requires 37 * n - 37 <= s < 37 * n && s < 256 && 1 <= n <= 7
    ensures Passes(s) == n && AfterPasses(s) == s + 256 - 37 * n
  {
    if n > 1 {
      CounterBelow(s - 37, n - 1);
    }
  }

  lemma {:induction false} CounterDrifts(k: nat)
    requires k <= 12
    ensures CounterAt(k) == 255 - 3 * k
  {
    if k > 0 {
      CounterDrifts(k - 1);
      CounterSteps(CounterAt(k - 1));
    }
  }

  /** The inner loop is left after exactly seven bits for every byte of a packet if and only
      if the packet, sync byte included, has at most twelve bytes. */
  lemma TwelveBytesAtMost(n: nat)
    ensures (forall k :: 0 <= k < n ==> Passes(CounterAt(k)) == 7) <==> n <= 12
  {
    forall k | 0 <= k < 12 ensures Passes(CounterAt(k)) == 7 {
      CounterDrifts(k);
      CounterSteps(CounterAt(k));
    }
    CounterDrifts(12);
    CounterSteps(CounterAt(12));
    if n > 12 {
      assert Passes(CounterAt(12)) != 7;
    }
  }

  // --------------------------------------------------------------------- 16.5 MHz

  /** The inner loop of the 16.5 MHz transmitter, governed by bitStatus. */
  method SendSeven165(b: bv8, x1: bv8, x2: bv8, carry: bv8, bitStatus: nat, ghost t: Tx)
      returns (out: seq<bv8>, shift: bv8, x1': bv8, x2': bv8, bitStatus': nat)
    requires carry <= 1 && t.level == x1 && t.ones == LeadingOnes(x2)
    requires 222 <= bitStatus < 256
    ensures bitStatus' == bitStatus - 3
    ensures Low(shift) == (if BitOf(b, 7) then 1 else 0)
    ensures Tx(t.line + out, x1', LeadingOnes(x2')) == SendAll(t, BitsOf(b)[..7])
  {
    hide Ror, Low, Flip, LeadingOnes, BitOf, BitsOf, Send;
    out, shift, x1', x2', bitStatus' := [], b, x1, x2, bitStatus;
    var carry' := carry;
    ghost var i := 0;
    assert t.line + [] == t.line;
    assert BitsOf(b)[..0] == [];
    while true
      invariant 0 <= i < 7 && carry' <= 1 && bitStatus' == bitStatus - 37 * i
      invariant StillToSend(shift, b, i)
      invariant Tx(t.line + out, x1', LeadingOnes(x2')) == SendAll(t, BitsOf(b)[..i])
      decreases 7 - i
    {
      ShiftOut(shift, carry', b, i);
      OneMore(t, b, i);
      ghost var before := out;
      var bit: seq<bv8>;
      bit, shift, x1', x2' := SendBit(shift, x1', x2', carry', Tx(t.line + out, x1', LeadingOnes(x2')));
      out := out + bit;
      assert t.line + out == (t.line + before) + bit;
      i := i + 1;
      carry' := if bitStatus' < 37 then 1 else 0;
      bitStatus' := Sub8(bitStatus', 37);
      if carry' == 1 {
        break;
      }
    }
    ShiftOut(shift, carry', b, 7);
  }

  /** Bit 7 of the 16.5 MHz transmitter: only the level is output again for a stuff bit. */
  method SendLast165(shift: bv8, x1: bv8, x2: bv8, ghost t: Tx)
      returns (out: seq<bv8>, x1': bv8, x2': bv8)
    requires t.level == x1 && t.ones == LeadingOnes(x2)
    ensures Tx(t.line + out, x1', LeadingOnes(x2')) == Send(t, Low(shift) == 1)
  {
    hide Ror, Low, Flip, LeadingOnes;
    LowIsBit(shift);
    HistoryShift(x2, Low(shift));
    x1' := x1;
    if Low(shift) == 0 {
      x1' := Flip(x1');
    }
    var c := Low(shift);
    out := [x1'];
    x2' := Ror(x2, c);
    if x2' >= 0xfc {
      x1' := Flip(x1');
      x2' := 0;
      out := out + [x1'];
      RolThenRor(0);
      x2' := Ror(x2', 0);
    }
  }

  /** One pass of byteloop at 16.5 MHz. */
  method SendByte165(b: bv8, x1: bv8, x2: bv8, carry: bv8, bitStatus: nat, ghost t: Tx)
      returns (out: seq<bv8>, x1': bv8, x2': bv8, bitStatus': nat)
    requires carry <= 1 && t.level == x1 && t.ones == LeadingOnes(x2)
    requires 222 <= bitStatus < 256
    ensures bitStatus' == bitStatus - 3
    ensures Tx(t.line + out, x1', LeadingOnes(x2')) == SendAll(t, BitsOf(b))
  {
    hide Ror, Low, Flip, LeadingOnes, BitOf, BitsOf, Send, SendAll;
    var shift;
    out, shift, x1', x2', bitStatus' := SendSeven165(b, x1, x2, carry, bitStatus, t);
    OneMore(t, b, 7);
    assert BitsOf(b)[..8] == BitsOf(b);
    ghost var seven := Tx(t.line + out, x1', LeadingOnes(x2'));
    var last;
    last, x1', x2' := SendLast165(shift, x1', x2', seven);
    assert t.line + (out + last) == seven.line + last;
    out := out + last;
  }

  /** byteloop at 16.5 MHz, over the sync byte and the cnt - 1 bytes at Y. */
  method SendBytes165(mem: array<bv8>, y: nat, cnt: nat, x10: bv8, x20: bv8, carry0: bv8)
      returns (trace: seq<bv8>, x1: bv8, ghost ones: nat, y': nat)
    requires 1 <= cnt <= 12 && y + cnt <= mem.Length && carry0 <= 1
    ensures Tx(trace, x1, ones) == SendAll(Tx([], x10, LeadingOnes(x20)), Bits([SYNC] + mem[y..y + cnt - 1]))
    ensures y' == y + cnt
  {
    hide Ror, Low, Flip, LeadingOnes, BitOf, BitsOf, Send, Bits, SendAll;
    x1 := x10;
    var x2, carry := x20, carry0;
    var shift := SYNC;
    var bitStatus := 0xff;
    ghost var t0 := Tx([], x1, LeadingOnes(x2));
    ghost var t, done := t0, [];
    ghost var packet := [SYNC] + mem[y..y + cnt - 1];
    assert forall i :: 1 <= i < cnt ==> packet[i] == mem[y + i - 1];
    var left := cnt;
    y' := y;
    trace := [];
    NothingSent(t0);
    while true
      invariant 1 <= left <= cnt && y' == y + cnt - left && carry <= 1
      invariant bitStatus == 0xff - 3 * (cnt - left)
      invariant done == packet[..cnt - left] && shift == packet[cnt - left]
      invariant t == Tx(trace, x1, LeadingOnes(x2)) == SendAll(t0, Bits(done))
      decreases left
    {
      var out;
      out, x1, x2, bitStatus := SendByte165(shift, x1, x2, carry, bitStatus, t);
      trace := trace + out;
      t := Tx(trace, x1, LeadingOnes(x2));
      carry := 1;
      ByteSent(t0, done, shift);
      done := done + [shift];
      shift := mem[y'];
      y' := y' + 1;
      left := left - 1;
      if left == 0 {
        break;
      }
    }
    assert done == packet;
    ones := LeadingOnes(x2);
  }

  /** usbSendAndReti at 16.5 MHz, for the two to twelve bytes (sync included) it is made
      for: the same line states as at 20 MHz. */
  method Transmit165(mem: array<bv8>, y: nat, cnt: nat, usbout: bv8, x2: bv8, carry: bv8)
      returns (trace: seq<bv8>, y': nat)
    requires 1 <= cnt <= 12 && y + cnt <= mem.Length && carry <= 1
    requires usbout & LINE == 0
    ensures trace == PacketLine(mem[y..y + cnt - 1], usbout | STATE_J)
    ensures y' == y + cnt
  {
    hide Flip, LeadingOnes, Bits, SendAll, PacketLine;
    var x1 := usbout | STATE_J;
    ghost var ones;
    trace, x1, ones, y' := SendBytes165(mem, y, cnt, x1, x2, carry);
    PacketSent(usbout | STATE_J, LeadingOnes(x2), mem[y..y + cnt - 1], Tx(trace, x1, ones));
    x1 := x1 & !LINE;
    trace := trace + [x1, x1];
    x1 := x1 | STATE_J;
    trace := trace + [x1];
  }
}
