/** The two receive loops, register by register, storing into the receive buffer. */
module Receivers {
  import opened Avr
  import opened Wire
  import opened WireReceive

  // ------------------------------------------------- assembling a byte in a register

  /** The bits received so far sit at the top of the shift register, above the marker. */
  ghost predicate Assembling(shift: bv8, bits: seq<bool>) {
    && |bits| < 8
    && (forall j :: 0 <= j < |bits| ==> BitOf(shift, 8 - |bits| + j) == bits[j])
    && (forall p :: 0 <= p <= 6 - |bits| ==> (BitOf(shift, p) <==> p == 6 - |bits|))
  }

  lemma AssembleBit(shift: bv8, bits: seq<bool>, bit: bool)
    requires Assembling(shift, bits)
    ensures var s := Ror(shift, if bit then 1 else 0);
      if |bits| == 7 then BitsOf(s) == bits + [bit]
      else Assembling(s, bits + [bit]) && (Low(shift) == 1 <==> |bits| == 6)
  {
    hide Ror, Low, BitOf;
    RorBits(shift, if bit then 1 else 0);
  }

  lemma NothingAssembled()
    ensures Assembling(0x40, [])
  {
    assert BitOf(0x40, 6) && !BitOf(0x40, 5) && !BitOf(0x40, 4) && !BitOf(0x40, 3);
    assert !BitOf(0x40, 2) && !BitOf(0x40, 1) && !BitOf(0x40, 0);
  }

  // ------------------------------------------------------------------------ 20 MHz

  /** The three places where the 20 MHz loop samples a data bit. */
  datatype Label20 = Bit0 | BitLoop | Bit7

  ghost function Label20At(k: nat): Label20 {
    if k == 0 then Bit0 else if k == 7 then Bit7 else BitLoop
  }

  lemma ByteAdded(done: seq<bv8>, bits: seq<bool>, bit: bool, b: bv8)
    requires |bits| == 7 && BitsOf(b) == bits + [bit]
    ensures Bits(done + [b]) == Bits(done) + bits + [bit]
  {
    assert (done + [b])[..|done|] == done;
  }

  /** The ones counter and the line mirror after a bit, as both arms of the loop leave them. */
  lemma StepRegisters(line: seq<bv8>, r: Rx, bitcnt: nat)
    requires 1 <= bitcnt <= 6 && r.ones == 6 - bitcnt
    ensures var q := Step(line, r, LINE); var x := Seen(At(line, r.pos), LINE);
      && q.bits == r.bits + [x == r.prev]
      && (x != r.prev ==> q.pos == r.pos + 1 && q.prev == x && q.ones == 0)
      && (x == r.prev && bitcnt == 1 ==>
            q.pos == r.pos + 2 && q.prev == Seen(At(line, r.pos + 1), LINE) && q.ones == 0)
      && (x == r.prev && bitcnt > 1 ==> q.pos == r.pos + 1 && q.prev == x && q.ones == 7 - bitcnt)
  {
  }

  /** Receives one packet into buf from y0 on: the number of bytes stored, or overflow. */
  method Receive20(line: seq<bv8>, buf: array<bv8>, y0: nat) returns (ok: bool, count: nat)
    requires y0 + BUFSIZE <= buf.Length
    modifies buf
    ensures ok ==> count <= BUFSIZE && Run20(line, START20) == Complete(Bits(buf[y0..y0 + count]))
    ensures !ok ==> Run20(line, START20) == Overflow
    ensures buf[..y0] == old(buf[..y0]) && buf[y0 + BUFSIZE..] == old(buf[y0 + BUFSIZE..])
  {
    hide Seen, Ror, Low, IsSE0, Assembling, Bits, BitsOf, Step;
    var i, y := 0, y0;
    var shift: bv8 := 0x40;
    var bitcnt := 5;
    var cnt := BUFSIZE;
    var x2 := STATE_K;
    var at := Bit0;
    ghost var r, done, cur := START20, [], [];
    NothingAssembled();
    while true
      invariant |done| + cnt == BUFSIZE && y == y0 + |done| && buf[y0..y] == done
      invariant |cur| < 8 && r.bits == Bits(done) + cur && Assembling(shift, cur)
      invariant 1 <= bitcnt <= 6 && r.ones == 6 - bitcnt && r.pos == i && r.prev == x2
      invariant at == Label20At(|cur|)
      invariant Run20(line, START20) == Run20(line, r)
      invariant buf[..y0] == old(buf[..y0]) && buf[y0 + BUFSIZE..] == old(buf[y0 + BUFSIZE..])
      decreases 8 * BUFSIZE + 7 - |r.bits|
    {
      assert |r.bits| % 8 == |cur| && r.bits[..|r.bits| - |cur|] == Bits(done);
      if at == Bit7 && cnt == 0 {
        return false, 0;
      }
      var x1 := Seen(At(line, i), LINE);
      SE0Is(At(line, i));
      i := i + 1;
      if at == BitLoop && x1 == 0 {
        count := BUFSIZE - cnt;
        return true, count;
      }
      StepRegisters(line, r, bitcnt);
      AssembleBit(shift, cur, x1 == x2);
      r := Step(line, r, LINE);
      ghost var bit := x1 == x2;
      var carry := Low(shift);
      if at == Bit7 {
        cnt := cnt - 1;
      }
      if x1 == x2 {
        shift := Ror(shift, 1);
        bitcnt := bitcnt - 1;
        if bitcnt == 0 {
          x2 := Seen(At(line, i), LINE);
          i := i + 1;
          bitcnt := 6;
        }
      } else {
        x2 := x1;
        bitcnt := 6;
        shift := Ror(shift, 0);
      }
      if at == Bit7 {
        ByteAdded(done, cur, bit, shift);
        buf[y] := shift;
        y := y + 1;
        done, cur := done + [shift], [];
        shift := 0x40;
        at := Bit0;
      } else {
        cur := cur + [bit];
        at := if carry == 1 then Bit7 else BitLoop;
      }
    }
  }

  // ---------------------------------------------------------------------- 16.5 MHz

  /** 1 << k */
  function One(k: nat): bv8
    requires k < 8
  {
    if k == 0 then 0x01 else if k == 1 then 0x02 else if k == 2 then 0x04 else if k == 3 then 0x08
    else if k == 4 then 0x10 else if k == 5 then 0x20 else if k == 6 then 0x40 else 0x80
  }

  function SetBit(b: bv8, k: nat): bv8
    requires k < 8
  {
    b | One(k)
  }

  function ClearBit(b: bv8, k: nat): bv8
    requires k < 8
  {
    b & !One(k)
  }

  /** bld: copy the T flag into bit k. */
  function Bld(b: bv8, k: nat, t: bool): bv8
    requires k < 8
  {
    if t then SetBit(b, k) else ClearBit(b, k)
  }

  /** The window of stage k: its own bit and the five before it, across the byte border;
      the two bits about to be written are cleared on the way. Stages 6 and 7 compare
      without masking. */
  function Window(b: bv8, k: nat): bv8
    requires k < 8
  {
    if k == 0 then b & 0xf9 else if k == 1 then b & 0xf3 else if k == 2 then b & 0xe7
    else if k == 3 then b & 0xcf else if k == 4 then b & 0x9f else if k == 5 then b & 0x3f else b
  }

  /** The unstuff escape of stage k is taken. */
  predicate Escapes(shift: bv8, k: nat)
    requires k < 8
  {
    if k <= 5 then shift == 0x00 else if k == 6 then shift < 0x02 else shift < 0x04
  }

  lemma SetBitBit(b: bv8, k: nat, j: nat)
    requires k < 8 && j < 8
    ensures BitOf(SetBit(b, k), j) == (j == k || BitOf(b, j))
  {
  }

  lemma ClearBitBit(b: bv8, k: nat, j: nat)
    requires k < 8 && j < 8
    ensures BitOf(ClearBit(b, k), j) == (j != k && BitOf(b, j))
  {
  }

  lemma WindowBit(b: bv8, k: nat, j: nat)
    requires k < 8 && j < 8
    ensures BitOf(Window(b, k), j) == (BitOf(b, j) && !(k <= 5 && (j == k + 1 || j == k + 2)))
  {
  }

  /** The bit d places before bit k, going round the byte. */
  function Back(k: nat, d: nat): (r: nat)
    requires k < 8 && d < 8
    ensures r < 8
  {
    if d <= k then k - d else k + 8 - d
  }

  /** The run of clear bits that ends at bit k, going round the byte. */
  ghost function Run(shift: bv8, k: nat): nat
    requires k < 8
  {
    if BitOf(shift, k) then 0
    else if BitOf(shift, Back(k, 1)) then 1
    else if BitOf(shift, Back(k, 2)) then 2
    else if BitOf(shift, Back(k, 3)) then 3
    else if BitOf(shift, Back(k, 4)) then 4
    else if BitOf(shift, Back(k, 5)) then 5
    else 6
  }

  /** The two bits after bit k that a masked stage has cleared, as the next test needs them. */
  ghost predicate Cleared(shift: bv8, k: nat)
    requires k < 8
  {
    && (k <= 5 ==> !BitOf(shift, k + 1) && !BitOf(shift, k + 2))
    && (k == 6 ==> !BitOf(shift, 7))
  }

  /** The per-bit tests (zero after a mask, below 2, below 4) recognise a run of six. */
  lemma EscapeMeansRun(shift: bv8, k: nat)
    requires k < 8 && Cleared(shift, k)
    ensures Escapes(shift, k) <==> Run(shift, k) == 6
  {
  }

  /** Bit k written, the two after it cleared by the window, the rest as it was. */
  ghost predicate Written(shift: bv8, s: bv8, k: nat, t: bool)
    requires k < 8
  {
    forall j :: 0 <= j < 8 ==>
      BitOf(s, j) == ((if j == k then t else BitOf(shift, j)) && !(k <= 5 && (j == k + 1 || j == k + 2)))
  }

  lemma WriteBit(shift: bv8, k: nat, t: bool)
    requires k < 8
    ensures Written(shift, Window(Bld(shift, k, t), k), k, t)
  {
    hide BitOf, Window, SetBit, ClearBit;
    forall j | 0 <= j < 8
      ensures BitOf(Window(Bld(shift, k, t), k), j)
           == ((if j == k then t else BitOf(shift, j)) && !(k <= 5 && (j == k + 1 || j == k + 2)))
    {
      SetBitBit(shift, k, j);
      ClearBitBit(shift, k, j);
      WindowBit(Bld(shift, k, t), k, j);
    }
  }

  /** Writing bit k extends or ends the run and leaves the earlier bits alone. */
  lemma RunAfterWrite(shift: bv8, s: bv8, k: nat, t: bool)
    requires k < 8 && Written(shift, s, k, t)
    requires k == 6 ==> !BitOf(shift, 7)
    ensures Cleared(s, k) && BitOf(s, k) == t
    ensures forall j :: 0 <= j < k ==> BitOf(s, j) == BitOf(shift, j)
    ensures Run(s, k) == if t then 0 else if Run(shift, Back(k, 1)) >= 5 then 6 else Run(shift, Back(k, 1)) + 1
  {
    hide BitOf;
  }

  /** The escape sets the bit again, so that no later window sees the run. */
  lemma MarkBit(shift: bv8, k: nat)
    requires k < 8 && Cleared(shift, k)
    ensures Run(SetBit(shift, k), k) == 0 && Cleared(SetBit(shift, k), k) && BitOf(SetBit(shift, k), k)
    ensures forall j :: 0 <= j < k ==> BitOf(SetBit(shift, k), j) == BitOf(shift, j)
  {
    hide BitOf, SetBit;
    forall j | 0 <= j < 8 ensures BitOf(SetBit(shift, k), j) == (j == k || BitOf(shift, j)) {
      SetBitBit(shift, k, j);
    }
  }

  /** What the bits received so far can be recovered from: shift holds them inverted, except
      where x3 records that the bit was set again by an escape. */
  ghost predicate Recoverable(shift: bv8, x3: bv8, bits: seq<bool>) {
    && |bits| <= 8
    && (forall j :: 0 <= j < |bits| ==> (bits[j] <==> BitOf(shift, j) != BitOf(x3, j)))
    && (forall j :: |bits| <= j < 8 ==> BitOf(x3, j))
  }

  lemma EorBit(a: bv8, b: bv8, j: nat)
    requires j < 8
    ensures BitOf(Eor(a, b), j) <==> BitOf(a, j) != BitOf(b, j)
  {
    hide Eor, BitOf;
    EorBits(a, b);
    EorHighBits(a, b);
  }

  lemma EorBits(a: bv8, b: bv8)
    ensures (BitOf(Eor(a, b), 0) <==> BitOf(a, 0) != BitOf(b, 0))
    ensures (BitOf(Eor(a, b), 1) <==> BitOf(a, 1) != BitOf(b, 1))
    ensures (BitOf(Eor(a, b), 2) <==> BitOf(a, 2) != BitOf(b, 2))
    ensures (BitOf(Eor(a, b), 3) <==> BitOf(a, 3) != BitOf(b, 3))
  {
  }

  lemma EorHighBits(a: bv8, b: bv8)
    ensures (BitOf(Eor(a, b), 4) <==> BitOf(a, 4) != BitOf(b, 4))
    ensures (BitOf(Eor(a, b), 5) <==> BitOf(a, 5) != BitOf(b, 5))
    ensures (BitOf(Eor(a, b), 6) <==> BitOf(a, 6) != BitOf(b, 6))
    ensures (BitOf(Eor(a, b), 7) <==> BitOf(a, 7) != BitOf(b, 7))
  {
  }

  lemma RecoveredByte(shift: bv8, x3: bv8, bits: seq<bool>)
    requires |bits| == 8 && Recoverable(shift, x3, bits)
    ensures BitsOf(Eor(x3, shift)) == bits
  {
    hide BitOf, Eor;
    forall j | 0 <= j < 8 ensures BitOf(Eor(x3, shift), j) == bits[j] {
      EorBit(x3, shift, j);
    }
  }

  lemma AllOnes()
    ensures forall j :: 0 <= j < 8 ==> BitOf(0xff, j)
  {
  }

  /** One more bit: written into shift, and either marked in x3 or not. */
  lemma RecoverableAppend(shift: bv8, x3: bv8, bits: seq<bool>, s: bv8, x: bv8, bit: bool)
    requires |bits| < 8 && Recoverable(shift, x3, bits)
    requires forall j :: 0 <= j < |bits| ==> BitOf(s, j) == BitOf(shift, j)
    requires forall j :: 0 <= j < 8 && j != |bits| ==> BitOf(x, j) == BitOf(x3, j)
    requires bit <==> BitOf(s, |bits|) != BitOf(x, |bits|)
    ensures Recoverable(s, x, bits + [bit])
  {
    hide BitOf;
  }

  lemma ClearMarks(x3: bv8, k: nat)
    requires k < 8
    ensures forall j :: 0 <= j < 8 && j != k ==> BitOf(ClearBit(x3, k), j) == BitOf(x3, j)
    ensures !BitOf(ClearBit(x3, k), k)
  {
    hide BitOf, ClearBit;
    forall j | 0 <= j < 8 ensures BitOf(ClearBit(x3, k), j) == (j != k && BitOf(x3, j)) {
      ClearBitBit(x3, k, j);
    }
  }

  /** Registers after a data bit, against the abstract receiver. */
  ghost predicate Holds165(r: Rx, shift: bv8, x3: bv8, bits: seq<bool>) {
    && 1 <= |bits| <= 8 && Recoverable(shift, x3, bits)
    && Run(shift, |bits| - 1) == r.ones <= 5
    && (|bits| == 6 ==> !BitOf(shift, 7))
  }

  /** Samples data bit k (and the stuff bit behind a run of six) into the registers. */
  method ReceiveBit165(line: seq<bv8>, pos: nat, shift: bv8, x3: bv8, prev: bv8, k: nat,
                       ghost r: Rx, ghost bits: seq<bool>)
      returns (pos': nat, shift': bv8, x3': bv8, prev': bv8, escaped: bool)
    requires k < 8 && |bits| == k && Recoverable(shift, x3, bits)
    requires k == 6 ==> !BitOf(shift, 7)
    requires Run(shift, Back(k, 1)) == r.ones <= 5
    requires r.pos == pos && r.prev == Seen(prev, MINUS)
    ensures var q := Step(line, r, MINUS); var bit := Seen(At(line, pos), MINUS) == Seen(prev, MINUS);
      && q.pos == pos' > pos && q.prev == Seen(prev', MINUS) && q.bits == r.bits + [bit]
      && escaped == (bit && q.ones == 0)
      && Holds165(q, shift', x3', bits + [bit])
  {
    hide BitOf, Seen, One, Window, Escapes, Bld, SetBit, ClearBit, Written, Recoverable;
    var sample := At(line, pos);
    pos' := pos + 1;
    var t := Seen(sample, MINUS) != Seen(prev, MINUS);
    prev' := sample;
    shift' := Window(Bld(shift, k, t), k);
    x3' := x3;
    WriteBit(shift, k, t);
    RunAfterWrite(shift, shift', k, t);
    EscapeMeansRun(shift', k);
    Unmarked(shift, x3, bits);
    escaped := Escapes(shift', k);
    if escaped {
      MarkBit(shift', k);
      ClearMarks(x3, k);
      x3' := ClearBit(x3', k);
      prev' := At(line, pos');
      pos' := pos' + 1;
      shift' := SetBit(shift', k);
    }
    RecoverableAppend(shift, x3, bits, shift', x3', !t);
  }

  lemma Unmarked(shift: bv8, x3: bv8, bits: seq<bool>)
    requires |bits| < 8 && Recoverable(shift, x3, bits)
    ensures BitOf(x3, |bits|)
  {
  }

  /** Bit 0 of the first byte: the level itself is copied, since the line was in K. */
  lemma FirstBit(line: seq<bv8>)
    ensures var q := Step(line, START165, MINUS); var t := Seen(At(line, 0), MINUS) != 0;
      && q.pos == 1 && q.prev == Seen(At(line, 0), MINUS) && q.bits == [!t]
      && Holds165(q, Bld(0xff, 0, t), 0xff, [!t]) && !Stuffed(q)
  {
    hide Seen, BitOf, SetBit, ClearBit;
    AllOnes();
    forall j | 0 <= j < 8 ensures BitOf(SetBit(0xff, 0), j) && BitOf(ClearBit(0xff, 0), j) == (j != 0) {
      SetBitBit(0xff, 0, j);
      ClearBitBit(0xff, 0, j);
    }
  }

  /** What stages k to 7 need on entry: at k = 0 the registers of a finished byte. */
  ghost predicate Entry165(r: Rx, k: nat, shift: bv8, x3: bv8, cur: seq<bool>) {
    && |cur| == k < 8 && Recoverable(shift, x3, cur)
    && Run(shift, Back(k, 1)) == r.ones <= 5
    && (k == 6 ==> !BitOf(shift, 7))
  }

  /** The start of a byte: the registers carry the run over from the last one. */
  lemma NextByte(r: Rx, shift: bv8, x3: bv8, bits: seq<bool>)
    requires |bits| == 8 && Holds165(r, shift, x3, bits)
    ensures BitsOf(Eor(x3, shift)) == bits
    ensures Entry165(r, 0, shift, 0xff, [])
  {
    hide BitOf, Eor, BitsOf;
    RecoveredByte(shift, x3, bits);
    AllOnes();
  }

  /** Within a byte: what the next stage may rely on. */
  lemma NextBit(r: Rx, shift: bv8, x3: bv8, bits: seq<bool>)
    requires 1 <= |bits| <= 7 && Holds165(r, shift, x3, bits)
    ensures Entry165(r, |bits|, shift, x3, bits)
  {
    hide BitOf, Recoverable, Run;
  }

  lemma EntryGives(r: Rx, k: nat, shift: bv8, x3: bv8, bits: seq<bool>)
    requires Entry165(r, k, shift, x3, bits)
    ensures Recoverable(shift, x3, bits) && Run(shift, Back(k, 1)) == r.ones <= 5
    ensures k == 6 ==> !BitOf(shift, 7)
  {
    hide BitOf, Recoverable, Run;
  }

  lemma NothingStored()
    ensures Bits([]) == []
  {
  }

  lemma ByteStored(done: seq<bv8>, bits: seq<bool>, b: bv8)
    requires |bits| == 8 && BitsOf(b) == bits
    ensures Bits(done + [b]) == Bits(done) + bits
  {
    assert (done + [b])[..|done|] == done;
  }

  lemma Ends165(line: seq<bv8>, r: Rx, done: seq<bv8>, cur: seq<bool>)
    requires r.bits == Bits(done) + cur && |cur| == 1 && |done| <= BUFSIZE
    requires IsSE0(At(line, Probe(r)))
    ensures Run165(line, r) == Complete(Bits(done))
  {
    hide IsSE0, Bits, Probe, Step, At;
    assert |r.bits| == 8 * |done| + 1;
    assert r.bits[..|r.bits| - 1] == Bits(done);
  }

  lemma Goes165On(line: seq<bv8>, r: Rx, done: seq<bv8>, cur: seq<bool>)
    requires r.bits == Bits(done) + cur && |cur| < 8 && |r.bits| < 8 * BUFSIZE + 2
    requires |cur| == 1 ==> !IsSE0(At(line, Probe(r)))
    ensures Run165(line, r) == Run165(line, Step(line, r, MINUS))
    ensures |Step(line, r, MINUS).bits| == |r.bits| + 1
  {
    hide IsSE0, Probe, Bits;
    assert |r.bits| % 8 == |cur|;
  }

  lemma Overflows165(line: seq<bv8>, r: Rx)
    requires |r.bits| == 8 * BUFSIZE + 2
    ensures Run165(line, r) == Overflow
  {
    hide IsSE0, Step;
  }

  lemma StuffedIs(r: Rx, bit: bool)
    requires r.bits != [] && r.bits[|r.bits| - 1] == bit && r.pos >= 1
    ensures Stuffed(r) == (bit && r.ones == 0)
    ensures Probe(r) == if Stuffed(r) then r.pos - 1 else r.pos
  {
  }

  /** Stage 0's store: the recovered byte goes into the buffer, the mark register is set. */
  method StoreByte165(buf: array<bv8>, y: nat, shift: bv8, x3: bv8,
                      ghost r: Rx, ghost done: seq<bv8>, ghost cur: seq<bool>)
      returns (y': nat, x3': bv8, ghost done': seq<bv8>)
    requires y < buf.Length && |cur| == 8 && Holds165(r, shift, x3, cur)
    requires r.bits == Bits(done) + cur
    modifies buf
    ensures y' == y + 1 && x3' == 0xff
    ensures |done'| == |done| + 1 && done' == done + [buf[y]] && r.bits == Bits(done')
    ensures forall j :: 0 <= j < buf.Length && j != y ==> buf[j] == old(buf[j])
    ensures Entry165(r, 0, shift, x3', [])
  {
    hide BitOf, Holds165, Recoverable, Bits, BitsOf, Run, Eor;
    NextByte(r, shift, x3, cur);
    x3' := Eor(x3, shift);
    ByteStored(done, cur, x3');
    buf[y] := x3';
    y' := y + 1;
    done' := done + [x3'];
    x3' := 0xff;
  }

  datatype Outcome = ByteDone | PacketEnd | TooLong

  /** The rest of one byte, from stage k on: eight bits collected, or the packet over. */
  method Stages165(line: seq<bv8>, pos0: nat, shift0: bv8, x30: bv8, prev0: bv8, k0: nat, escaped0: bool,
                   cnt0: nat, ghost r0: Rx, ghost done: seq<bv8>, ghost cur0: seq<bool>)
      returns (outcome: Outcome, pos: nat, shift: bv8, x3: bv8, prev: bv8, escaped: bool,
               cnt: nat, ghost r: Rx, ghost cur: seq<bool>)
    requires |cur0| == k0 <= 1 && Entry165(r0, k0, shift0, x30, cur0) && |done| + cnt0 == BUFSIZE
    requires r0.bits == Bits(done) + cur0 && r0.pos == pos0 && r0.prev == Seen(prev0, MINUS)
    requires k0 == 1 ==> Probe(r0) == (if escaped0 then pos0 - 1 else pos0)
    ensures outcome == PacketEnd ==> cnt == cnt0 && Run165(line, r0) == Complete(Bits(done))
    ensures outcome == TooLong ==> Run165(line, r0) == Overflow
    ensures outcome == ByteDone ==>
      && |cur| == 8 && Holds165(r, shift, x3, cur) && cnt == cnt0 - 1 >= 0 && pos >= pos0
      && r.bits == Bits(done) + cur && r.pos == pos && r.prev == Seen(prev, MINUS)
      && Run165(line, r0) == Run165(line, r)
  {
    hide Seen, BitOf, IsSE0, Holds165, Entry165, Recoverable, Bits, Step, Run, At, Stuffed, Probe, Run165;
    pos, shift, x3, prev, escaped, cnt, r, cur := pos0, shift0, x30, prev0, escaped0, cnt0, r0, cur0;
    var k := k0;
    while true
      invariant k0 <= k < 8 && Entry165(r, k, shift, x3, cur) && |cur| == k
      invariant cnt == (if k <= 2 then cnt0 else cnt0 - 1) >= 0 && |r.bits| == 8 * |done| + k
      invariant r.bits == Bits(done) + cur && r.pos == pos >= pos0 && r.prev == Seen(prev, MINUS)
      invariant k == 1 ==> Probe(r) == (if escaped then pos - 1 else pos)
      invariant Run165(line, r0) == Run165(line, r)
      decreases 8 - k
    {
      if k == 1 {
        var probe := if escaped && pos >= 1 then At(line, pos - 1) else At(line, pos);
        SE0Is(probe);
        if Seen(probe, LINE) == 0 {
          Ends165(line, r, done, cur);
          outcome := PacketEnd;
          return;
        }
      }
      if k == 2 {
        if cnt == 0 {
          Overflows165(line, r);
          outcome := TooLong;
          return;
        }
        cnt := cnt - 1;
      }
      EntryGives(r, k, shift, x3, cur);
      Goes165On(line, r, done, cur);
      ghost var bit := Seen(At(line, pos), MINUS) == Seen(prev, MINUS);
      assert (Bits(done) + cur) + [bit] == Bits(done) + (cur + [bit]);
      pos, shift, x3, prev, escaped := ReceiveBit165(line, pos, shift, x3, prev, k, r, cur);
      r := Step(line, r, MINUS);
      cur := cur + [bit];
      k := k + 1;
      if k == 8 {
        outcome := ByteDone;
        return;
      }
      NextBit(r, shift, x3, cur);
      StuffedIs(r, bit);
    }
  }

  /** Receives one packet into buf from y0 on: the number of bytes stored, or overflow. */
  method Receive165(line: seq<bv8>, buf: array<bv8>, y0: nat) returns (ok: bool, count: nat)
    requires y0 + BUFSIZE <= buf.Length
    modifies buf
    ensures ok ==> count <= BUFSIZE && Run165(line, START165) == Complete(Bits(buf[y0..y0 + count]))
    ensures !ok ==> Run165(line, START165) == Overflow
    ensures buf[..y0] == old(buf[..y0]) && buf[y0 + BUFSIZE..] == old(buf[y0 + BUFSIZE..])
  {
    hide Seen, BitOf, Bld, IsSE0, Entry165, Holds165, Recoverable, Bits, Step, Run, At, Probe, Run165;
    var y, cnt := y0, BUFSIZE;
    var x3: bv8 := 0xff;
    var prev := At(line, 0);
    var i := 1;
    FirstBit(line);
    NothingStored();
    Goes165On(line, START165, [], []);
    var shift := Bld(0xff, 0, Seen(prev, MINUS) != 0);
    var k := 1;
    var escaped := false;
    ghost var r, done := Step(line, START165, MINUS), [];
    ghost var cur := r.bits;
    NextBit(r, shift, x3, cur);
    StuffedIs(r, cur[0]);
    while true
      invariant |cur| == k <= 1 <= i && Entry165(r, k, shift, x3, cur)
      invariant |done| + cnt == BUFSIZE && y == y0 + |done| && buf[y0..y] == done
      invariant r.bits == Bits(done) + cur && r.pos == i && r.prev == Seen(prev, MINUS)
      invariant k == 1 ==> Probe(r) == (if escaped then i - 1 else i)
      invariant Run165(line, START165) == Run165(line, r)
      invariant buf[..y0] == old(buf[..y0]) && buf[y0 + BUFSIZE..] == old(buf[y0 + BUFSIZE..])
      decreases cnt
    {
      var outcome;
      outcome, i, shift, x3, prev, escaped, cnt, r, cur :=
        Stages165(line, i, shift, x3, prev, k, escaped, cnt, r, done, cur);
      if outcome == PacketEnd {
        return true, BUFSIZE - cnt;
      }
      if outcome == TooLong {
        return false, 0;
      }
      y, x3, done := StoreByte165(buf, y, shift, x3, r, done, cur);
      cur := [];
      k := 0;
    }
  }
}
