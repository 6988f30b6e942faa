/** What the two receivers make of an arbitrary line, when they agree, and why what a
    transmitter sends comes back unchanged. */
module WireReceive {
  import opened Avr
  import opened Wire

  /** The 20 MHz receiver: both lines compared, SE0 looked for before data bits 1 to 6 of
      a byte, the byte counted at its bit 7. */
  function Run20(line: seq<bv8>, r: Rx): RxResult
    requires |r.bits| <= 8 * BUFSIZE + 7
    decreases 8 * BUFSIZE + 7 - |r.bits|
  {
    var k := |r.bits| % 8;
    if 1 <= k <= 6 && IsSE0(At(line, r.pos)) then Complete(r.bits[..|r.bits| - k])
    else if |r.bits| == 8 * BUFSIZE + 7 then Overflow
    else Run20(line, Step(line, r, LINE))
  }

  /** The last data bit was the sixth one of a run, so a stuff bit followed it. */
  predicate Stuffed(r: Rx) {
    r.bits != [] && r.bits[|r.bits| - 1] && r.ones == 0
  }

  /** The sample the 16.5 MHz receiver tests for SE0 in stage 1: the stuff bit if stage 0
      has just skipped one, the next sample otherwise. */
  function Probe(r: Rx): nat {
    if Stuffed(r) && r.pos >= 1 then r.pos - 1 else r.pos
  }

  /** The 16.5 MHz receiver: D- alone compared, SE0 looked for in the sample after data
      bit 0 of a byte, the byte counted at its bit 2. */
  function Run165(line: seq<bv8>, r: Rx): RxResult
    requires |r.bits| <= 8 * BUFSIZE + 2
    decreases 8 * BUFSIZE + 2 - |r.bits|
  {
    var k := |r.bits| % 8;
    if k == 1 && IsSE0(At(line, Probe(r))) then Complete(r.bits[..|r.bits| - 1])
    else if |r.bits| == 8 * BUFSIZE + 2 then Overflow
    else Run165(line, Step(line, r, MINUS))
  }

  /** Both receivers start after the two K states that end the sync byte. The 20 MHz one
      counts the sync byte's last one, the 16.5 MHz one does not. */
  const START20: Rx := Rx(0, STATE_K, 1, [])
  const START165: Rx := Rx(0, 0, 0, [])

  /** Data states from the receiver's position up to m, then the two SE0 of an end of packet. */
  ghost predicate Framed(line: seq<bv8>, from: nat, m: nat) {
    && from <= m
    && (forall i :: from <= i < m ==> IsData(At(line, i)))
    && IsSE0(At(line, m)) && IsSE0(At(line, m + 1))
  }

  lemma DataIsNotSE0(x: bv8)
    requires IsData(x)
    ensures !IsSE0(x)
    ensures Seen(x, LINE) != 0
    ensures Seen(x, LINE) == STATE_J || Seen(x, LINE) == STATE_K
  {
  }

  lemma SE0Seen(x: bv8)
    requires IsSE0(x)
    ensures Seen(x, LINE) == 0 && Seen(x, MINUS) == 0
  {
  }

  lemma SE0Is(x: bv8)
    ensures IsSE0(x) <==> Seen(x, LINE) == 0
  {
  }

  /** On a framed line that ends on a byte boundary the 20 MHz receiver delivers every data
      bit, or overflows when there are more than eleven bytes. */
  lemma {:induction false} Run20Framed(line: seq<bv8>, r: Rx, m: nat)
    requires Framed(line, r.pos, m) && |r.bits| <= 8 * BUFSIZE + 7 && r.prev != 0
    requires var w := Walk(line, r, m, LINE);
      w.pos == m && |w.bits| % 8 == 0
    ensures var w := Walk(line, r, m, LINE);
      Run20(line, r) == if |w.bits| <= 8 * BUFSIZE then Complete(w.bits) else Overflow
    decreases m - r.pos
  {
    hide IsData, IsSE0, Seen;
    WalkGrows(line, r, m, LINE);
    var q := Step(line, r, LINE);
    if r.pos < m {
      DataIsNotSE0(At(line, r.pos));
      if |r.bits| < 8 * BUFSIZE + 7 {
        WalkGrows(line, q, m, LINE);
        if q.pos <= m {
          DataIsNotSE0(At(line, q.pos - 1));
          Run20Framed(line, q, m);
        }
      }
    } else {
      SE0Seen(At(line, m));
      assert q.bits[..|q.bits| - 1] == r.bits;
    }
  }

  /** The same for the 16.5 MHz receiver; its D- comparison cannot tell SE0 from K, so the
      bit read from the first SE0 may even look like the sixth one of a run. */
  lemma {:induction false} Run165Framed(line: seq<bv8>, r: Rx, m: nat)
    requires Framed(line, r.pos, m) && |r.bits| <= 8 * BUFSIZE + 2
    requires Stuffed(r) ==> r.pos >= 1 && IsData(At(line, r.pos - 1))
    requires var w := Walk(line, r, m, MINUS);
      w.pos == m && |w.bits| % 8 == 0
    ensures var w := Walk(line, r, m, MINUS);
      Run165(line, r) == if |w.bits| <= 8 * BUFSIZE then Complete(w.bits) else Overflow
    decreases m - r.pos
  {
    hide IsData, IsSE0, Seen;
    if r.pos >= m {
      EndNoticed(line, r);
    } else {
      WalkGrows(line, r, m, MINUS);
      var q := Step(line, r, MINUS);
      DataIsNotSE0(At(line, r.pos));
      if Stuffed(r) {
        DataIsNotSE0(At(line, r.pos - 1));
      }
      if |r.bits| < 8 * BUFSIZE + 2 {
        WalkGrows(line, q, m, MINUS);
        if q.pos <= m {
          Run165Framed(line, q, m);
        }
      }
    }
  }

  lemma EndNoticed(line: seq<bv8>, r: Rx)
    requires |r.bits| % 8 == 0 && |r.bits| <= 8 * BUFSIZE
    requires IsSE0(At(line, r.pos)) && IsSE0(At(line, r.pos + 1))
    ensures Run165(line, r) == Complete(r.bits)
  {
    hide IsSE0, Seen;
    var q := Step(line, r, MINUS);
    assert q.bits[..|q.bits| - 1] == r.bits;
  }

  // ------------------------------------------------- mask windows against counting

  /** A receiver watching D- alone in the same position as one watching both lines. */
  ghost predicate SamePlace(r: Rx, s: Rx) {
    && r.pos == s.pos && r.bits == s.bits
    && (r.prev == STATE_J || r.prev == STATE_K)
    && s.prev == Seen(r.prev, MINUS)
  }

  /** Between data states, D- changes exactly when the pair of lines does. */
  lemma SameTransitions(x: bv8, prev: bv8)
    requires IsData(x) && (prev == STATE_J || prev == STATE_K)
    ensures Seen(x, LINE) == prev <==> Seen(x, MINUS) == Seen(prev, MINUS)
    ensures Seen(x, LINE) == STATE_J || Seen(x, LINE) == STATE_K
    ensures Seen(x, MINUS) == Seen(Seen(x, LINE), MINUS)
  {
  }

  predicate AllData(line: seq<bv8>, m: nat) {
    forall i :: 0 <= i < m ==> IsData(At(line, i))
  }

  lemma {:induction false} WalksAgree(line: seq<bv8>, r: Rx, s: Rx, m: nat)
    requires AllData(line, m)
    requires SamePlace(r, s) && r.ones == s.ones
    ensures Walk(line, r, m, LINE).pos == Walk(line, s, m, MINUS).pos
    ensures Walk(line, r, m, LINE).bits == Walk(line, s, m, MINUS).bits
    decreases m - r.pos
  {
    hide IsData, IsSE0, Seen;
    if r.pos < m {
      SameTransitions(At(line, r.pos), r.prev);
      var q, t := Step(line, r, LINE), Step(line, s, MINUS);
      if q.pos <= m {
        SameTransitions(At(line, q.pos - 1), r.prev);
        WalksAgree(line, q, t, m);
      }
    }
  }

  /** Until the first zero the two receivers differ by one in their run of ones; a zero
      among the first five bits comes before either of them could see a full run. */
  lemma {:induction false} WalksMerge(line: seq<bv8>, r: Rx, s: Rx, m: nat, i: nat)
    requires AllData(line, m) && r.pos <= i < 5 && r.pos <= m
    requires SamePlace(r, s) && r.prev == STATE_K && r.ones == s.ones + 1 && s.ones == r.pos
    requires i < m ==> Seen(At(line, i), LINE) != STATE_K
    ensures Walk(line, r, m, LINE).pos == Walk(line, s, m, MINUS).pos
    ensures Walk(line, r, m, LINE).bits == Walk(line, s, m, MINUS).bits
    decreases m - r.pos
  {
    hide IsData, IsSE0, Seen;
    if r.pos < m {
      SameTransitions(At(line, r.pos), r.prev);
      var q, t := Step(line, r, LINE), Step(line, s, MINUS);
      if Seen(At(line, r.pos), LINE) == STATE_K {
        WalksMerge(line, q, t, m, i);
      } else {
        WalksAgree(line, q, t, m);
      }
    }
  }

  /** The first data byte starts with five ones: the line stays in K for five bit times. */
  ghost predicate StartsWithFiveOnes(line: seq<bv8>) {
    forall i :: 0 <= i < 5 ==> Seen(At(line, i), LINE) == STATE_K
  }

  /** Over the first m samples both receivers collect the same data bits. */
  predicate SameBits(line: seq<bv8>, m: nat) {
    && Walk(line, START20, m, LINE).bits == Walk(line, START165, m, MINUS).bits
    && Walk(line, START20, m, LINE).pos == Walk(line, START165, m, MINUS).pos
  }

  lemma BitsMerge(line: seq<bv8>, m: nat)
    requires AllData(line, m) && !StartsWithFiveOnes(line)
    ensures SameBits(line, m)
  {
    hide IsData, AllData, Walk;
    assert Seen(STATE_K, MINUS) == 0;
    var i :| 0 <= i < 5 && Seen(At(line, i), LINE) != STATE_K;
    WalksMerge(line, START20, START165, m, i);
  }

  /** With five ones first, the 20 MHz receiver skips the sixth sample, the 16.5 MHz one
      takes it for data. */
  lemma BitsSplit(line: seq<bv8>)
    requires StartsWithFiveOnes(line)
    ensures !SameBits(line, 6)
  {
    hide IsData, IsSE0;
    forall i | 0 <= i < 5
      ensures Seen(At(line, i), LINE) == STATE_K && Seen(At(line, i), MINUS) == 0
    {
      KOnMinus(At(line, i));
    }
    FiveOnes20(line);
    FiveOnes165(line);
  }

  lemma KOnMinus(x: bv8)
    requires Seen(x, LINE) == STATE_K
    ensures Seen(x, MINUS) == 0
  {
  }

  lemma FiveOnes20(line: seq<bv8>)
    requires forall i :: 0 <= i < 5 ==> Seen(At(line, i), LINE) == STATE_K
    ensures |Walk(line, START20, 6, LINE).bits| == 5
  {
    hide Seen, Walk;
    var r1 := Step(line, START20, LINE);
    var r2 := Step(line, r1, LINE);
    var r3 := Step(line, r2, LINE);
    var r4 := Step(line, r3, LINE);
    var r5 := Step(line, r4, LINE);
    assert r4.pos == 4 && r4.ones == 5 && r5.pos == 6 && |r5.bits| == 5;
    WalkStep(line, START20, 6, LINE);
    WalkStep(line, r1, 6, LINE);
    WalkStep(line, r2, 6, LINE);
    WalkStep(line, r3, 6, LINE);
    WalkStep(line, r4, 6, LINE);
    WalkStep(line, r5, 6, LINE);
  }

  lemma FiveOnes165(line: seq<bv8>)
    requires forall i :: 0 <= i < 5 ==> Seen(At(line, i), MINUS) == 0
    ensures |Walk(line, START165, 6, MINUS).bits| == 6
  {
    hide Seen, Walk;
    var r1 := Step(line, START165, MINUS);
    var r2 := Step(line, r1, MINUS);
    var r3 := Step(line, r2, MINUS);
    var r4 := Step(line, r3, MINUS);
    var r5 := Step(line, r4, MINUS);
    var r6 := Step(line, r5, MINUS);
    assert r5.pos == 5 && |r5.bits| == 5 && r6.pos >= 6;
    WalkStep(line, START165, 6, MINUS);
    WalkStep(line, r1, 6, MINUS);
    WalkStep(line, r2, 6, MINUS);
    WalkStep(line, r3, 6, MINUS);
    WalkStep(line, r4, 6, MINUS);
    WalkStep(line, r5, 6, MINUS);
    WalkStep(line, r6, 6, MINUS);
  }

  lemma WalkStep(line: seq<bv8>, r: Rx, m: nat, mask: bv8)
    ensures Walk(line, r, m, mask) == if r.pos >= m then r else Walk(line, Step(line, r, mask), m, mask)
  {
  }

  /** On a line of data states, six samples or more, the two receivers collect the same bits all
      along, whatever their number, if and only if it does not start with five ones. */
  lemma SameBitsExactly(line: seq<bv8>, n: nat)
    requires AllData(line, n) && n >= 6
    ensures (forall m :: 0 <= m <= n ==> SameBits(line, m)) <==> !StartsWithFiveOnes(line)
  {
    hide SameBits, StartsWithFiveOnes, IsData;
    if StartsWithFiveOnes(line) {
      BitsSplit(line);
    } else {
      forall m | 0 <= m <= n
        ensures SameBits(line, m)
      {
        BitsMerge(line, m);
      }
    }
  }

  /** The 16.5 MHz receiver decodes every framed line as the 20 MHz receiver does, unless
      the first byte starts with five ones. */
  lemma MinusRefinesCounting(line: seq<bv8>, m: nat)
    requires Framed(line, 0, m)
    requires var w := Walk(line, START20, m, LINE);
      w.pos == m && |w.bits| % 8 == 0
    requires !StartsWithFiveOnes(line)
    ensures Run165(line, START165) == Run20(line, START20)
  {
    hide IsData, IsSE0, StartsWithFiveOnes;
    BitsMerge(line, m);
    Run20Framed(line, START20, m);
    Run165Framed(line, START165, m);
  }

  // -------------------------------------------------------------------- round trip

  /** What a receiver sees of a packet once it has recognised the end of the sync byte. */
  function AfterSync(bytes: seq<bv8>, idle: bv8): seq<bv8> {
    PacketLine(bytes, idle)[8..]
  }

  function Toggled(level: bv8, times: nat): bv8
    decreases times
  {
    if times == 0 then level else Toggled(Flip(level), times - 1)
  }

  /** k zeros and a one leave the line toggled k times and one one counted. */
  lemma {:induction false} ZerosThenOne(k: nat, rest: seq<bool>, level: bv8)
    ensures var n := Nrzi(Stuff(seq(k, i => false) + ([true] + rest), 0), level);
      |n| >= k + 1 && n[k + 1..] == Nrzi(Stuff(rest, 1), Toggled(level, k))
  {
    hide Flip;
    var zeros := seq(k, i => false);
    var bits := zeros + ([true] + rest);
    NrziStuffHead(bits, 0, level);
    if k == 0 {
      assert bits[1..] == rest;
    } else {
      assert bits[1..] == seq(k - 1, i => false) + ([true] + rest);
      ZerosThenOne(k - 1, rest, Flip(level));
    }
  }

  lemma FlipTwice(x: bv8)
    ensures Flip(Flip(x)) == x
  {
  }

  lemma TwoMoreToggles(x: bv8, k: nat)
    ensures Toggled(x, k + 2) == Toggled(x, k)
  {
    hide Flip;
    FlipTwice(x);
    assert Toggled(x, k + 2) == Toggled(Flip(x), k + 1) == Toggled(Flip(Flip(x)), k);
  }

  lemma SevenToggles(x: bv8)
    ensures Toggled(x, 7) == Flip(x)
  {
    TwoMoreToggles(x, 5);
    TwoMoreToggles(x, 3);
    TwoMoreToggles(x, 1);
    assert Toggled(x, 1) == Toggled(Flip(x), 0);
  }

  lemma IdleFlips(idle: bv8)
    requires idle & LINE == STATE_J
    ensures Seen(Flip(idle), LINE) == STATE_K && Seen(Flip(idle), MINUS) == 0 && IsData(Flip(idle))
    ensures IsSE0(idle & !LINE)
  {
  }

  lemma SyncBits()
    ensures BitsOf(SYNC) == seq(7, i => false) + [true]
  {
  }

  /** The sync byte ends with two bit times K, the second of them counting as a one. */
  lemma SyncLevels(bytes: seq<bv8>, idle: bv8)
    ensures var n := Nrzi(Stuff(Bits([SYNC] + bytes), 0), idle);
      |n| >= 8 && n[8..] == Nrzi(Stuff(Bits(bytes), 1), Flip(idle))
  {
    hide Stuff, Nrzi, Flip, BitsOf;
    BitsAppend([SYNC], bytes);
    assert Bits([SYNC]) == BitsOf(SYNC) by {
      assert [SYNC][..0] == [];
      assert Bits([]) == [];
    }
    SyncBits();
    assert Bits([SYNC] + bytes) == seq(7, i => false) + ([true] + Bits(bytes));
    ZerosThenOne(7, Bits(bytes), idle);
    SevenToggles(idle);
  }

  lemma {:induction false} NrziIsData(bits: seq<bool>, level: bv8)
    requires IsData(level)
    ensures forall i :: 0 <= i < |bits| ==> IsData(Nrzi(bits, level)[i])
  {
    hide Flip, IsData;
    if bits != [] {
      FlipIsSeen(level, LINE);
      NrziIsData(bits[1..], if bits[0] then level else Flip(level));
    }
  }

  /** Everything a receiver needs to know about a packet from the end of its sync byte on. */
  lemma PacketIsFramed(bytes: seq<bv8>, idle: bv8, m: nat)
    requires idle & LINE == STATE_J
    requires m == |Nrzi(Stuff(Bits(bytes), 1), Flip(idle))|
    ensures Framed(AfterSync(bytes, idle), 0, m)
    ensures m + 2 <= |AfterSync(bytes, idle)|
    ensures AfterSync(bytes, idle)[0..m] == Nrzi(Stuff(Bits(bytes), 1), Flip(idle))
  {
    hide IsData, IsSE0, Flip, Stuff, Bits;
    var n := Nrzi(Stuff(Bits([SYNC] + bytes), 0), idle);
    SyncLevels(bytes, idle);
    IdleFlips(idle);
    NrziIsData(Stuff(Bits(bytes), 1), Flip(idle));
    var line := AfterSync(bytes, idle);
    assert line == n[8..] + [idle & !LINE, idle & !LINE, (idle & !LINE) | STATE_J];
  }

  /** Wire round trip, 20 MHz: whatever packet a transmitter sends, the receiver delivers
      its bytes and nothing else, up to the eleven its buffer holds; more overflow. */
  lemma RoundTrip20(bytes: seq<bv8>, idle: bv8)
    requires idle & LINE == STATE_J
    ensures Run20(AfterSync(bytes, idle), START20)
         == if |bytes| <= BUFSIZE then Complete(Bits(bytes)) else Overflow
  {
    hide IsData, IsSE0, Flip, Stuff, Nrzi, Bits, Seen, AfterSync, Framed, Walk, Run20;
    var m := |Nrzi(Stuff(Bits(bytes), 1), Flip(idle))|;
    var line := AfterSync(bytes, idle);
    PacketIsFramed(bytes, idle, m);
    IdleFlips(idle);
    WalkReadsBack(line, START20, Bits(bytes), Flip(idle), m, LINE);
    assert START20.bits + Bits(bytes) == Bits(bytes);
    Run20Framed(line, START20, m);
  }

  /** Some bit among the low five is clear. */
  predicate ClearLowBit(b: bv8) {
    b & 0x1F != 0x1F
  }

  /** A packet identifier carries its four type bits and then their complement (section
      8.3.1 of USB 2.0). */
  predicate IsPid(b: bv8) {
    (b & 0x0F) ^ (b >> 4) == 0x0F
  }

  lemma PidHasClearLowBit(b: bv8)
    requires IsPid(b)
    ensures ClearLowBit(b)
  {
  }

  /** Stuffing does not depend on an earlier one when a zero comes within five bits. */
  lemma {:induction false} StuffForgets(bits: seq<bool>, ones: nat, i: nat)
    requires i < |bits| && !bits[i] && ones + i < 5
    ensures Stuff(bits, ones + 1) == Stuff(bits, ones)
  {
    if bits[0] {
      StuffForgets(bits[1..], ones + 1, i - 1);
    }
  }

  lemma ClearLowBitAt(b: bv8)
    requires ClearLowBit(b)
    ensures exists i :: 0 <= i < 5 && !BitOf(b, i)
  {
    assert !BitOf(b, 0) || !BitOf(b, 1) || !BitOf(b, 2) || !BitOf(b, 3) || !BitOf(b, 4);
  }

  /** Wire round trip, 16.5 MHz: the same for every packet whose first byte is not five
      ones first, as is every packet identifier. */
  lemma RoundTrip165(bytes: seq<bv8>, idle: bv8)
    requires idle & LINE == STATE_J
    requires bytes == [] || ClearLowBit(bytes[0])
    ensures Run165(AfterSync(bytes, idle), START165)
         == if |bytes| <= BUFSIZE then Complete(Bits(bytes)) else Overflow
  {
    hide IsData, IsSE0, Flip, Stuff, Nrzi, Bits, Seen, AfterSync, Framed, Walk, Run165, ClearLowBit;
    var m := |Nrzi(Stuff(Bits(bytes), 1), Flip(idle))|;
    var line := AfterSync(bytes, idle);
    PacketIsFramed(bytes, idle, m);
    IdleFlips(idle);
    FirstBitsForgotten(bytes);
    WalkReadsBack(line, START165, Bits(bytes), Flip(idle), m, MINUS);
    assert START165.bits + Bits(bytes) == Bits(bytes);
    Run165Framed(line, START165, m);
  }

  /** The first eight bits of a packet are its first byte. */
  lemma FirstByteFirst(bytes: seq<bv8>)
    requires bytes != []
    ensures forall i :: 0 <= i < 8 ==> Bits(bytes)[i] == BitOf(bytes[0], i)
  {
    hide BitOf;
    BitsAppend([bytes[0]], bytes[1..]);
    assert bytes == [bytes[0]] + bytes[1..];
    assert Bits([bytes[0]]) == BitsOf(bytes[0]) by {
      assert [bytes[0]][..0] == [];
      assert Bits([]) == [];
    }
  }

  lemma ZeroComesEarly(bytes: seq<bv8>)
    requires bytes != [] && ClearLowBit(bytes[0])
    ensures Stuff(Bits(bytes), 1) == Stuff(Bits(bytes), 0)
  {
    hide BitOf, Stuff, ClearLowBit, Bits;
    ClearLowBitAt(bytes[0]);
    var i :| 0 <= i < 5 && !BitOf(bytes[0], i);
    FirstByteFirst(bytes);
    StuffForgets(Bits(bytes), 0, i);
  }

  lemma FirstBitsForgotten(bytes: seq<bv8>)
    requires bytes == [] || ClearLowBit(bytes[0])
    ensures Stuff(Bits(bytes), 1) == Stuff(Bits(bytes), 0)
  {
    if bytes != [] {
      ZeroComesEarly(bytes);
    }
  }

  // ------------------------------------------- the packets the 16.5 MHz receiver spoils

  function Ones(k: nat): seq<bool> {
    seq(k, i => true)
  }

  /** After five ones the transmitter, which counts the sync byte's one, stuffs; to a
      receiver that does not count it the stuff bit is a data zero. */
  lemma {:induction false} StuffBitBecomesData(k: nat, rest: seq<bool>, ones: nat)
    requires k >= 1 && ones + k == 5
    ensures Stuff(Ones(k) + rest, ones + 1) == Stuff(Ones(k) + ([false] + rest), ones)
  {
    var a, b := Ones(k) + rest, Ones(k) + ([false] + rest);
    if k == 1 {
      assert a[1..] == rest && b[1..] == [false] + rest;
    } else {
      assert a[1..] == Ones(k - 1) + rest && b[1..] == Ones(k - 1) + ([false] + rest);
      StuffBitBecomesData(k - 1, rest, ones + 1);
    }
  }

  lemma {:induction false} Run165Extends(line: seq<bv8>, r: Rx)
    requires |r.bits| <= 8 * BUFSIZE + 2
    ensures var x := Run165(line, r);
      x.Complete? ==> |x.bits| % 8 == 0 && |x.bits| >= |r.bits| - 1
    decreases 8 * BUFSIZE + 2 - |r.bits|
  {
    var k := |r.bits| % 8;
    if k == 1 && IsSE0(At(line, Probe(r))) {
    } else if |r.bits| < 8 * BUFSIZE + 2 {
      Run165Extends(line, Step(line, r, MINUS));
    }
  }

  /** The end of packet found one bit late: the receiver drops that bit, unless it was
      itself followed by a stuff bit, in which case the end goes unnoticed. */
  lemma {:induction false} Run165OneBitOver(line: seq<bv8>, r: Rx, m: nat)
    requires Framed(line, r.pos, m) && |r.bits| <= 8 * BUFSIZE + 1
    requires Stuffed(r) ==> r.pos >= 1 && IsData(At(line, r.pos - 1))
    requires var w := Walk(line, r, m, MINUS);
      w.pos == m && |w.bits| % 8 == 1 && |w.bits| <= 8 * BUFSIZE + 1
    ensures var w := Walk(line, r, m, MINUS); var x := Run165(line, r);
      if Stuffed(w) then x.Complete? ==> |x.bits| > |w.bits|
      else x == Complete(w.bits[..|w.bits| - 1])
    decreases m - r.pos
  {
    hide IsData, IsSE0, Seen, At;
    if r.pos >= m {
      EndNoticedLate(line, r);
    } else {
      WalkGrows(line, r, m, MINUS);
      DataIsNotSE0(At(line, r.pos));
      if Stuffed(r) {
        DataIsNotSE0(At(line, r.pos - 1));
      }
      var q := Step(line, r, MINUS);
      WalkGrows(line, q, m, MINUS);
      if q.pos <= m {
        Run165OneBitOver(line, q, m);
      }
    }
  }

  lemma EndNoticedLate(line: seq<bv8>, r: Rx)
    requires |r.bits| % 8 == 1 && |r.bits| <= 8 * BUFSIZE + 1 && IsSE0(At(line, r.pos))
    requires Stuffed(r) ==> r.pos >= 1 && IsData(At(line, r.pos - 1))
    ensures var x := Run165(line, r);
      if Stuffed(r) then x.Complete? ==> |x.bits| > |r.bits|
      else x == Complete(r.bits[..|r.bits| - 1])
  {
    hide IsData, IsSE0, Seen;
    if Stuffed(r) {
      DataIsNotSE0(At(line, r.pos - 1));
      Run165Extends(line, Step(line, r, MINUS));
    }
  }

  lemma {:induction false} ShiftedByZero(rest: seq<bool>)
    ensures ([false] + rest)[..|rest|] == rest <==> forall i :: 0 <= i < |rest| ==> !rest[i]
  {
    var shifted := ([false] + rest)[..|rest|];
    if forall i :: 0 <= i < |rest| ==> !rest[i] {
      assert shifted == rest;
    } else if shifted == rest {
      var i := 0;
      while i < |rest|
        invariant 0 <= i <= |rest|
        invariant forall j :: 0 <= j < i ==> !rest[j]
      {
        assert shifted[i] == rest[i];
        i := i + 1;
      }
    }
  }

  /** What the 16.5 MHz receiver makes of a packet that starts with five ones. */
  lemma FiveOnesReceived(bytes: seq<bv8>, idle: bv8, rest: seq<bool>)
    requires idle & LINE == STATE_J && |bytes| <= BUFSIZE && bytes != []
    requires Bits(bytes) == Ones(5) + rest
    ensures var x := Run165(AfterSync(bytes, idle), START165);
      || x == Complete(Ones(5) + ([false] + rest)[..|rest|])
      || (rest != [] && rest[|rest| - 1] && x != Complete(Bits(bytes)))
  {
    hide IsData, IsSE0, Flip, Stuff, Nrzi, Bits, Seen, AfterSync, Framed, Walk, Run165;
    StuffBitBecomesData(5, rest, 0);
    var m := |Nrzi(Stuff(Bits(bytes), 1), Flip(idle))|;
    var line := AfterSync(bytes, idle);
    PacketIsFramed(bytes, idle, m);
    IdleFlips(idle);
    var seen := Ones(5) + ([false] + rest);
    WalkReadsBack(line, START165, seen, Flip(idle), m, MINUS);
    assert START165.bits + seen == seen;
    Run165OneBitOver(line, START165, m);
    assert seen[..|seen| - 1] == Ones(5) + ([false] + rest)[..|rest|];
  }

  /** Exactly when a packet survives the 16.5 MHz receiver: its first byte does not start
      with five ones, or nothing but zeros follows them. */
  lemma RoundTrip165Exactly(bytes: seq<bv8>, idle: bv8)
    requires idle & LINE == STATE_J && |bytes| <= BUFSIZE
    ensures Run165(AfterSync(bytes, idle), START165) == Complete(Bits(bytes))
       <==> (bytes == [] || ClearLowBit(bytes[0]) || forall i :: 5 <= i < 8 * |bytes| ==> !Bits(bytes)[i])
  {
    hide Bits, AfterSync, Run165, ClearLowBit;
    if bytes == [] || ClearLowBit(bytes[0]) {
      RoundTrip165(bytes, idle);
    } else {
      var bits := Bits(bytes);
      var rest := bits[5..];
      FiveOnesFirst(bytes);
      assert bits == Ones(5) + rest;
      FiveOnesReceived(bytes, idle, rest);
      ShiftedByZero(rest);
      OnesPrefix(([false] + rest)[..|rest|], rest);
      assert forall i :: 5 <= i < |bits| ==> bits[i] == rest[i - 5];
      assert forall i :: 0 <= i < |rest| ==> rest[i] == bits[i + 5];
    }
  }

  lemma OnesPrefix(a: seq<bool>, b: seq<bool>)
    ensures Ones(5) + a == Ones(5) + b <==> a == b
  {
    if Ones(5) + a == Ones(5) + b {
      assert a == (Ones(5) + a)[5..] == (Ones(5) + b)[5..] == b;
    }
  }

  lemma FiveOnesFirst(bytes: seq<bv8>)
    requires bytes != [] && !ClearLowBit(bytes[0])
    ensures Bits(bytes)[..5] == Ones(5)
  {
    LowBitsSet(bytes[0]);
    FirstByteFirst(bytes);
    hide BitOf, Bits;
  }

  lemma LowBitsSet(b: bv8)
    requires !ClearLowBit(b)
    ensures BitOf(b, 0) && BitOf(b, 1) && BitOf(b, 2) && BitOf(b, 3) && BitOf(b, 4)
  {
  }
}
