/** The register-level NOEKEON of noekeon.S: 32 bytes of memory (16 of state, 16 of key)
    updated in place through the X pointer, one routine for both directions steered by
    bit 7 of the round counter. Every routine is proved to compute the word-level step
    of module Noekeon. */
module NoekeonAvr {
  import opened Avr
  import opened Noekeon
  import opened NoekeonBits

  // ------------------------------------------------------------- memory as words

  /** Little-endian word. */
  function Word(b0: bv8, b1: bv8, b2: bv8, b3: bv8): bv32 {
    (b0 as bv32) | ((b1 as bv32) << 8) | ((b2 as bv32) << 16) | ((b3 as bv32) << 24)
  }

  function WordAt(m: seq<bv8>, p: nat): bv32
    requires p + 4 <= |m|
  {
    Word(m[p], m[p + 1], m[p + 2], m[p + 3])
  }

  function BlockAt(m: seq<bv8>, p: nat): Block
    requires p + 16 <= |m|
  {
    Block(WordAt(m, p), WordAt(m, p + 4), WordAt(m, p + 8), WordAt(m, p + 12))
  }

  lemma WordXor(a0: bv8, a1: bv8, a2: bv8, a3: bv8, b0: bv8, b1: bv8, b2: bv8, b3: bv8)
    ensures Word(Eor(a0, b0), Eor(a1, b1), Eor(a2, b2), Eor(a3, b3))
         == Xor(Word(a0, a1, a2, a3), Word(b0, b1, b2, b3))
  {
  }

  lemma WordShiftLeft(b0: bv8, b1: bv8, b2: bv8, b3: bv8)
    ensures Word((b0 << 1) | (b3 >> 7), (b1 << 1) | (b0 >> 7), (b2 << 1) | (b1 >> 7), (b3 << 1) | (b2 >> 7))
         == LeftOne(Word(b0, b1, b2, b3))
  {
  }

  lemma WordShiftRight(b0: bv8, b1: bv8, b2: bv8, b3: bv8)
    ensures Word((b0 >> 1) | (b1 << 7), (b1 >> 1) | (b2 << 7), (b2 >> 1) | (b3 << 7), (b3 >> 1) | (b0 << 7))
         == RightOne(Word(b0, b1, b2, b3))
  {
  }

  /** rol through four registers, the top bit re-entering at the bottom. */
  lemma WordLeftOne(b0: bv8, b1: bv8, b2: bv8, b3: bv8)
    ensures Word(Rol(b0, Top(b3)), Rol(b1, Top(b0)), Rol(b2, Top(b1)), Rol(b3, Top(b2)))
         == LeftOne(Word(b0, b1, b2, b3))
  {
    hide Word, LeftOne;
    WordShiftLeft(b0, b1, b2, b3);
  }

  lemma RorLow(b: bv8, c: bv8)
    ensures Ror(b, Low(c)) == (b >> 1) | (c << 7)
  {
  }

  /** ror through four registers, the bottom bit re-entering at the top. */
  lemma WordRightOne(b0: bv8, b1: bv8, b2: bv8, b3: bv8)
    ensures Word(Ror(b0, Low(b1)), Ror(b1, Low(b2)), Ror(b2, Low(b3)), Ror(b3, Low(b0)))
         == RightOne(Word(b0, b1, b2, b3))
  {
    hide Word, RightOne, Ror, Low;
    WordShiftRight(b0, b1, b2, b3);
    RorLow(b0, b1);
    RorLow(b1, b2);
    RorLow(b2, b3);
    RorLow(b3, b0);
  }

  lemma ByteRotations(t0: bv8, t1: bv8, t2: bv8, t3: bv8)
    ensures RightEight(Word(t0, t1, t2, t3)) == Word(t1, t2, t3, t0)
    ensures LeftEight(Word(t0, t1, t2, t3)) == Word(t3, t0, t1, t2)
  {
  }

  function Parity(t0: bv8, t1: bv8, t2: bv8, t3: bv8): bv8 {
    t0 ^ t1 ^ t2 ^ t3
  }

  lemma ParityByte(t0: bv8, t1: bv8, t2: bv8, t3: bv8)
    ensures Eor(Eor(t0, t1), t3) == Eor(Parity(t0, t1, t2, t3), t2)
  {
  }

  lemma ParityRotates(t0: bv8, t1: bv8, t2: bv8, t3: bv8)
    ensures Parity(t1, t2, t3, t0) == Parity(t0, t1, t2, t3)
  {
  }

  /** The parity trick: byte i of Mix(t) is the xor of all four bytes of t with the byte
      two places further on. */
  lemma MixByParity(t0: bv8, t1: bv8, t2: bv8, t3: bv8, p: bv8)
    requires p == Parity(t0, t1, t2, t3)
    ensures Mix(Word(t0, t1, t2, t3)) == Word(Eor(p, t2), Eor(p, t3), Eor(p, t0), Eor(p, t1))
  {
    hide Word, Xor, RightEight, LeftEight, Eor, Parity;
    ByteRotations(t0, t1, t2, t3);
    WordXor(t0, t1, t2, t3, t1, t2, t3, t0);
    WordXor(Eor(t0, t1), Eor(t1, t2), Eor(t2, t3), Eor(t3, t0), t3, t0, t1, t2);
    ParityByte(t0, t1, t2, t3);
    ParityByte(t1, t2, t3, t0);
    ParityByte(t2, t3, t0, t1);
    ParityByte(t3, t0, t1, t2);
    ParityRotates(t0, t1, t2, t3);
    ParityRotates(t1, t2, t3, t0);
    ParityRotates(t2, t3, t0, t1);
  }

  // -------------------------------------------------------------- gamma, bytewise

  /** Byte i of each of the four words. */
  datatype Column = Column(a: bv8, b: bv8, c: bv8, d: bv8)

  function ColumnAt(m: seq<bv8>, i: nat): Column
    requires i < 4 && 16 <= |m|
  {
    Column(m[i], m[4 + i], m[8 + i], m[12 + i])
  }

  function FromColumns(x0: Column, x1: Column, x2: Column, x3: Column): Block {
    Block(Word(x0.a, x1.a, x2.a, x3.a), Word(x0.b, x1.b, x2.b, x3.b),
          Word(x0.c, x1.c, x2.c, x3.c), Word(x0.d, x1.d, x2.d, x3.d))
  }

  function ByteAnd(a: bv8, b: bv8): bv8 {
    a & b
  }

  function ByteNor(a: bv8, b: bv8): bv8 {
    !(a | b)
  }

  function StepColumn(x: Column): Column {
    var b := Eor(x.b, ByteNor(x.d, x.c));
    Column(Eor(x.a, ByteAnd(x.c, b)), b, x.c, x.d)
  }

  function SwapColumn(x: Column): Column {
    Column(x.d, x.b, Eor(x.c, Eor3(x.d, x.b, x.a)), x.a)
  }

  function GammaColumn(x: Column): Column {
    StepColumn(SwapColumn(StepColumn(x)))
  }

  function Eor3(a: bv8, b: bv8, c: bv8): bv8 {
    a ^ b ^ c
  }

  lemma Eor3AsEor(a: bv8, b: bv8, c: bv8)
    ensures Eor3(a, b, c) == Eor(Eor(a, b), c)
  {
  }

  lemma WordXor3(a0: bv8, a1: bv8, a2: bv8, a3: bv8, b0: bv8, b1: bv8, b2: bv8, b3: bv8,
                 c0: bv8, c1: bv8, c2: bv8, c3: bv8)
    ensures Word(Eor3(a0, b0, c0), Eor3(a1, b1, c1), Eor3(a2, b2, c2), Eor3(a3, b3, c3))
         == Xor3(Word(a0, a1, a2, a3), Word(b0, b1, b2, b3), Word(c0, c1, c2, c3))
  {
  }

  lemma WordAnd(a0: bv8, a1: bv8, a2: bv8, a3: bv8, b0: bv8, b1: bv8, b2: bv8, b3: bv8)
    ensures Word(ByteAnd(a0, b0), ByteAnd(a1, b1), ByteAnd(a2, b2), ByteAnd(a3, b3))
         == And(Word(a0, a1, a2, a3), Word(b0, b1, b2, b3))
  {
  }

  lemma WordNor(a0: bv8, a1: bv8, a2: bv8, a3: bv8, b0: bv8, b1: bv8, b2: bv8, b3: bv8)
    ensures Word(ByteNor(a0, b0), ByteNor(a1, b1), ByteNor(a2, b2), ByteNor(a3, b3))
         == Nor(Word(a0, a1, a2, a3), Word(b0, b1, b2, b3))
  {
  }

  lemma StepColumns(x0: Column, x1: Column, x2: Column, x3: Column)
    ensures FromColumns(StepColumn(x0), StepColumn(x1), StepColumn(x2), StepColumn(x3))
         == GammaStep(FromColumns(x0, x1, x2, x3))
  {
    hide Word, Eor, ByteAnd, ByteNor, Xor, And, Nor;
    WordNor(x0.d, x1.d, x2.d, x3.d, x0.c, x1.c, x2.c, x3.c);
    WordXor(x0.b, x1.b, x2.b, x3.b,
            ByteNor(x0.d, x0.c), ByteNor(x1.d, x1.c), ByteNor(x2.d, x2.c), ByteNor(x3.d, x3.c));
    var b0, b1, b2, b3 := StepColumn(x0).b, StepColumn(x1).b, StepColumn(x2).b, StepColumn(x3).b;
    WordAnd(x0.c, x1.c, x2.c, x3.c, b0, b1, b2, b3);
    WordXor(x0.a, x1.a, x2.a, x3.a,
            ByteAnd(x0.c, b0), ByteAnd(x1.c, b1), ByteAnd(x2.c, b2), ByteAnd(x3.c, b3));
  }

  lemma SwapColumns(x0: Column, x1: Column, x2: Column, x3: Column)
    ensures FromColumns(SwapColumn(x0), SwapColumn(x1), SwapColumn(x2), SwapColumn(x3))
         == GammaSwap(FromColumns(x0, x1, x2, x3))
  {
    hide Word, Eor, Eor3, Xor, Xor3;
    WordXor3(x0.d, x1.d, x2.d, x3.d, x0.b, x1.b, x2.b, x3.b, x0.a, x1.a, x2.a, x3.a);
    WordXor(x0.c, x1.c, x2.c, x3.c, Eor3(x0.d, x0.b, x0.a), Eor3(x1.d, x1.b, x1.a),
            Eor3(x2.d, x2.b, x2.a), Eor3(x3.d, x3.b, x3.a));
  }

  /** The byte-level substitution applied to every column is Gamma. */
  lemma GammaColumns(x0: Column, x1: Column, x2: Column, x3: Column)
    ensures FromColumns(GammaColumn(x0), GammaColumn(x1), GammaColumn(x2), GammaColumn(x3))
         == Gamma(FromColumns(x0, x1, x2, x3))
  {
    hide FromColumns, StepColumn, SwapColumn, GammaStep, GammaSwap;
    StepColumns(x0, x1, x2, x3);
    var y0, y1, y2, y3 := StepColumn(x0), StepColumn(x1), StepColumn(x2), StepColumn(x3);
    SwapColumns(y0, y1, y2, y3);
    StepColumns(SwapColumn(y0), SwapColumn(y1), SwapColumn(y2), SwapColumn(y3));
  }

  // ------------------------------------------------------------------- rotations

  /** The top bits that the shifted copy of a register still shares with it. */
  ghost predicate TopBitsAgree(s: bv8, copy: bv8, left: nat) {
    && (left >= 1 ==> Top(s) == Top(copy))
    && (left >= 2 ==> Top(s << 1) == Top(copy << 1))
    && (left >= 3 ==> Top(s << 2) == Top(copy << 2))
    && (left >= 4 ==> Top(s << 3) == Top(copy << 3))
    && (left >= 5 ==> Top(s << 4) == Top(copy << 4))
    && (left >= 6 ==> Top(s << 5) == Top(copy << 5))
    && (left >= 7 ==> Top(s << 6) == Top(copy << 6))
    && (left >= 8 ==> Top(s << 7) == Top(copy << 7))
  }

  ghost predicate LowBitsAgree(s: bv8, copy: bv8, left: nat) {
    && (left >= 1 ==> Low(s) == Low(copy))
    && (left >= 2 ==> Low(s >> 1) == Low(copy >> 1))
    && (left >= 3 ==> Low(s >> 2) == Low(copy >> 2))
    && (left >= 4 ==> Low(s >> 3) == Low(copy >> 3))
    && (left >= 5 ==> Low(s >> 4) == Low(copy >> 4))
    && (left >= 6 ==> Low(s >> 5) == Low(copy >> 5))
    && (left >= 7 ==> Low(s >> 6) == Low(copy >> 6))
    && (left >= 8 ==> Low(s >> 7) == Low(copy >> 7))
  }

  lemma TopBitsShift(s: bv8, copy: bv8, carry: bv8, left: nat)
    requires 1 <= left <= 8 && carry <= 1 && TopBitsAgree(s, copy, left)
    ensures Top(copy) == Top(s)
    ensures TopBitsAgree(Rol(s, carry), copy << 1, left - 1)
  {
  }

  lemma LowBitsShift(s: bv8, copy: bv8, carry: bv8, left: nat)
    requires 1 <= left <= 8 && carry <= 1 && LowBitsAgree(s, copy, left)
    ensures Low(copy) == Low(s)
    ensures LowBitsAgree(Ror(s, carry), copy >> 1, left - 1)
  {
  }

  lemma CarryIsBit(b: bv8)
    ensures Top(b) <= 1 && Low(b) <= 1
  {
  }

  lemma BitsAgreeWithSelf(s: bv8)
    ensures TopBitsAgree(s, s, 8) && LowBitsAgree(s, s, 8)
  {
  }

  /** Rotates the word at X left by temp1 + 1 bits and leaves X behind it. */
  method ShiftLeft(mem: array<bv8>, x: nat, temp1: nat) returns (x': nat)
    requires x + 4 <= mem.Length && temp1 <= 7
    modifies mem
    ensures x' == x + 4
    ensures WordAt(mem[..], x) == RotateLeft(old(WordAt(mem[..], x)), temp1 + 1)
    ensures forall i :: 0 <= i < mem.Length && !(x <= i < x + 4) ==> mem[i] == old(mem[i])
  {
    hide Word, LeftOne, Rol, Top, TopBitsAgree;
    var s0, s1, s2, s3 := mem[x], mem[x + 1], mem[x + 2], mem[x + 3];
    var temp2 := s3;
    var count := temp1;
    ghost var done := 0;
    BitsAgreeWithSelf(s3);
    while true
      invariant 0 <= done <= temp1 && count == temp1 - done
      invariant Word(s0, s1, s2, s3) == RotateLeft(old(WordAt(mem[..], x)), done)
      invariant TopBitsAgree(s3, temp2, 8 - done)
      invariant forall i :: 0 <= i < mem.Length ==> mem[i] == old(mem[i])
      decreases temp1 - done
    {
      CarryIsBit(s2);
      TopBitsShift(s3, temp2, Top(s2), 8 - done);
      WordLeftOne(s0, s1, s2, s3);
      var carry := Top(temp2);
      temp2 := temp2 << 1;
      s0, s1, s2, s3 := Rol(s0, carry), Rol(s1, Top(s0)), Rol(s2, Top(s1)), Rol(s3, Top(s2));
      count := Sub8(count, 1);
      if count >= 128 {
        break;
      }
      done := done + 1;
    }
    x' := StoreWord(mem, x, s0, s1, s2, s3);
  }

  /** Rotates the word at X right by temp1 + 1 bits and leaves X behind it. */
  method ShiftRight(mem: array<bv8>, x: nat, temp1: nat) returns (x': nat)
    requires x + 4 <= mem.Length && temp1 <= 7
    modifies mem
    ensures x' == x + 4
    ensures WordAt(mem[..], x) == RotateRight(old(WordAt(mem[..], x)), temp1 + 1)
    ensures forall i :: 0 <= i < mem.Length && !(x <= i < x + 4) ==> mem[i] == old(mem[i])
  {
    hide Word, RightOne, Ror, Low, LowBitsAgree;
    var s0, s1, s2, s3 := mem[x], mem[x + 1], mem[x + 2], mem[x + 3];
    var temp2 := s0;
    var count := temp1;
    ghost var done := 0;
    BitsAgreeWithSelf(s0);
    while true
      invariant 0 <= done <= temp1 && count == temp1 - done
      invariant Word(s0, s1, s2, s3) == RotateRight(old(WordAt(mem[..], x)), done)
      invariant LowBitsAgree(s0, temp2, 8 - done)
      invariant forall i :: 0 <= i < mem.Length ==> mem[i] == old(mem[i])
      decreases temp1 - done
    {
      CarryIsBit(s1);
      LowBitsShift(s0, temp2, Low(s1), 8 - done);
      WordRightOne(s0, s1, s2, s3);
      var carry := Low(temp2);
      temp2 := temp2 >> 1;
      s3, s2, s1, s0 := Ror(s3, carry), Ror(s2, Low(s3)), Ror(s1, Low(s2)), Ror(s0, Low(s1));
      count := Sub8(count, 1);
      if count >= 128 {
        break;
      }
      done := done + 1;
    }
    x' := StoreWord(mem, x, s0, s1, s2, s3);
  }

  /** reg_2_ram_word0 */
  method StoreWord(mem: array<bv8>, x: nat, s0: bv8, s1: bv8, s2: bv8, s3: bv8) returns (x': nat)
    requires x + 4 <= mem.Length
    modifies mem
    ensures x' == x + 4
    ensures mem[x] == s0 && mem[x + 1] == s1 && mem[x + 2] == s2 && mem[x + 3] == s3
    ensures forall i :: 0 <= i < mem.Length && !(x <= i < x + 4) ==> mem[i] == old(mem[i])
  {
    mem[x] := s0;
    mem[x + 1] := s1;
    mem[x + 2] := s2;
    mem[x + 3] := s3;
    x' := x + 4;
  }

  /** noekeon_shift_pi1 */
  method ShiftPi1(mem: array<bv8>)
    requires mem.Length == 32
    modifies mem
    ensures BlockAt(mem[..], 0) == Pi1(old(BlockAt(mem[..], 0)))
    ensures mem[16..] == old(mem[16..])
  {
    hide Word, RotateLeft;
    var x := 4;
    x := ShiftLeft(mem, x, 0);
    x := ShiftLeft(mem, x, 4);
    x := ShiftLeft(mem, x, 1);
  }

  /** noekeon_shift_pi2 */
  method ShiftPi2(mem: array<bv8>)
    requires mem.Length == 32
    modifies mem
    ensures BlockAt(mem[..], 0) == Pi2(old(BlockAt(mem[..], 0)))
    ensures mem[16..] == old(mem[16..])
  {
    hide Word, RotateRight;
    var x := 4;
    x := ShiftRight(mem, x, 0);
    x := ShiftRight(mem, x, 4);
    x := ShiftRight(mem, x, 1);
  }

  // -------------------------------------------------------------------- gamma

  lemma NorCommutes(c: bv8, d: bv8)
    ensures !(c | d) == ByteNor(d, c)
  {
  }

  /** noekeon_gamma_non_linear_byte on the registers state_0 .. state_3 */
  method GammaNonLinearByte(s0: bv8, s1: bv8, s2: bv8, s3: bv8) returns (r0: bv8, r1: bv8)
    ensures Column(r0, r1, s2, s3) == StepColumn(Column(s0, s1, s2, s3))
  {
    hide Eor, ByteNor, ByteAnd;
    NorCommutes(s2, s3);
    var temp1 := s2;
    temp1 := temp1 | s3;
    temp1 := !temp1;
    r1 := Eor(s1, temp1);
    temp1 := s2;
    temp1 := ByteAnd(temp1, r1);
    r0 := Eor(s0, temp1);
  }

  /** noekeon_gamma_byte: X walks the four words of one column and ends on the next. */
  method GammaByte(mem: array<bv8>, x: nat) returns (x': nat)
    requires mem.Length == 32 && 4 <= x < 8
    modifies mem
    ensures x' == x + 1
    ensures ColumnAt(mem[..], x - 4) == GammaColumn(old(ColumnAt(mem[..], x - 4)))
    ensures forall i :: 0 <= i < 32 && (i >= 16 || i % 4 != x - 4) ==> mem[i] == old(mem[i])
  {
    hide StepColumn, Eor, Eor3;
    var s1 := mem[x];
    x' := x + 8;
    var s3 := mem[x'];
    x' := x' - 4;
    var s2 := mem[x'];
    x' := x' - 8;
    var s0 := mem[x'];
    s0, s1 := GammaNonLinearByte(s0, s1, s2, s3);
    var temp1 := s3;
    s3 := s0;
    s0 := temp1;
    Eor3AsEor(temp1, s1, s3);
    temp1 := Eor(temp1, s1);
    temp1 := Eor(temp1, s3);
    s2 := Eor(s2, temp1);
    s0, s1 := GammaNonLinearByte(s0, s1, s2, s3);
    mem[x'] := s0;
    x' := x' + 12;
    mem[x'] := s3;
    x' := x' - 4;
    mem[x'] := s2;
    x' := x' - 4;
    mem[x'] := s1;
    x' := x' + 1;
  }

  /** noekeon_gamma */
  method GammaInPlace(mem: array<bv8>)
    requires mem.Length == 32
    modifies mem
    ensures BlockAt(mem[..], 0) == Gamma(old(BlockAt(mem[..], 0)))
    ensures mem[16..] == old(mem[16..])
  {
    hide Word, GammaColumn, Gamma;
    GammaColumns(ColumnAt(mem[..], 0), ColumnAt(mem[..], 1), ColumnAt(mem[..], 2), ColumnAt(mem[..], 3));
    var x := 4;
    x := GammaByte(mem, x);
    x := GammaByte(mem, x);
    x := GammaByte(mem, x);
    x := GammaByte(mem, x);
  }

  // --------------------------------------------------------------------- theta

  /** noekeon_theta_apply_xor: one byte of the mixed word, built from the two source words
      at pointer state1, is xored into the two target words at pointer state0. */
  method ThetaApplyXor(mem: array<bv8>, temp1: bv8, state0: nat, state1: nat)
      returns (state0': nat, state1': nat)
    requires mem.Length == 32 && state0 < 8 && state1 < 8 && state0 / 4 != state1 / 4
    modifies mem
    ensures state0' == state0 + 1 && state1' == state1 + 1
    ensures var m := Eor(Eor(old(mem[state1]), temp1), old(mem[state1 + 8]));
      mem[state0] == Eor(old(mem[state0]), m) && mem[state0 + 8] == Eor(old(mem[state0 + 8]), m)
    ensures forall i :: 0 <= i < 32 && i != state0 && i != state0 + 8 ==> mem[i] == old(mem[i])
  {
    hide Eor;
    var x := state1;
    state1' := state1 + 1;
    var s2 := mem[x];
    x := x + 1;
    x := x + 7;
    var s3 := mem[x];
    s2 := Eor(s2, temp1);
    s2 := Eor(s2, s3);
    x := state0;
    s3 := mem[x];
    s3 := Eor(s3, s2);
    mem[x] := s3;
    x := x + 8;
    s3 := mem[x];
    s3 := Eor(s3, s2);
    mem[x] := s3;
    x := x - 7;
    state0' := x;
  }

  /** noekeon_theta_apply_xor_and_shift_load: folds the four bytes at X into temp1. */
  method ThetaLoad(mem: array<bv8>, temp1: bv8, x: nat) returns (temp1': bv8, x': nat)
    requires x + 4 <= mem.Length
    ensures x' == x + 4
    ensures temp1' == Eor(Eor(Eor(Eor(temp1, mem[x]), mem[x + 1]), mem[x + 2]), mem[x + 3])
  {
    hide Eor;
    var s2, s3 := mem[x], mem[x + 1];
    temp1' := Eor(temp1, s2);
    temp1' := Eor(temp1', s3);
    s2, s3 := mem[x + 2], mem[x + 3];
    temp1' := Eor(temp1', s2);
    temp1' := Eor(temp1', s3);
    x' := x + 4;
  }

  /** The eight loads leave the parity of the xor of the two source words. */
  lemma LoadedParity(a0: bv8, a1: bv8, a2: bv8, a3: bv8, c0: bv8, c1: bv8, c2: bv8, c3: bv8)
    ensures Eor(Eor(Eor(Eor(Eor(Eor(Eor(Eor(0, a0), a1), a2), a3), c0), c1), c2), c3)
         == Parity(Eor(a0, c0), Eor(a1, c1), Eor(a2, c2), Eor(a3, c3))
  {
  }

  lemma EorMiddle(a: bv8, p: bv8, c: bv8)
    ensures Eor(Eor(a, p), c) == Eor(p, Eor(a, c))
  {
  }

  /** What the four xor steps leave in a target word b, for source words a and c. */
  lemma ThetaWord(a0: bv8, a1: bv8, a2: bv8, a3: bv8, c0: bv8, c1: bv8, c2: bv8, c3: bv8,
                  b0: bv8, b1: bv8, b2: bv8, b3: bv8, p: bv8)
    requires p == Parity(Eor(a0, c0), Eor(a1, c1), Eor(a2, c2), Eor(a3, c3))
    ensures Word(Eor(b0, Eor(Eor(a2, p), c2)), Eor(b1, Eor(Eor(a3, p), c3)),
                 Eor(b2, Eor(Eor(a0, p), c0)), Eor(b3, Eor(Eor(a1, p), c1)))
         == Xor(Word(b0, b1, b2, b3), Mix(Xor(Word(a0, a1, a2, a3), Word(c0, c1, c2, c3))))
  {
    hide Word, Xor, Mix, Eor, Parity;
    EorMiddle(a0, p, c0);
    EorMiddle(a1, p, c1);
    EorMiddle(a2, p, c2);
    EorMiddle(a3, p, c3);
    var t0, t1, t2, t3 := Eor(a0, c0), Eor(a1, c1), Eor(a2, c2), Eor(a3, c3);
    WordXor(a0, a1, a2, a3, c0, c1, c2, c3);
    MixByParity(t0, t1, t2, t3, p);
    WordXor(b0, b1, b2, b3, Eor(p, t2), Eor(p, t3), Eor(p, t0), Eor(p, t1));
  }

  /** noekeon_theta_apply_xor_and_shift: the source words start at X and X + 8, the target
      words at state0 and state0 + 8. */
  method ThetaApply(mem: array<bv8>, xStart: nat, state0Start: nat)
    requires mem.Length == 32
    requires (xStart == 0 && state0Start == 4) || (xStart == 4 && state0Start == 0)
    modifies mem
    ensures var t := Mix(Xor(old(WordAt(mem[..], xStart)), old(WordAt(mem[..], xStart + 8))));
      && WordAt(mem[..], state0Start) == Xor(old(WordAt(mem[..], state0Start)), t)
      && WordAt(mem[..], state0Start + 8) == Xor(old(WordAt(mem[..], state0Start + 8)), t)
    ensures forall i :: xStart <= i < xStart + 4 ==> mem[i] == old(mem[i])
    ensures forall i :: xStart + 8 <= i < xStart + 12 ==> mem[i] == old(mem[i])
    ensures mem[16..] == old(mem[16..])
  {
    hide Word, Xor, Mix, Eor, Parity;
    var x, state0 := xStart, state0Start;
    ghost var a0, a1, a2, a3 := mem[x], mem[x + 1], mem[x + 2], mem[x + 3];
    ghost var c0, c1, c2, c3 := mem[x + 8], mem[x + 9], mem[x + 10], mem[x + 11];
    LoadedParity(a0, a1, a2, a3, c0, c1, c2, c3);
    var temp1: bv8 := 0;
    temp1, x := ThetaLoad(mem, temp1, x);
    x := x + 4;
    temp1, x := ThetaLoad(mem, temp1, x);
    ThetaWord(a0, a1, a2, a3, c0, c1, c2, c3, mem[state0], mem[state0 + 1], mem[state0 + 2], mem[state0 + 3], temp1);
    ThetaWord(a0, a1, a2, a3, c0, c1, c2, c3,
              mem[state0 + 8], mem[state0 + 9], mem[state0 + 10], mem[state0 + 11], temp1);
    x := x - 10;
    var state1 := x;
    state0, state1 := ThetaApplyXor(mem, temp1, state0, state1);
    state0, state1 := ThetaApplyXor(mem, temp1, state0, state1);
    state1 := state1 - 4;
    state0, state1 := ThetaApplyXor(mem, temp1, state0, state1);
    state0, state1 := ThetaApplyXor(mem, temp1, state0, state1);
  }

  predicate IsDecryption(roundCounter: nat) {
    roundCounter / 128 % 2 == 1
  }

  /** noekeon_theta_part1 */
  method ThetaPart1(mem: array<bv8>)
    requires mem.Length == 32
    modifies mem
    ensures BlockAt(mem[..], 0) == ThetaEven(old(BlockAt(mem[..], 0)))
    ensures mem[16..] == old(mem[16..])
  {
    hide Word, Xor, Mix;
    ThetaApply(mem, 0, 4);
  }

  /** noekeon_theta_part3 */
  method ThetaPart3(mem: array<bv8>)
    requires mem.Length == 32
    modifies mem
    ensures BlockAt(mem[..], 0) == ThetaOdd(old(BlockAt(mem[..], 0)))
    ensures mem[16..] == old(mem[16..])
  {
    hide Word, Xor, Mix;
    ThetaApply(mem, 4, 0);
  }

  /** noekeon_theta_xor_key: X enters on a key byte and leaves on the next. */
  method ThetaXorKey(mem: array<bv8>, x: nat) returns (x': nat)
    requires mem.Length == 32 && 16 <= x < 32
    modifies mem
    ensures x' == x + 1
    ensures mem[x - 16] == Eor(old(mem[x - 16]), old(mem[x]))
    ensures forall i :: 0 <= i < 32 && i != x - 16 ==> mem[i] == old(mem[i])
  {
    hide Eor;
    var s3 := mem[x];
    x' := x - 16;
    var s2 := mem[x'];
    s2 := Eor(s2, s3);
    mem[x'] := s2;
    x' := x' + 1;
    x' := x' + 16;
  }

  lemma KeyXored(m: seq<bv8>, m': seq<bv8>)
    requires |m| == |m'| == 32
    requires forall i :: 0 <= i < 16 ==> m'[i] == Eor(m[i], m[i + 16])
    ensures BlockAt(m', 0) == AddKey(BlockAt(m, 0), BlockAt(m, 16))
  {
    hide Word, Xor, Eor;
    WordXor(m[0], m[1], m[2], m[3], m[16], m[17], m[18], m[19]);
    WordXor(m[4], m[5], m[6], m[7], m[20], m[21], m[22], m[23]);
    WordXor(m[8], m[9], m[10], m[11], m[24], m[25], m[26], m[27]);
    WordXor(m[12], m[13], m[14], m[15], m[28], m[29], m[30], m[31]);
  }

  /** noekeon_theta_part2: sixteen passes counted down through zero. */
  method ThetaPart2(mem: array<bv8>)
    requires mem.Length == 32
    modifies mem
    ensures BlockAt(mem[..], 0) == AddKey(old(BlockAt(mem[..], 0)), old(BlockAt(mem[..], 16)))
    ensures mem[16..] == old(mem[16..])
  {
    hide Eor, Word;
    var x := 16;
    var temp1 := 15;
    while true
      invariant 0 <= temp1 <= 15 && x == 31 - temp1
      invariant forall i :: 0 <= i < x - 16 ==> mem[i] == Eor(old(mem[i]), old(mem[i + 16]))
      invariant forall i :: x - 16 <= i < 32 ==> mem[i] == old(mem[i])
      decreases temp1
    {
      x := ThetaXorKey(mem, x);
      temp1 := Sub8(temp1, 1);
      if temp1 >= 128 {
        break;
      }
    }
    KeyXored(old(mem[..]), mem[..]);
  }

  datatype ThetaLabel = Part1 | Part2 | Part3

  /** Theta with some of its three parts still to run. */
  ghost function PartwayTheta(s: Block, k: Block, decrypting: bool, left: nat): Block {
    var first := if decrypting then ThetaOdd(s) else ThetaEven(s);
    if left >= 2 then s else if left == 1 then first else AddKey(first, k)
  }

  /** noekeon_theta_encrypt (entry Part1) and noekeon_theta_decrypt (entry Part3): one chain
      of three parts, run forwards or backwards as bit 7 of the round counter says. */
  method ThetaInPlace(mem: array<bv8>, entry: ThetaLabel, roundCounter: nat)
    requires mem.Length == 32
    requires entry == if IsDecryption(roundCounter) then Part3 else Part1
    modifies mem
    ensures BlockAt(mem[..], 0) == (if IsDecryption(roundCounter)
              then ThetaInverse(old(BlockAt(mem[..], 0)), old(BlockAt(mem[..], 16)))
              else Theta(old(BlockAt(mem[..], 0)), old(BlockAt(mem[..], 16))))
    ensures mem[16..] == old(mem[16..])
  {
    hide Word, ThetaEven, ThetaOdd, AddKey;
    ghost var s, k := BlockAt(mem[..], 0), BlockAt(mem[..], 16);
    var label' := entry;
    ghost var steps := 2;
    while true
      invariant mem[16..] == old(mem[16..])
      invariant 0 <= steps <= 2
      invariant steps == (match label'
                case Part1 => if IsDecryption(roundCounter) then 0 else 2
                case Part2 => 1
                case Part3 => if IsDecryption(roundCounter) then 2 else 0)
      invariant BlockAt(mem[..], 0) == PartwayTheta(s, k, IsDecryption(roundCounter), steps)
      decreases steps
    {
      assert BlockAt(mem[..], 16) == k by {
        KeyUnchanged(old(mem[..]), mem[..]);
      }
      match label' {
        case Part1 =>
          ThetaPart1(mem);
          if IsDecryption(roundCounter) {
            return;
          }
          label' := Part2;
        case Part2 =>
          ThetaPart2(mem);
          label' := if IsDecryption(roundCounter) then Part1 else Part3;
        case Part3 =>
          ThetaPart3(mem);
          if !IsDecryption(roundCounter) {
            return;
          }
          label' := Part2;
      }
      steps := steps - 1;
    }
  }

  lemma KeyUnchanged(m: seq<bv8>, m': seq<bv8>)
    requires |m| == |m'| == 32 && m'[16..] == m[16..]
    ensures BlockAt(m', 16) == BlockAt(m, 16)
  {
    assert forall i :: 16 <= i < 32 ==> m'[i] == m'[16..][i - 16] == m[16..][i - 16] == m[i];
  }

  lemma ConstIntoLowByte(b0: bv8, b1: bv8, b2: bv8, b3: bv8, rc: bv8)
    ensures Word(Eor(b0, rc), b1, b2, b3) == Xor(Word(b0, b1, b2, b3), rc as bv32)
  {
  }

  /** noekeon_round_const_add */
  method RoundConstAdd(mem: array<bv8>, roundConst: bv8)
    requires mem.Length == 32
    modifies mem
    ensures BlockAt(mem[..], 0) == AddConst(old(BlockAt(mem[..], 0)), roundConst)
    ensures mem[16..] == old(mem[16..])
  {
    hide Word, Xor, Eor;
    ConstIntoLowByte(mem[0], mem[1], mem[2], mem[3], roundConst);
    var s0 := mem[0];
    s0 := Eor(s0, roundConst);
    mem[0] := s0;
  }

  /** From noekeon_shift_pi1 on: the tail shared by the two round functions. */
  method NonLinearInPlace(mem: array<bv8>)
    requires mem.Length == 32
    modifies mem
    ensures BlockAt(mem[..], 0) == NonLinear(old(BlockAt(mem[..], 0)))
    ensures mem[16..] == old(mem[16..])
  {
    hide Word, Pi1, Pi2, Gamma;
    ShiftPi1(mem);
    GammaInPlace(mem);
    ShiftPi2(mem);
  }

  // ------------------------------------------------------------- memory as bits

  /** Bit j of word w of the sixteen bytes at p. */
  function MemoryRows(m: seq<bv8>, p: nat): Rows
    requires p + 16 <= |m|
  {
    (w: nat, j: nat) => w < 4 && j < 32 && BitOf(m[p + 4 * w + j / 8], j % 8)
  }

  function LowMask(j: nat): (m: bv32)
    requires j < 8
    ensures m <= 0x80
  {
    if j == 0 then 1 else if j == 1 then 2 else if j == 2 then 4 else if j == 3 then 8
    else if j == 4 then 0x10 else if j == 5 then 0x20 else if j == 6 then 0x40 else 0x80
  }

  lemma MaskMoves(v: bv32, m: bv32)
    requires m <= 0x80
    ensures (RightOne(v) & m != 0) <==> (v & (m << 1) != 0)
  {
  }

  lemma MaskDoubles(j: nat)
    requires 0 < j < 8
    ensures LowMask(j - 1) << 1 == LowMask(j)
  {
  }

  lemma {:induction false} BitByMask(w: bv32, n: nat, j: nat)
    requires j < 8
    ensures Bit(w, n + j) <==> RotateRight(w, n) & LowMask(j) != 0
    decreases j
  {
    hide RightOne, LowMask;
    if j == 0 {
      FirstMask();
    } else {
      BitByMask(w, n + 1, j - 1);
      MaskMoves(RotateRight(w, n), LowMask(j - 1));
      MaskDoubles(j);
    }
  }

  lemma FirstMask()
    ensures LowMask(0) == 1
  {
  }

  lemma LowByteMasks(b0: bv8, b1: bv8, b2: bv8, b3: bv8)
    ensures forall j :: 0 <= j < 8 ==> ((Word(b0, b1, b2, b3) & LowMask(j) != 0) <==> BitOf(b0, j))
  {
  }

  /** The bits of a word are those of its bytes, low byte first. */
  lemma {:induction false} WordBits(b0: bv8, b1: bv8, b2: bv8, b3: bv8, j: nat)
    requires j < 32
    ensures Bit(Word(b0, b1, b2, b3), j) <==>
      BitOf(if j < 8 then b0 else if j < 16 then b1 else if j < 24 then b2 else b3, j % 8)
    decreases j
  {
    hide Word, LowMask, Bit, BitOf, RightEight;
    if j < 8 {
      BitByMask(Word(b0, b1, b2, b3), 0, j);
      LowByteMasks(b0, b1, b2, b3);
    } else {
      WordBits(b1, b2, b3, b0, j - 8);
      ByteRotations(b0, b1, b2, b3);
      RotateEight(Word(b0, b1, b2, b3));
      BitRotated(Word(b0, b1, b2, b3), 8, j - 8);
    }
  }

  lemma MemoryIsRows(m: seq<bv8>, p: nat)
    requires p + 16 <= |m|
    ensures SameRows(MemoryRows(m, p), RowsOf(BlockAt(m, p)))
  {
    hide Word, Bit, BitOf, RowsOf;
    forall w, j | 0 <= w < 4 && 0 <= j < 32
      ensures MemoryRows(m, p)(w, j) == RowsOf(BlockAt(m, p))(w, j)
    {
      var a := p + 4 * w;
      WordBits(m[a], m[a + 1], m[a + 2], m[a + 3], j);
      RowsAt(BlockAt(m, p), w, j);
    }
  }

  lemma ByteAsWord(rc: bv8)
    ensures rc as bv32 == Word(rc, 0, 0, 0)
  {
  }

  lemma NoBits(j: nat)
    requires j < 8
    ensures !BitOf(0, j)
  {
  }

  lemma ConstRows(s: Block, rc: bv8)
    ensures SameRows(RowsOf(AddConst(s, rc)), ConstAdded(RowsOf(s), rc))
  {
    hide Word, Bit, BitOf, RowsOf, Xor;
    forall w, j | 0 <= w < 4 && 0 <= j < 32
      ensures RowsOf(AddConst(s, rc))(w, j) == ConstAdded(RowsOf(s), rc)(w, j)
    {
      RowsAt(AddConst(s, rc), w, j);
      RowsAt(s, w, j);
      ByteAsWord(rc);
      WordBits(rc, 0, 0, 0, j);
      NoBits(j % 8);
      BitwiseAt(s.w0, rc as bv32, j);
    }
  }

  /** What a round does to the bits in memory: the linear layer mixes them, and everywhere four of
      them go through the table. */
  lemma EncryptionRoundBits(m: seq<bv8>, m': seq<bv8>, rc: bv8)
    requires |m| == |m'| == 32
    requires BlockAt(m', 0) == NonLinear(EncryptLinear(BlockAt(m, 0), BlockAt(m, 16), rc))
    ensures Substituted(EncryptionMixes(MemoryRows(m, 0), MemoryRows(m, 16), rc), MemoryRows(m', 0))
  {
    hide BlockAt, MemoryRows, RowsOf, SameRows, Substituted, EncryptionMixes, EncryptLinear, NonLinear;
    var s, k := BlockAt(m, 0), BlockAt(m, 16);
    MemoryIsRows(m, 0);
    MemoryIsRows(m, 16);
    ConstRows(s, rc);
    var x := EncryptionMixes(MemoryRows(m, 0), MemoryRows(m, 16), rc);
    EncryptLinearMixes(MemoryRows(m, 0), MemoryRows(m, 16), s, k, rc);
    NonLinearSubstitutes(EncryptLinear(s, k, rc));
    Turn(x, RowsOf(EncryptLinear(s, k, rc)));
    MemoryIsRows(m', 0);
    Turn(MemoryRows(m', 0), RowsOf(BlockAt(m', 0)));
    SubstitutedSame(RowsOf(EncryptLinear(s, k, rc)), x, RowsOf(BlockAt(m', 0)), MemoryRows(m', 0));
  }

  lemma DecryptionRoundBits(m: seq<bv8>, m': seq<bv8>, rc: bv8)
    requires |m| == |m'| == 32
    requires BlockAt(m', 0) == NonLinear(DecryptLinear(BlockAt(m, 0), BlockAt(m, 16), rc))
    ensures Substituted(DecryptionMixes(MemoryRows(m, 0), MemoryRows(m, 16), rc), MemoryRows(m', 0))
  {
    hide BlockAt, MemoryRows, RowsOf, SameRows, Substituted, DecryptionMixes, DecryptLinear, NonLinear, ThetaInverse;
    var s, k := BlockAt(m, 0), BlockAt(m, 16);
    MemoryIsRows(m, 0);
    MemoryIsRows(m, 16);
    ConstRows(ThetaInverse(s, k), rc);
    var x := DecryptionMixes(MemoryRows(m, 0), MemoryRows(m, 16), rc);
    DecryptLinearMixes(MemoryRows(m, 0), MemoryRows(m, 16), s, k, rc);
    NonLinearSubstitutes(DecryptLinear(s, k, rc));
    Turn(x, RowsOf(DecryptLinear(s, k, rc)));
    MemoryIsRows(m', 0);
    Turn(MemoryRows(m', 0), RowsOf(BlockAt(m', 0)));
    SubstitutedSame(RowsOf(DecryptLinear(s, k, rc)), x, RowsOf(BlockAt(m', 0)), MemoryRows(m', 0));
  }

  /** noekeon_round_function_encrypt */
  method RoundEncrypt(mem: array<bv8>, roundConst: bv8, roundCounter: nat)
    requires mem.Length == 32 && !IsDecryption(roundCounter)
    modifies mem
    ensures BlockAt(mem[..], 0)
         == NonLinear(EncryptLinear(old(BlockAt(mem[..], 0)), old(BlockAt(mem[..], 16)), roundConst))
    ensures Substituted(EncryptionMixes(MemoryRows(old(mem[..]), 0), MemoryRows(old(mem[..]), 16), roundConst),
                        MemoryRows(mem[..], 0))
    ensures mem[16..] == old(mem[16..])
  {
    hide BlockAt, AddConst, Theta, ThetaInverse, NonLinear, Substituted, EncryptionMixes, MemoryRows;
    RoundConstAdd(mem, roundConst);
    KeyUnchanged(old(mem[..]), mem[..]);
    ThetaInPlace(mem, Part1, roundCounter);
    NonLinearInPlace(mem);
    EncryptionRoundBits(old(mem[..]), mem[..], roundConst);
  }

  /** noekeon_round_function_decrypt */
  method RoundDecrypt(mem: array<bv8>, roundConst: bv8, roundCounter: nat)
    requires mem.Length == 32 && IsDecryption(roundCounter)
    modifies mem
    ensures BlockAt(mem[..], 0)
         == NonLinear(DecryptLinear(old(BlockAt(mem[..], 0)), old(BlockAt(mem[..], 16)), roundConst))
    ensures Substituted(DecryptionMixes(MemoryRows(old(mem[..]), 0), MemoryRows(old(mem[..]), 16), roundConst),
                        MemoryRows(mem[..], 0))
    ensures mem[16..] == old(mem[16..])
  {
    hide BlockAt, AddConst, Theta, ThetaInverse, NonLinear, Substituted, DecryptionMixes, MemoryRows;
    ThetaInPlace(mem, Part3, roundCounter);
    RoundConstAdd(mem, roundConst);
    NonLinearInPlace(mem);
    DecryptionRoundBits(old(mem[..]), mem[..], roundConst);
  }

  lemma NextConstByCarry(rc: bv8)
    ensures NextConst(rc) == if Top(rc) != 0 then Eor(rc << 1, 0x1B) else rc << 1
    ensures PreviousConst(rc) == if Low(rc) != 0 then Eor(rc >> 1, 0x8D) else rc >> 1
  {
  }

  /** encrypt: memory holds plaintext and key on entry, ciphertext and the same key on exit. */
  method EncryptInPlace(mem: array<bv8>)
    requires mem.Length == 32
    modifies mem
    ensures BlockAt(mem[..], 0) == Encrypt(old(BlockAt(mem[..], 0)), old(BlockAt(mem[..], 16)))
    ensures mem[16..] == old(mem[16..])
  {
    hide BlockAt, AddConst, Theta, ThetaInverse, NonLinear, NextConst, PreviousConst, Eor, Top, Low;
    ghost var s, k := BlockAt(mem[..], 0), BlockAt(mem[..], 16);
    var roundCounter := 0;
    var roundConst := FIRST_CONST;
    while true
      invariant 0 <= roundCounter < 16
      invariant roundConst == ConstAt(roundCounter)
      invariant BlockAt(mem[..], 0) == EncryptRounds(s, k, roundCounter)
      invariant mem[16..] == old(mem[16..])
      decreases 16 - roundCounter
    {
      KeyUnchanged(old(mem[..]), mem[..]);
      RoundEncrypt(mem, roundConst, roundCounter);
      NextConstByCarry(roundConst);
      var carry := Top(roundConst);
      roundConst := roundConst << 1;
      if carry != 0 {
        roundConst := Eor(roundConst, 0x1B);
      }
      roundCounter := Add8(roundCounter, 1);
      if roundCounter / 16 % 2 == 1 {
        break;
      }
    }
    RoundConstAdd(mem, roundConst);
    KeyUnchanged(old(mem[..]), mem[..]);
    ThetaInPlace(mem, Part1, roundCounter);
  }

  /** decrypt: memory holds ciphertext and key on entry, plaintext and the same key on exit. */
  method DecryptInPlace(mem: array<bv8>)
    requires mem.Length == 32
    modifies mem
    ensures BlockAt(mem[..], 0) == Decrypt(old(BlockAt(mem[..], 0)), old(BlockAt(mem[..], 16)))
    ensures mem[16..] == old(mem[16..])
  {
    hide BlockAt, AddConst, Theta, ThetaInverse, NonLinear, NextConst, PreviousConst, Eor, Top, Low;
    ghost var s, k := BlockAt(mem[..], 0), BlockAt(mem[..], 16);
    var roundCounter := 0x80;
    var roundConst := LAST_CONST;
    while true
      invariant 0x80 <= roundCounter < 0x90
      invariant roundConst == ConstBack(roundCounter - 0x80)
      invariant BlockAt(mem[..], 0) == DecryptRounds(s, k, roundCounter - 0x80)
      invariant mem[16..] == old(mem[16..])
      decreases 0x90 - roundCounter
    {
      KeyUnchanged(old(mem[..]), mem[..]);
      RoundDecrypt(mem, roundConst, roundCounter);
      NextConstByCarry(roundConst);
      var carry := Low(roundConst);
      roundConst := roundConst >> 1;
      if carry != 0 {
        roundConst := Eor(roundConst, 0x8D);
      }
      roundCounter := Add8(roundCounter, 1);
      if roundCounter / 16 % 2 == 1 {
        break;
      }
    }
    KeyUnchanged(old(mem[..]), mem[..]);
    ThetaInPlace(mem, Part3, roundCounter);
    RoundConstAdd(mem, roundConst);
  }

  lemma WordDetermines(a0: bv8, a1: bv8, a2: bv8, a3: bv8, b0: bv8, b1: bv8, b2: bv8, b3: bv8)
    requires Word(a0, a1, a2, a3) == Word(b0, b1, b2, b3)
    ensures a0 == b0 && a1 == b1 && a2 == b2 && a3 == b3
  {
  }

  /** Two memories with equal words are equal byte for byte. */
  lemma BlockDetermines(m: seq<bv8>, m': seq<bv8>)
    requires |m| == |m'| == 32
    requires BlockAt(m, 0) == BlockAt(m', 0) && m[16..] == m'[16..]
    ensures m == m'
  {
    hide Word;
    WordDetermines(m[0], m[1], m[2], m[3], m'[0], m'[1], m'[2], m'[3]);
    WordDetermines(m[4], m[5], m[6], m[7], m'[4], m'[5], m'[6], m'[7]);
    WordDetermines(m[8], m[9], m[10], m[11], m'[8], m'[9], m'[10], m'[11]);
    WordDetermines(m[12], m[13], m[14], m[15], m'[12], m'[13], m'[14], m'[15]);
    assert m[..16] == m'[..16];
    assert m == m[..16] + m[16..];
    assert m' == m'[..16] + m'[16..];
  }

  /** The sixteen bytes of a block. */
  function BlockBytes(b: Block): (r: seq<bv8>)
    ensures |r| == 16
  {
    WordBytes(b.w0) + WordBytes(b.w1) + WordBytes(b.w2) + WordBytes(b.w3)
  }

  function WordBytes(w: bv32): (r: seq<bv8>)
    ensures |r| == 4
  {
    [(w & 0xFF) as bv8, ((w >> 8) & 0xFF) as bv8, ((w >> 16) & 0xFF) as bv8, ((w >> 24) & 0xFF) as bv8]
  }

  lemma WordBytesOfWord(b0: bv8, b1: bv8, b2: bv8, b3: bv8)
    ensures WordBytes(Word(b0, b1, b2, b3)) == [b0, b1, b2, b3]
  {
  }

  lemma BlockBytesOfBlock(m: seq<bv8>, p: nat)
    requires p + 16 <= |m|
    ensures BlockBytes(BlockAt(m, p)) == m[p..p + 16]
  {
    hide Word, WordBytes;
    WordBytesOfWord(m[p], m[p + 1], m[p + 2], m[p + 3]);
    WordBytesOfWord(m[p + 4], m[p + 5], m[p + 6], m[p + 7]);
    WordBytesOfWord(m[p + 8], m[p + 9], m[p + 10], m[p + 11]);
    WordBytesOfWord(m[p + 12], m[p + 13], m[p + 14], m[p + 15]);
  }

  /** Only the sixteen bytes matter. */
  lemma SameBlock(m: seq<bv8>, p: nat, n: seq<bv8>, q: nat)
    requires p + 16 <= |m| && q + 16 <= |n| && m[p..p + 16] == n[q..q + 16]
    ensures BlockAt(m, p) == BlockAt(n, q)
  {
    hide Word;
    var a, b := m[p..p + 16], n[q..q + 16];
    assert forall i :: 0 <= i < 16 ==> a[i] == m[p + i];
    assert forall i :: 0 <= i < 16 ==> b[i] == n[q + i];
  }

  /** Decrypting in place what was encrypted in place restores all 32 bytes. */
  method EncryptThenDecrypt(mem: array<bv8>)
    requires mem.Length == 32
    modifies mem
    ensures mem[..] == old(mem[..])
  {
    hide BlockAt, Encrypt, Decrypt;
    DecryptAfterEncrypt(BlockAt(mem[..], 0), BlockAt(mem[..], 16));
    EncryptInPlace(mem);
    KeyUnchanged(old(mem[..]), mem[..]);
    DecryptInPlace(mem);
    BlockDetermines(old(mem[..]), mem[..]);
  }

  /** Encrypting in place what was decrypted in place restores all 32 bytes. */
  method DecryptThenEncrypt(mem: array<bv8>)
    requires mem.Length == 32
    modifies mem
    ensures mem[..] == old(mem[..])
  {
    hide BlockAt, Encrypt, Decrypt;
    EncryptAfterDecrypt(BlockAt(mem[..], 0), BlockAt(mem[..], 16));
    DecryptInPlace(mem);
    KeyUnchanged(old(mem[..]), mem[..]);
    EncryptInPlace(mem);
    BlockDetermines(old(mem[..]), mem[..]);
  }
}
