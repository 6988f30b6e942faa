/** CRC-16 of USB data packets (section 8.3.5 of USB 2.0): the bit-serial definition, the
    byte-at-a-time register the firmware works with, and the residue law. */
module Crc {
  import opened Avr
  import opened Wire
  import opened CrcTables

  // ---------------------------------------------------------------- the standard

  function Half(c: bv16): bv16 {
    c >> 1
  }

  predicate Odd(c: bv16) {
    c & 1 != 0
  }

  function AddPoly(c: bv16): bv16 {
    c ^ 0xA001
  }

  function Xor16(a: bv16, b: bv16): bv16 {
    a ^ b
  }

  /** One message bit, in the reversed form: the bit leaving the register decides. */
  function NextBit(c: bv16, bit: bool): bv16 {
    if Odd(c) != bit then AddPoly(Half(c)) else Half(c)
  }

  /** The register after a string of bits. */
  function Serial(c: bv16, bits: seq<bool>): bv16 {
    if bits == [] then c else NextBit(Serial(c, bits[..|bits| - 1]), bits[|bits| - 1])
  }

  /** The register after a message, preset to all ones, bits in the order of the wire. */
  function Remainder(bytes: seq<bv8>): bv16 {
    Serial(0xFFFF, Bits(bytes))
  }

  function Complement(c: bv16): bv16 {
    !c
  }

  function Low8(c: bv16): bv8 {
    (c & 0xFF) as bv8
  }

  function High8(c: bv16): bv8 {
    (c >> 8) as bv8
  }

  function Widen(b: bv8): bv16 {
    b as bv16
  }

  function Join(high: bv8, low: bv8): bv16 {
    (Widen(high) << 8) | Widen(low)
  }

  /** What follows a payload on the wire: the complemented register, low byte first. */
  function CrcBytes(bytes: seq<bv8>): (r: seq<bv8>)
    ensures |r| == 2
  {
    [Low8(Complement(Remainder(bytes))), High8(Complement(Remainder(bytes)))]
  }

  // ---------------------------------------------------------------- a byte at a time

  /** One step with the message bits already added to the register. */
  function Shift(c: bv16): bv16 {
    if Odd(c) then AddPoly(Half(c)) else Half(c)
  }

  function Shifts(c: bv16, n: nat): bv16 {
    if n == 0 then c else Shift(Shifts(c, n - 1))
  }

  function Halves(c: bv16, n: nat): bv16 {
    if n == 0 then c else Half(Halves(c, n - 1))
  }

  /** A whole byte added to the register, then eight steps. */
  function Update(c: bv16, b: bv8): bv16 {
    Shifts(Xor16(c, Widen(b)), 8)
  }

  lemma HalfXor(a: bv16, b: bv16)
    ensures Half(Xor16(a, b)) == Xor16(Half(a), Half(b))
  {
  }

  lemma OddXor(a: bv16, b: bv16)
    ensures Odd(Xor16(a, b)) <==> Odd(a) != Odd(b)
  {
  }

  lemma PolyXor(a: bv16, b: bv16)
    ensures AddPoly(Xor16(a, b)) == Xor16(AddPoly(a), b)
  {
  }

  /** Bits added early wait at the bottom of the register and come out one a step. */
  lemma ShiftAdded(c: bv16, waiting: bv16)
    ensures Shift(Xor16(c, waiting)) == Xor16(NextBit(c, Odd(waiting)), Half(waiting))
  {
    HalfXor(c, waiting);
    OddXor(c, waiting);
    PolyXor(Half(c), Half(waiting));
    hide Half, Odd, AddPoly, Xor16;
  }

  lemma {:induction false} ShiftsAdded(c: bv16, b: bv8, n: nat)
    requires n <= 8
    requires forall i :: 0 <= i < n ==> Odd(Halves(Widen(b), i)) == BitsOf(b)[i]
    ensures Shifts(Xor16(c, Widen(b)), n) == Xor16(Serial(c, BitsOf(b)[..n]), Halves(Widen(b), n))
  {
    hide Odd, Shift, NextBit, Half, Xor16, BitsOf;
    var bits := BitsOf(b);
    if n != 0 {
      ShiftsAdded(c, b, n - 1);
      ShiftAdded(Serial(c, bits[..n - 1]), Halves(Widen(b), n - 1));
      assert bits[..n][..|bits[..n]| - 1] == bits[..n - 1];
    } else {
      assert bits[..n] == [];
    }
  }

  lemma FirstHalves(c: bv16)
    ensures Halves(c, 0) == c && Halves(c, 1) == c >> 1 && Halves(c, 2) == c >> 2
    ensures Halves(c, 3) == c >> 3 && Halves(c, 4) == c >> 4
  {
  }

  lemma LastHalves(c: bv16)
    requires Halves(c, 4) == c >> 4
    ensures Halves(c, 5) == c >> 5 && Halves(c, 6) == c >> 6
    ensures Halves(c, 7) == c >> 7 && Halves(c, 8) == c >> 8
  {
  }

  lemma FirstBits(b: bv8)
    ensures Odd(Widen(b)) == BitOf(b, 0) && Odd(Widen(b) >> 1) == BitOf(b, 1)
    ensures Odd(Widen(b) >> 2) == BitOf(b, 2) && Odd(Widen(b) >> 3) == BitOf(b, 3)
  {
  }

  lemma LastBits(b: bv8)
    ensures Odd(Widen(b) >> 4) == BitOf(b, 4) && Odd(Widen(b) >> 5) == BitOf(b, 5)
    ensures Odd(Widen(b) >> 6) == BitOf(b, 6) && Odd(Widen(b) >> 7) == BitOf(b, 7)
    ensures Widen(b) >> 8 == 0
  {
  }

  /** The message bits come out of the low end in the order of the wire. */
  lemma ByteComesOut(b: bv8)
    ensures forall i :: 0 <= i < 8 ==> Odd(Halves(Widen(b), i)) == BitsOf(b)[i]
  {
    hide Odd, Halves, Widen, BitOf, BitsOf;
    FirstHalves(Widen(b));
    LastHalves(Widen(b));
    FirstBits(b);
    LastBits(b);
  }

  lemma XorZero(c: bv16)
    ensures Xor16(c, 0) == c
  {
  }

  /** Eight shifts of register and byte are the standard's eight bit steps. */
  lemma UpdateIsSerial(c: bv16, b: bv8)
    ensures Update(c, b) == Serial(c, BitsOf(b))
  {
    hide Odd, Halves, Widen, BitOf, Shifts, Serial, Xor16;
    ByteComesOut(b);
    FirstHalves(Widen(b));
    LastHalves(Widen(b));
    LastBits(b);
    ShiftsAdded(c, b, 8);
    XorZero(Serial(c, BitsOf(b)));
    assert BitsOf(b)[..8] == BitsOf(b);
  }

  lemma {:induction false} SerialAppend(c: bv16, first: seq<bool>, second: seq<bool>)
    ensures Serial(c, first + second) == Serial(Serial(c, first), second)
  {
    hide NextBit;
    if second == [] {
      assert first + second == first;
    } else {
      var n := |second| - 1;
      SerialAppend(c, first, second[..n]);
      assert (first + second)[..|first| + n] == first + second[..n];
    }
  }

  /** The standard's remainder, a byte at a time. */
  lemma RemainderAppend(bytes: seq<bv8>, b: bv8)
    ensures Remainder(bytes + [b]) == Update(Remainder(bytes), b)
  {
    hide Serial, Update;
    assert (bytes + [b])[..|bytes + [b]| - 1] == bytes;
    SerialAppend(0xFFFF, Bits(bytes), BitsOf(b));
    UpdateIsSerial(Remainder(bytes), b);
  }

  // ---------------------------------------------------------------- table form

  /** Eight steps at once. */
  function Entry(x: bv8): bv16 {
    Join(HighEntry(x), LowEntry(x))
  }

  /** Bits that do not reach the low end only move down. */
  lemma {:induction false} ShiftsClear(a: bv16, h: bv16, n: nat)
    requires forall i :: 0 <= i < n ==> !Odd(Halves(h, i))
    ensures Shifts(Xor16(a, h), n) == Xor16(Shifts(a, n), Halves(h, n))
  {
    hide Odd, Half, AddPoly, Xor16;
    if n != 0 {
      ShiftsClear(a, h, n - 1);
      ShiftAdded(Shifts(a, n - 1), Halves(h, n - 1));
    }
  }

  /** A byte in the upper half of the register. */
  function Upper(h: bv8): bv16 {
    Widen(h) << 8
  }

  lemma ClearLow(h: bv8)
    ensures !Odd(Upper(h)) && !Odd(Upper(h) >> 1) && !Odd(Upper(h) >> 2) && !Odd(Upper(h) >> 3)
    ensures !Odd(Upper(h) >> 4) && !Odd(Upper(h) >> 5) && !Odd(Upper(h) >> 6) && !Odd(Upper(h) >> 7)
    ensures Upper(h) >> 8 == Widen(h)
  {
  }

  lemma HighByteIsClear(h: bv8)
    ensures forall i :: 0 <= i < 8 ==> !Odd(Halves(Upper(h), i))
    ensures Halves(Upper(h), 8) == Widen(h)
  {
    hide Odd, Halves, Widen, Upper;
    FirstHalves(Upper(h));
    LastHalves(Upper(h));
    ClearLow(h);
  }

  function Eight(c: bv16): bv16 {
    Shift(Shift(Shift(Shift(Shift(Shift(Shift(Shift(c))))))))
  }

  lemma ShiftsAreEight(c: bv16)
    ensures Shifts(c, 8) == Eight(c)
  {
    hide Shift;
    assert Shifts(c, 1) == Shift(c);
    assert Shifts(c, 2) == Shift(Shift(c));
    assert Shifts(c, 4) == Shift(Shift(Shifts(c, 2)));
    assert Shifts(c, 6) == Shift(Shift(Shifts(c, 4)));
  }

  lemma EightIsEntry(x: bv8)
    ensures Eight(Widen(x)) == Entry(x)
  {
  }

  lemma SplitAdded(c: bv16, b: bv8)
    ensures Xor16(c, Widen(b)) == Xor16(Widen(Eor(Low8(c), b)), Upper(High8(c)))
  {
  }

  /** The table step: one look-up by the low byte, the high byte moved down. */
  lemma UpdateByTable(c: bv16, b: bv8)
    ensures Update(c, b) == Xor16(Entry(Eor(Low8(c), b)), Widen(High8(c)))
  {
    hide Xor16, Widen, Upper, Low8, High8, Eor, Entry, Shifts, Halves, Odd, Eight;
    var x := Eor(Low8(c), b);
    SplitAdded(c, b);
    HighByteIsClear(High8(c));
    ShiftsClear(Widen(x), Upper(High8(c)), 8);
    ShiftsAreEight(Widen(x));
    EightIsEntry(x);
  }

  // ---------------------------------------------------------------- residue

  const RESIDUE: bv16 := 0xB001

  lemma UpdateBytes(c: bv16, b: bv8)
    ensures High8(Update(c, b)) == HighEntry(Eor(Low8(c), b))
    ensures Low8(Update(c, b)) == Eor(LowEntry(Eor(Low8(c), b)), High8(c))
  {
    UpdateByTable(c, b);
    hide Update;
    XorJoined(HighEntry(Eor(Low8(c), b)), LowEntry(Eor(Low8(c), b)), High8(c));
  }

  lemma XorJoined(high: bv8, low: bv8, b: bv8)
    ensures High8(Xor16(Join(high, low), Widen(b))) == high
    ensures Low8(Xor16(Join(high, low), Widen(b))) == Eor(low, b)
  {
  }

  lemma BytesDetermineRegister(c: bv16, d: bv16)
    requires High8(c) == High8(d) && Low8(c) == Low8(d)
    ensures c == d
  {
  }

  /** Two entries that only one index has. */
  lemma UniqueEntries(x: bv8)
    ensures HighEntry(x) == 0x40 <==> x == 0xFF
    ensures HighEntry(x) == 0xB0 <==> x == 0xBF
    ensures LowEntry(0xFF) == 0x40 && LowEntry(0xBF) == 0x41
  {
  }

  lemma ComplementBytes(c: bv16, b: bv8)
    ensures Eor(Low8(c), b) == 0xFF <==> b == Low8(Complement(c))
    ensures Eor(Eor(0x40, High8(c)), b) == 0xBF <==> b == High8(Complement(c))
  {
  }

  lemma LastByte(c: bv16)
    ensures c == RESIDUE <==> High8(c) == 0xB0 && Low8(c) == 0x01
  {
  }

  lemma ClearsToOne(high: bv8)
    ensures Eor(0x41, high) == 0x01 <==> high == 0x40
  {
  }

  lemma TwoUpdates(c: bv16, a: bv8, b: bv8)
    ensures Update(Update(c, a), b) == RESIDUE <==>
            a == Low8(Complement(c)) && b == High8(Complement(c))
  {
    hide Update, HighEntry, LowEntry, Eor, Low8, High8, Complement;
    var c1 := Update(c, a);
    var c2 := Update(c1, b);
    UpdateBytes(c, a);
    UpdateBytes(c1, b);
    LastByte(c2);
    UniqueEntries(Eor(Low8(c), a));
    UniqueEntries(Eor(Low8(c1), b));
    ClearsToOne(High8(c1));
    ComplementBytes(c, a);
    ComplementBytes(c, b);
  }

  /** Exactly the two bytes of its own CRC bring a payload's register to the residue. */
  lemma Residue(payload: seq<bv8>, a: bv8, b: bv8)
    ensures Remainder(payload + [a, b]) == RESIDUE <==> [a, b] == CrcBytes(payload)
  {
    hide Remainder, Update, Low8, High8, Complement;
    RemainderAppend(payload, a);
    RemainderAppend(payload + [a], b);
    assert payload + [a, b] == (payload + [a]) + [b];
    TwoUpdates(Remainder(payload), a, b);
  }
}
