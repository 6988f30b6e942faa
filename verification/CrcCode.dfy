/** The CRC routines as register code: the slow bit loop, the parity form, and the table
    check of the receiver. All three compute the standard's CRC. */
module CrcCode {
  import opened Avr
  import opened CrcTables
  import opened Crc

  /** Carry after subi: the constant was larger. */
  function Borrow(a: nat, k: nat): bv8 {
    if a < k then 1 else 0
  }

  /** com: complement of a counter. */
  function Com8(a: nat): nat
    requires a < 256
  {
    255 - a
  }

  /** swap: exchange the nibbles. */
  function Swap(x: bv8): bv8 {
    (x << 4) | (x >> 4)
  }

  // ---------------------------------------------------------------- slow form

  function Held(high: bv8, low: bv8): bv16 {
    Complement(Join(high, low))
  }

  lemma HeldStart()
    ensures Held(0, 0) == 0xFFFF
  {
  }

  lemma HeldFed(high: bv8, low: bv8, b: bv8)
    ensures Held(high, Eor(low, b)) == Xor16(Held(high, low), Widen(b))
  {
  }

  /** com on a data register. */
  function Com(b: bv8): bv8 {
    !b
  }

  lemma HeldSplit(high: bv8, low: bv8)
    ensures High8(Held(high, low)) == Com(high) && Low8(Held(high, low)) == Com(low)
  {
  }

  lemma HalfSplit(c: bv16)
    ensures High8(Half(c)) == High8(c) >> 1
    ensures Low8(Half(c)) == (Low8(c) >> 1) | (High8(c) << 7)
  {
  }

  lemma ComRor(high: bv8, low: bv8)
    ensures Com(Ror(high, 1)) == Com(high) >> 1
    ensures Com(Ror(low, Low(high))) == (Com(low) >> 1) | (Com(high) << 7)
  {
  }

  lemma HeldHalf(high: bv8, low: bv8)
    ensures Held(Ror(high, 1), Ror(low, Low(high))) == Half(Held(high, low))
  {
    hide Held, Half, Ror, Low, Com, High8, Low8;
    HeldSplit(high, low);
    HeldSplit(Ror(high, 1), Ror(low, Low(high)));
    HalfSplit(Held(high, low));
    ComRor(high, low);
    BytesDetermineRegister(Held(Ror(high, 1), Ror(low, Low(high))), Half(Held(high, low)));
  }

  lemma HeldOdd(high: bv8, low: bv8)
    ensures Low(low) == 0 <==> Odd(Held(high, low))
  {
  }

  lemma PolySplit(c: bv16)
    ensures High8(AddPoly(c)) == Eor(High8(c), 0xA0) && Low8(AddPoly(c)) == Eor(Low8(c), 0x01)
  {
  }

  lemma ComEor(b: bv8, k: bv8)
    ensures Com(Eor(b, k)) == Eor(Com(b), k)
  {
  }

  lemma HeldPoly(high: bv8, low: bv8)
    ensures Held(Eor(high, 0xA0), Eor(low, 0x01)) == AddPoly(Held(high, low))
  {
    hide Held, AddPoly, Eor, Com, High8, Low8;
    HeldSplit(high, low);
    HeldSplit(Eor(high, 0xA0), Eor(low, 0x01));
    PolySplit(Held(high, low));
    ComEor(high, 0xA0);
    ComEor(low, 0x01);
    BytesDetermineRegister(Held(Eor(high, 0xA0), Eor(low, 0x01)), AddPoly(Held(high, low)));
  }

  /** Shifting ones into a complemented register is shifting zeros into the register, and the
      polynomial is added when a zero, not a one, falls out. */
  lemma HeldShift(high: bv8, low: bv8)
    ensures Low(low) != 0 ==> Held(Ror(high, 1), Ror(low, Low(high))) == Shift(Held(high, low))
    ensures (Low(low) == 0 ==>
              Held(Eor(Ror(high, 1), 0xA0), Eor(Ror(low, Low(high)), 0x01)) == Shift(Held(high, low)))
  {
    hide Held, Half, Odd, AddPoly, Ror, Eor, Low;
    HeldHalf(high, low);
    HeldOdd(high, low);
    HeldPoly(Ror(high, 1), Ror(low, Low(high)));
  }

  lemma HeldBytes(high: bv8, low: bv8)
    ensures low == Low8(Complement(Held(high, low))) && high == High8(Complement(Held(high, low)))
  {
  }

  /** The bit loop: entered with the carry set, it runs exactly eight times. */
  method SlowByte(high: bv8, low: bv8, carryIn: bv8, bitCntIn: nat) returns (h: bv8, l: bv8, bitCnt: nat)
    requires carryIn == 1 && bitCntIn == 0
    ensures Held(h, l) == Shifts(Held(high, low), 8)
    ensures bitCnt == 0
  {
    hide Held, Shift, Low, Ror, Eor;
    h, l, bitCnt := high, low, bitCntIn;
    var carry := carryIn;
    ghost var k := 0;
    while true
      invariant k < 8 && bitCnt == 32 * k && carry == 1
      invariant Held(h, l) == Shifts(Held(high, low), k)
      decreases 8 - k
    {
      HeldShift(h, l);
      ghost var before := Held(h, l);
      var between := Low(h);
      h := Ror(h, carry);
      carry := Low(l);
      l := Ror(l, between);
      if carry == 0 {
        l := Eor(l, 0x01);
        h := Eor(h, 0xA0);
      }
      assert Held(h, l) == Shift(before);
      k := k + 1;
      carry := Borrow(bitCnt, 224);
      bitCnt := Sub8(bitCnt, 224);
      if carry == 0 {
        break;
      }
    }
  }

  method UsbCrc16(data: array<bv8>, ptr: nat, len: nat) returns (resCrcL: bv8, resCrcH: bv8, end: nat)
    requires len < 256 && ptr + len <= data.Length
    ensures [resCrcL, resCrcH] == CrcBytes(data[ptr..ptr + len])
    ensures end == ptr + len
  {
    hide Held, Complement, Low8, High8, Eor, Remainder, Shifts;
    resCrcL, resCrcH, end := 0, 0, ptr;
    var argLen, bitCnt := Com8(len), 0;
    var carry := Borrow(argLen, 255);
    argLen := Sub8(argLen, 255);
    HeldStart();
    EmptyRemainder();
    assert data[ptr..ptr] == [];
    while carry == 1
      invariant ptr <= end <= ptr + len && bitCnt == 0
      invariant argLen == (256 - len + (end - ptr)) % 256
      invariant carry == if end < ptr + len then 1 else 0
      invariant Held(resCrcH, resCrcL) == Remainder(data[ptr..end])
      decreases ptr + len - end
    {
      HeldFed(resCrcH, resCrcL, data[end]);
      RemainderAppend(data[ptr..end], data[end]);
      assert data[ptr..end] + [data[end]] == data[ptr..end + 1];
      resCrcL := Eor(resCrcL, data[end]);
      end := end + 1;
      resCrcH, resCrcL, bitCnt := SlowByte(resCrcH, resCrcL, carry, bitCnt);
      carry := Borrow(argLen, 255);
      argLen := Sub8(argLen, 255);
    }
    HeldBytes(resCrcH, resCrcL);
  }

  lemma EmptyRemainder()
    ensures Remainder([]) == 0xFFFF
  {
  }

  // ---------------------------------------------------------------- fast form

  /** The parity by folding: nibbles, then bit pairs, then an increment adds the last two. */
  method ParityOf(x: bv8) returns (byte: bv8)
    ensures byte == Parity(x)
  {
    byte := Swap(x);
    byte := Eor(byte, x);
    var scratch := byte;
    byte := byte >> 1;
    byte := byte >> 1;
    byte := Eor(byte, scratch);
    byte := byte + 1;
    byte := byte >> 1;
    byte := byte & 1;
  }

  /** One byte: two right shifts through a cleared register are x << 6 and x << 7. */
  method FastByte(resCrcH: bv8, resCrcL: bv8, data: bv8) returns (h: bv8, l: bv8)
    ensures h == HighEntry(Eor(resCrcL, data))
    ensures l == Eor(LowEntry(Eor(resCrcL, data)), resCrcH)
  {
    l := Eor(resCrcL, data);
    var byte := ParityOf(l);
    var scratch := l;
    l := resCrcH;
    l := Eor(l, byte);
    byte := 0 - byte;
    byte := byte & 0xC0;
    h := byte;
    byte := 0;
    var carry := Low(scratch);
    scratch := scratch >> 1;
    byte := Ror(byte, carry);
    h := Eor(h, scratch);
    l := Eor(l, byte);
    carry := Low(scratch);
    scratch := scratch >> 1;
    byte := Ror(byte, carry);
    h := Eor(h, scratch);
    l := Eor(l, byte);
  }

  lemma JoinIsRegister(c: bv16, high: bv8, low: bv8)
    ensures High8(Join(high, low)) == high && Low8(Join(high, low)) == low
    ensures c == Join(high, low) <==> High8(c) == high && Low8(c) == low
  {
  }

  lemma ComplementOfJoin(high: bv8, low: bv8)
    ensures Low8(Complement(Join(high, low))) == Com(low) && High8(Complement(Join(high, low))) == Com(high)
  {
  }

  method UsbCrc16Fast(data: array<bv8>, ptr: nat, len: nat) returns (resCrcL: bv8, resCrcH: bv8, end: nat)
    requires len < 256 && ptr + len <= data.Length
    ensures [resCrcL, resCrcH] == CrcBytes(data[ptr..ptr + len])
    ensures end == ptr + len
  {
    hide Join, Complement, Com, Low8, High8, Eor, Remainder, Update, HighEntry, LowEntry;
    resCrcL, resCrcH, end := 0xFF, 0xFF, ptr;
    var argLen := len;
    EmptyRemainder();
    FullRegister();
    assert data[ptr..ptr] == [];
    while argLen >= 1
      invariant ptr <= end && argLen == ptr + len - end
      invariant Join(resCrcH, resCrcL) == Remainder(data[ptr..end])
    {
      var byte := data[end];
      RemainderAppend(data[ptr..end], byte);
      assert data[ptr..end] + [byte] == data[ptr..end + 1];
      UpdateBytes(Join(resCrcH, resCrcL), byte);
      JoinIsRegister(0, resCrcH, resCrcL);
      resCrcH, resCrcL := FastByte(resCrcH, resCrcL, byte);
      JoinIsRegister(Remainder(data[ptr..end + 1]), resCrcH, resCrcL);
      end := end + 1;
      argLen := argLen - 1;
    }
    ComplementOfJoin(resCrcH, resCrcL);
    resCrcL := Com(resCrcL);
    resCrcH := Com(resCrcH);
  }

  lemma FullRegister()
    ensures Join(0xFF, 0xFF) == 0xFFFF
  {
  }

  // ---------------------------------------------------------------- sender and receiver

  method UsbCrc16Append(data: array<bv8>, ptr: nat, len: nat)
    requires len < 256 && ptr + len + 2 <= data.Length
    modifies data
    ensures data[..ptr + len] == old(data[..ptr + len])
    ensures data[ptr + len..ptr + len + 2] == CrcBytes(old(data[ptr..ptr + len]))
    ensures data[ptr + len + 2..] == old(data[ptr + len + 2..])
  {
    var low, high, end := UsbCrc16(data, ptr, len);
    data[end] := low;
    data[end + 1] := high;
  }

  /** The register once the pending index has been looked up. */
  predicate Pending(x3: bv8, zl: bv8, c: bv16) {
    High8(c) == TableHigh(zl) && Low8(c) == Eor(TableLow(zl), x3)
  }

  /** 0xFE54 is the index and high byte that look up to the preset register. */
  lemma StartsPreset()
    ensures Pending(0xFE, 0x54, 0xFFFF)
  {
  }

  lemma PendingStep(x3: bv8, zl: bv8, c: bv16, byte: bv8)
    requires Pending(x3, zl, c)
    ensures Pending(TableHigh(zl), Eor(Eor(TableLow(zl), x3), byte), Update(c, byte))
  {
    hide TableHigh, TableLow, HighEntry, LowEntry, Update, High8, Low8, Eor;
    UpdateBytes(c, byte);
    Listing(Eor(Low8(c), byte));
  }

  lemma ShortPacketsFail(b: bv8)
    ensures Remainder([]) != RESIDUE && Remainder([b]) != RESIDUE
  {
    hide Remainder, Update, HighEntry, LowEntry, High8, Low8;
    EmptyRemainder();
    RemainderAppend([], b);
    assert [] + [b] == [b];
    LastByte(Update(0xFFFF, b));
    UpdateBytes(0xFFFF, b);
    UniqueEntries(Eor(Low8(0xFFFF), b));
    assert High8(0xFFFF) == 0xFF by {
      FullRegister();
      JoinIsRegister(0xFFFF, 0xFF, 0xFF);
    }
    NotOne();
  }

  lemma NotOne()
    ensures Eor(0x41, 0xFF) != 0x01
  {
  }

  /** The receiver's check of the bytes after the PID. Each byte is looked up while the next
      one arrives, so the register runs one byte late. */
  method CrcAccepts(packet: seq<bv8>) returns (accepted: bool)
    ensures (accepted <==>
              |packet| >= 2 && packet[|packet| - 2..] == CrcBytes(packet[..|packet| - 2]))
  {
    hide Remainder, Update, TableHigh, TableLow, Eor, CrcBytes, Pending;
    var x3: bv8, zl: bv8 := 0xFE, 0x54;
    StartsPreset();
    EmptyRemainder();
    var n := 0;
    while n < |packet|
      invariant n <= |packet|
      invariant Pending(x3, zl, Remainder(packet[..n]))
    {
      PendingStep(x3, zl, Remainder(packet[..n]), packet[n]);
      RemainderAppend(packet[..n], packet[n]);
      assert packet[..n] + [packet[n]] == packet[..n + 1];
      var x4 := TableHigh(zl);
      zl := TableLow(zl);
      zl := Eor(zl, x3);
      x3 := x4;
      zl := Eor(zl, packet[n]);
      n := n + 1;
    }
    assert packet[..n] == packet;
    AcceptedAtResidue(x3, zl, packet);
    var x2 := TableHigh(zl);
    zl := TableLow(zl);
    zl := Eor(zl, x3);
    accepted := zl == 0x01 && x2 == 0xB0;
  }

  lemma AcceptedAtResidue(x3: bv8, zl: bv8, packet: seq<bv8>)
    requires Pending(x3, zl, Remainder(packet))
    ensures (Eor(TableLow(zl), x3) == 0x01 && TableHigh(zl) == 0xB0 <==>
              |packet| >= 2 && packet[|packet| - 2..] == CrcBytes(packet[..|packet| - 2]))
  {
    hide Remainder, TableHigh, TableLow, Eor, CrcBytes, High8, Low8;
    var n := |packet|;
    LastByte(Remainder(packet));
    if n >= 2 {
      assert packet == packet[..n - 2] + [packet[n - 2], packet[n - 1]];
      assert packet[n - 2..] == [packet[n - 2], packet[n - 1]];
      Residue(packet[..n - 2], packet[n - 2], packet[n - 1]);
    } else {
      ShortPacketsFail(if n == 1 then packet[0] else 0);
      assert packet == [] || packet == [packet[0]];
    }
  }

  /** Whatever the sender appends, the receiver accepts. */
  method AppendThenCheck(data: array<bv8>, ptr: nat, len: nat) returns (accepted: bool)
    requires len < 256 && ptr + len + 2 <= data.Length
    modifies data
    ensures accepted
    ensures data[..ptr + len] == old(data[..ptr + len])
  {
    ghost var payload := data[ptr..ptr + len];
    UsbCrc16Append(data, ptr, len);
    var packet := data[ptr..ptr + len + 2];
    assert packet[..len] == payload by {
      assert data[..ptr + len][ptr..] == payload;
    }
    assert packet[len..] == data[ptr + len..ptr + len + 2];
    accepted := CrcAccepts(packet);
  }
}
