/** The host protocol: eight-byte packets that read and write the credential store. Packets
    arrive (Decode), the host polls for an answer (Task), and the main loop programs the flash
    (WriteTask), in any order. */
module Ucp {
  import opened Avr
  import opened Flash

  const STORE: nat := 2048

  const CMD_ERROR: bv8 := 0x00
  const CMD_RESET: bv8 := 0x01
  const CMD_READ: bv8 := 0x02
  const CMD_WRITE: bv8 := 0x03
  const CMD_DATA: bv8 := 0x04
  const CMD_INFO: bv8 := 0x05
  const CMD_SET_PIN: bv8 := 0x07
  const CMD_READ_PIN: bv8 := 0x08
  const CMD_KEYBOARD: bv8 := 0x09
  const ERR_CMD: bv8 := 0xF2
  const ERR_SIZE: bv8 := 0xF4
  const ERR_PROTOCOL: bv8 := 0xF5
  const ERR_LOCKED: bv8 := 0xF6

  datatype State = Idle | ReadingCmd | Reading | Writing | Locked | WriteEeprom

  /** What the command interpreter takes from the rest of the firmware: the EEPROM addresses of
      the PIN hash and the keyboard table, and the seven bytes INFO answers with. */
  datatype Layout = Layout(lockHash: nat, keyboard: nat, keyboardSize: nat, info: seq<bv8>)

  predicate GoodLayout(layout: Layout) {
    && layout.lockHash < 0x1_0000 && layout.keyboard < 0x1_0000 && layout.keyboardSize < 0x1_0000
    && |layout.info| == 7
  }

  /** A little-endian 16-bit field of a packet. */
  function Field(data: seq<bv8>, at: nat): (n: nat)
    requires at + 1 < |data|
    ensures n < 0x1_0000
  {
    Value(data[at]) + 256 * Value(data[at + 1])
  }

  lemma NumberOf(n: nat, low: bv8, high: bv8)
    requires low as nat == n % 256 && high as nat == n / 256
    ensures Value(low) + 256 * Value(high) == n
  {
  }

  /** How many bytes the staging buffer holds when `offset` of a transfer that began at `start`
      is reached: those since the last multiple of a page, or since the start. */
  function StagedAt(start: nat, offset: nat): (n: nat)
    requires start <= offset
    ensures n <= offset - start && n < PAGE
  {
    if offset - start <= offset % PAGE then offset - start else offset % PAGE
  }

  lemma StagedStart(start: nat)
    ensures StagedAt(start, start) == 0
  {
  }

  lemma StagedNext(start: nat, offset: nat)
    requires start <= offset
    ensures (offset + 1) % PAGE == 0 ==> StagedAt(start, offset + 1) == 0
    ensures (offset + 1) % PAGE != 0 ==> StagedAt(start, offset + 1) == StagedAt(start, offset) + 1
  {
  }

  /** A report turned into an error answer. */
  function Failed(report: seq<bv8>, code: bv8): (r: seq<bv8>)
    requires |report| == 8
    ensures r == [0x00, code] + report[2..]
  {
    report[0 := CMD_ERROR][1 := code]
  }

  /** A WRITE: where in the store, how much, and the flash it found. */
  datatype Transfer = Transfer(start: nat, len: nat, origin: seq<bv8>)

  class Protocol {
    const flash: Memory
    const base: nat              // address of the credential store
    const layout: Layout
    const tempBuff: array<bv8>
    const report: array<bv8>     // customReport
    var state: State
    var readOffset: nat
    var readEnd: nat
    var readType: bv8
    var flashWriteAddr: nat
    var buffIndex: nat
    var usbWrite: bool
    var usbWriteAccepted: bool
    var lockAfterSetPin: bool

    ghost var transfer: Transfer      // the WRITE under way
    ghost var polled: seq<bv8>        // bytes of the packets the host has polled for since
    ghost var written: seq<bv8>       // those the main loop has taken
    ghost var spoiled: bool           // a packet of another size replaced one polled for

    predicate Shape() {
      && tempBuff.Length == PAGE && report.Length == 8 && tempBuff != report
      && tempBuff != flash.cells && tempBuff != flash.buffer
      && report != flash.cells && report != flash.buffer
      && base + STORE <= flash.cells.Length && flash.cells.Length < 0x1_0000 && GoodLayout(layout)
    }

    predicate InFlash(t: Transfer) {
      base + t.start + t.len <= flash.cells.Length
    }

    /** A transfer inside the flash memory: the flash holds the flushed bytes, the staging buffer the
        others, and nothing else of the flash has changed. */
    ghost predicate Stored()
      reads this`transfer, this`written, this`readOffset, this`buffIndex, this`flashWriteAddr
      reads flash.cells, tempBuff
    {
      && Shape() && |transfer.origin| == flash.cells.Length && InFlash(transfer)
      && transfer.start + |written| == readOffset && readOffset <= transfer.start + transfer.len
      && buffIndex <= |written| && buffIndex <= PAGE
      && flashWriteAddr == base + readOffset - buffIndex
      && flash.cells[..] == Splice(transfer.origin, base + transfer.start, written[..|written| - buffIndex])
      && tempBuff[..buffIndex] == written[|written| - buffIndex..]
    }

    /** Offsets of a transfer under way, inside the store or not. */
    ghost predicate Counting()
      reads this`transfer, this`readOffset, this`readEnd, this`buffIndex, this`flashWriteAddr
    {
      && transfer.start <= readOffset < 0x1_0000 && readEnd == Wrap(transfer.start + transfer.len)
      && buffIndex == StagedAt(transfer.start, readOffset) && flashWriteAddr < 0x1_0000
    }

    ghost predicate Valid()
      reads this, flash.buffer, flash.cells, tempBuff, report
    {
      && Shape() && flash.Valid() && readOffset < 0x1_0000 && readEnd < 0x1_0000
      && (usbWrite || usbWriteAccepted ==> state == Writing && readOffset < readEnd)
      && !(usbWrite && usbWriteAccepted)
      && (state == Writing ==> Counting())
      && (state == Writing && InFlash(transfer) ==> Stored())
      && (state == Writing && !spoiled ==> polled == written + if usbWrite then report[..] else [])
    }

    constructor (flash: Memory, base: nat, layout: Layout)
      requires flash.Valid() && base + STORE <= flash.cells.Length < 0x1_0000 && GoodLayout(layout)
      ensures Valid() && this.flash == flash && this.base == base && this.layout == layout
      ensures state == Locked && fresh(tempBuff) && fresh(report)
    {
      this.flash, this.base, this.layout := flash, base, layout;
      tempBuff, report := new bv8[PAGE](_ => 0), new bv8[8](_ => 0);
      state, readOffset, readEnd, readType := Locked, 0, 0, 0;
      flashWriteAddr, buffIndex, usbWrite, usbWriteAccepted, lockAfterSetPin := 0, 0, false, false, false;
      transfer, polled, written, spoiled := Transfer(0, 0, []), [], [], false;
    }

    // ------------------------------------------------------------ the main loop's part

    /** Program what is staged. */
    method Flush()
      requires Shape() && flash.Valid() && buffIndex <= PAGE && flashWriteAddr < 0x1_0000
      modifies this`buffIndex, this`flashWriteAddr, flash.cells, flash.buffer, flash`log
      ensures flash.Valid() && buffIndex == 0 && flashWriteAddr < 0x1_0000
      ensures old(Stored()) ==> Stored()
    {
      hide Splice, Pages, Cycles;
      StagedFits();
      ghost var bytes, n := tempBuff[..buffIndex], |written|;
      if Stored() {
        SpliceMore(transfer.origin, base + transfer.start, written, n - buffIndex, buffIndex);
        assert written[n - buffIndex..n] == bytes;
      }
      flash.FlsWrite(tempBuff, flashWriteAddr, buffIndex);
      flashWriteAddr := Wrap(flashWriteAddr + buffIndex);
      buffIndex := 0;
      assert tempBuff[..0] == [] == written[n..];
    }

    lemma StagedFits()
      requires buffIndex <= PAGE
      ensures !Skips(flashWriteAddr, buffIndex) && Returns(flashWriteAddr, buffIndex)
    {
    }

    method StoreByte(b: bv8)
      requires Shape() && flash.Valid() && buffIndex < PAGE && readOffset + 1 < 0x1_0000
      modifies tempBuff, this`buffIndex, this`readOffset, this`written
      ensures buffIndex == old(buffIndex) + 1 && readOffset == old(readOffset) + 1 && written == old(written) + [b]
      ensures old(Stored() && readOffset < transfer.start + transfer.len) ==> Stored()
    {
      hide Splice;
      ghost var stored, before := Stored(), tempBuff[..buffIndex];
      if stored {
        Appended(written, b, |written| - buffIndex);
      }
      tempBuff[buffIndex] := b;
      assert tempBuff[..buffIndex + 1] == before + [b];
      buffIndex := (buffIndex + 1) % 256;
      readOffset := Wrap(readOffset + 1);
      written := written + [b];
    }

    static lemma Appended(bytes: seq<bv8>, b: bv8, k: nat)
      requires k <= |bytes|
      ensures (bytes + [b])[..k] == bytes[..k] && (bytes + [b])[k..] == bytes[k..] + [b]
    {
    }

    /** One byte of a packet: staged, and flushed at the end of a page and of the transfer. */
    method StageByte(b: bv8) returns (done: bool)
      requires Shape() && flash.Valid() && Counting() && state == Writing && readOffset < readEnd
      modifies this`state, this`readOffset, this`buffIndex, this`flashWriteAddr, this`written
      modifies tempBuff, flash.cells, flash.buffer, flash`log
      ensures flash.Valid() && readOffset == old(readOffset) + 1 && written == old(written) + [b]
      ensures done <==> readOffset == readEnd
      ensures if done then state == Idle && buffIndex == 0 else state == Writing && Counting()
      ensures old(Stored()) && readEnd == transfer.start + transfer.len ==> Stored()
    {
      hide Stored;
      StagedNext(transfer.start, readOffset);
      StoreByte(b);
      done := false;
      if readOffset % PAGE == 0 || readOffset >= readEnd {
        Flush();
        if readOffset >= readEnd {
          state := Idle;
          done := true;
        }
      }
    }

    /** A polled packet goes to the flash, as much of it as the transfer still wants. */
    method UcpWriteTask()
      requires Valid()
      modifies this`state, this`readOffset, this`buffIndex, this`flashWriteAddr, this`usbWrite, this`written
      modifies tempBuff, flash.cells, flash.buffer, flash`log
      ensures Valid() && !usbWrite
      ensures (!old(usbWrite) ==>
                && flash.cells[..] == old(flash.cells[..]) && flash.log == old(flash.log)
                && state == old(state) && readOffset == old(readOffset) && written == old(written))
      ensures (old(usbWrite) ==>
                var n := if old(readEnd - readOffset) <= 8 then old(readEnd - readOffset) else 8;
                && written == old(written) + report[..n]
                && state == (if old(readEnd - readOffset) <= 8 then Idle else Writing)
                && (InFlash(transfer) ==> Stored()))
      ensures old(usbWrite) && state == Idle ==> buffIndex == 0 && readOffset == readEnd
    {
      hide Stored, StagedAt, Wrap;
      if usbWrite {
        ghost var first, taken, inside := readOffset, written, InFlash(transfer);
        assert inside ==> readEnd == transfer.start + transfer.len;
        var i := 0;
        var done := false;
        while i < 8 && !done
          invariant i <= 8 && flash.Valid() && readOffset == first + i && written == taken + report[..i]
          invariant readOffset <= readEnd && (done <==> readOffset == readEnd)
          invariant if done then state == Idle && buffIndex == 0 && i > 0 else state == Writing && Counting()
          invariant inside ==> Stored()
        {
          done := StageByte(report[i]);
          i := i + 1;
          assert report[..i] == report[..i - 1] + [report[i - 1]];
        }
        usbWrite := false;
      }
    }

    // ------------------------------------------------------------ packets from the host

    method Report(data: seq<bv8>)
      requires report.Length == 8 && |data| == 8
      modifies report
      ensures report[..] == data
    {
      var i := 0;
      while i < 8
        invariant i <= 8 && report[..i] == data[..i]
      {
        report[i] := data[i];
        i := i + 1;
      }
    }

    method ReportError(code: bv8)
      requires report.Length == 8
      modifies report
      ensures report[..] == Failed(old(report[..]), code)
    {
      report[0] := CMD_ERROR;
      report[1] := code;
    }

    /** WRITE from the idle state. */
    method StartWrite(data: seq<bv8>)
      requires Valid() && state == Idle && |data| == 8
      modifies this`state, this`readOffset, this`readEnd, this`buffIndex, this`flashWriteAddr
      modifies this`transfer, this`polled, this`written, this`spoiled
      ensures Valid() && state == Writing && !usbWrite && !usbWriteAccepted
      ensures transfer.start == Value(data[1]) + 256 * Value(data[2])
      ensures transfer.len == Value(data[3]) + 256 * Value(data[4]) && transfer.origin == flash.cells[..]
      ensures readOffset == transfer.start && readEnd == Wrap(transfer.start + transfer.len)
      ensures polled == [] && written == [] && !spoiled
    {
      hide StagedAt, Wrap, Valid, Value;
      IdleMeans();
      state := Writing;
      readOffset := Field(data, 1);
      readEnd := Wrap(readOffset + Field(data, 3));
      buffIndex := 0;
      flashWriteAddr := Wrap(readOffset + base);
      transfer := Transfer(readOffset, Field(data, 3), flash.cells[..]);
      polled, written, spoiled := [], [], false;
      StartedIsValid();
    }

    lemma IdleMeans()
      requires Valid() && state == Idle
      ensures Shape() && flash.Valid() && !usbWrite && !usbWriteAccepted
    {
    }

    lemma StartedIsValid()
      requires Shape() && flash.Valid() && state == Writing && !usbWrite && !usbWriteAccepted
      requires transfer.origin == flash.cells[..] && polled == [] && written == [] && buffIndex == 0
      requires readOffset == transfer.start < 0x1_0000 && readEnd == Wrap(transfer.start + transfer.len)
      requires flashWriteAddr == Wrap(readOffset + base)
      ensures Valid()
    {
      hide StagedAt, Wrap, Stored;
      StagedStart(readOffset);
      NothingStored();
    }

    lemma NothingStored()
      requires Shape() && transfer.origin == flash.cells[..] && written == [] && buffIndex == 0
      requires readOffset == transfer.start < 0x1_0000 && flashWriteAddr == Wrap(readOffset + base)
      ensures InFlash(transfer) ==> Stored()
    {
    }

    method StartRead(offset: nat, end: nat, kind: bv8)
      requires Valid() && !usbWrite && !usbWriteAccepted && offset < 0x1_0000 && end < 0x1_0000
      modifies this`state, this`readOffset, this`readEnd, this`readType
      ensures Valid() && state == ReadingCmd && readOffset == offset && readEnd == end && readType == kind
    {
      hide Stored, Counting;
      state := ReadingCmd;
      readOffset, readEnd, readType := offset, end, kind;
    }

    method StartEeprom(offset: nat, end: nat)
      requires Valid() && !usbWrite && !usbWriteAccepted && offset < 0x1_0000 && end < 0x1_0000
      modifies this`state, this`readOffset, this`readEnd
      ensures Valid() && state == WriteEeprom && readOffset == offset && readEnd == end
    {
      hide Stored, Counting;
      state := WriteEeprom;
      readOffset, readEnd := offset, end;
    }

    /** A protocol error outside a WRITE leaves the interpreter idle. */
    method ProtocolError()
      requires Valid() && state != Writing
      modifies report, this`state
      ensures Valid() && state == Idle
      ensures report[..] == Failed(old(report[..]), ERR_PROTOCOL)
    {
      hide Stored, Counting;
      state := Idle;
      ReportError(ERR_PROTOCOL);
    }

    /** What a command does. WRITE and READ begin a transfer, from the idle state only; so do the
        PIN and keyboard commands, from any state; the others change no more than the answer. */
    ghost predicate Commanded(data: seq<bv8>, before: State)
      requires report.Length == 8 && |data| == 8
      reads this, report, flash.cells
    {
      if data[0] == 3 && before == Idle then
        && state == Writing && report[..] == data
        && transfer.start == Value(data[1]) + 256 * Value(data[2])
        && transfer.len == Value(data[3]) + 256 * Value(data[4]) && transfer.origin == flash.cells[..]
        && readOffset == transfer.start && readEnd == Wrap(transfer.start + transfer.len)
        && polled == [] && written == [] && !spoiled
      else if data[0] == 2 && before == Idle then
        && state == ReadingCmd && report[..] == data && readType == data[5]
        && readOffset == Value(data[1]) + 256 * Value(data[2])
        && readEnd == Wrap(readOffset + (Value(data[3]) + 256 * Value(data[4])))
      else if data[0] == 3 || data[0] == 2 then
        state == Idle && report[..] == Failed(data, 0xF5)
      else if data[0] == 7 then
        && state == WriteEeprom && report[..] == data && lockAfterSetPin
        && readOffset == layout.lockHash && readEnd == Wrap(layout.lockHash + 16)
      else if data[0] == 8 then
        && state == ReadingCmd && report[..] == data && readType == 2
        && readOffset == layout.lockHash && readEnd == Wrap(layout.lockHash + 16)
      else if data[0] == 9 then
        && state == WriteEeprom && report[..] == data
        && readOffset == layout.keyboard && readEnd == Wrap(layout.keyboard + layout.keyboardSize)
      else
        && state == before
        && report[..] == if data[0] == 5 then [5] + layout.info
                         else if data[0] == 1 || data[0] == 4 then data
                         else Failed(data, 0xF2)
    }

    /** A command from a state that accepts commands. */
    method Command(data: seq<bv8>)
      requires Valid() && |data| == 8 && report[..] == data
      requires state == Idle || state == ReadingCmd || state == Reading
      modifies report, this`state, this`readOffset, this`readEnd, this`readType, this`buffIndex
      modifies this`flashWriteAddr, this`lockAfterSetPin
      modifies this`transfer, this`polled, this`written, this`spoiled
      ensures Valid() && !usbWrite && !usbWriteAccepted && Commanded(data, old(state))
    {
      hide Stored, Counting, Wrap, Value;
      if data[0] == CMD_RESET || data[0] == CMD_DATA {
      } else if data[0] == CMD_READ {
        if state == Idle {
          StartRead(Field(data, 1), Wrap(Field(data, 1) + Field(data, 3)), data[5]);
        } else {
          ProtocolError();
        }
      } else if data[0] == CMD_WRITE {
        if state == Idle {
          StartWrite(data);
        } else {
          ProtocolError();
        }
      } else if data[0] == CMD_SET_PIN {
        StartEeprom(layout.lockHash, Wrap(layout.lockHash + 16));
        lockAfterSetPin := true;
      } else if data[0] == CMD_READ_PIN {
        StartRead(layout.lockHash, Wrap(layout.lockHash + 16), 2);
      } else if data[0] == CMD_KEYBOARD {
        StartEeprom(layout.keyboard, Wrap(layout.keyboard + layout.keyboardSize));
      } else if data[0] == CMD_INFO {
        ReportInfo();
      } else {
        ReportError(ERR_CMD);
      }
    }

    method ReportInfo()
      requires report.Length == 8 && |layout.info| == 7
      modifies report
      ensures report[..] == [old(report[0])] + layout.info
    {
      var i := 0;
      while i < 7
        invariant i <= 7 && report[0] == old(report[0])
        invariant report[1..1 + i] == layout.info[..i]
      {
        report[1 + i] := layout.info[i];
        i := i + 1;
      }
      assert report[..] == [report[0]] + report[1..8];
    }

    /** The EEPROM commands' data packets. The store to the EEPROM itself is not modelled. */
    method DecodeEeprom()
      requires Valid() && state == WriteEeprom
      modifies report, this`state, this`readOffset, this`lockAfterSetPin
      ensures Valid()
      ensures EepromTaken(old(readOffset), old(lockAfterSetPin), old(report[..]))
    {
      hide Stored, Counting, Wrap;
      if readOffset < readEnd {
        readOffset := Wrap(readOffset + 8);
        if readOffset >= readEnd {
          if lockAfterSetPin {
            lockAfterSetPin := false;
          } else {
            state := Idle;
          }
        }
      } else {
        ProtocolError();
      }
    }

    /** A packet is taken while bytes are wanted. The last one ends the command, or after a new
        PIN only the wish to lock. */
    predicate EepromTaken(offset: nat, locking: bool, packet: seq<bv8>)
      requires report.Length == 8 && |packet| == 8
      reads this, report
    {
      if offset < readEnd then
        && report[..] == packet && readOffset == Wrap(offset + 8)
        && state == (if readOffset >= readEnd && !locking then Idle else WriteEeprom)
        && lockAfterSetPin == (locking && readOffset < readEnd)
      else
        && report[..] == Failed(packet, ERR_PROTOCOL) && readOffset == offset
        && state == Idle && lockAfterSetPin == locking
    }

    /** A packet of another size, or for a locked device: only the answer changes. */
    method Refuse(data: seq<bv8>, code: bv8)
      requires Valid() && |data| == 8
      modifies report, this`spoiled
      ensures Valid() && report[..] == Failed(data, code)
      ensures !usbWrite ==> spoiled == old(spoiled)
    {
      hide Stored, Counting;
      Report(data);
      ReportError(code);
      spoiled := spoiled || usbWrite;
    }

    /** A data packet of a WRITE: taken when none is pending and bytes are still wanted;
        otherwise the WRITE is over, and neither this packet nor a pending one is written. */
    method DecodeWriting(data: seq<bv8>)
      requires Valid() && |data| == 8 && state == Writing
      modifies report, this`state, this`usbWrite, this`usbWriteAccepted
      ensures Valid() && !usbWrite
      ensures (if !old(usbWrite) && readOffset < readEnd then
                 state == Writing && usbWriteAccepted && report[..] == data
               else
                 state == Idle && !usbWriteAccepted && report[..] == Failed(data, ERR_PROTOCOL))
    {
      hide Stored, Counting;
      if !usbWrite && readOffset < readEnd {
        Report(data);
        usbWriteAccepted := true;
      } else {
        state := Idle;
        Report(data);
        ReportError(ERR_PROTOCOL);
        usbWriteAccepted, usbWrite := false, false;
      }
    }

    /** UCP_Decode. It never touches the flash. */
    method UcpDecode(data: seq<bv8>, len: nat)
      requires Valid() && |data| == 8
      modifies report, this`state, this`readOffset, this`readEnd, this`readType, this`buffIndex
      modifies this`flashWriteAddr, this`usbWrite, this`usbWriteAccepted, this`lockAfterSetPin
      modifies this`transfer, this`polled, this`written, this`spoiled
      ensures Valid()
      ensures len != 8 ==> report[..] == Failed(data, 0xF4)
      ensures len == 8 && old(state) == Locked ==> report[..] == Failed(data, 0xF6)
      ensures (len != 8 || old(state) == Locked ==>
                && state == old(state) && readOffset == old(readOffset) && readEnd == old(readEnd)
                && usbWrite == old(usbWrite) && usbWriteAccepted == old(usbWriteAccepted))
      ensures (len == 8 && old(state) == Writing ==>
                && !usbWrite
                && if old(!usbWrite && readOffset < readEnd) then
                     state == Writing && usbWriteAccepted && report[..] == data
                   else
                     state == Idle && !usbWriteAccepted && report[..] == Failed(data, 0xF5))
      ensures (old(state) == Writing ==>
                && readOffset == old(readOffset) && readEnd == old(readEnd) && buffIndex == old(buffIndex)
                && transfer == old(transfer) && polled == old(polled) && written == old(written)
                && (len == 8 ==> spoiled == old(spoiled)))
      ensures (len == 8 && old(state) == WriteEeprom ==>
                EepromTaken(old(readOffset), old(lockAfterSetPin), data))
      ensures (len == 8 && old(state == Idle || state == ReadingCmd || state == Reading) ==>
                Commanded(data, old(state)) && !usbWrite && !usbWriteAccepted)
    {
      hide Stored, Counting, Wrap, Value;
      if len != 8 {
        Refuse(data, ERR_SIZE);
      } else if state == Locked {
        Refuse(data, ERR_LOCKED);
      } else if state == Writing {
        DecodeWriting(data);
      } else {
        Report(data);
        if state == WriteEeprom {
          DecodeEeprom();
        } else {
          Command(data);
        }
      }
    }

    // ------------------------------------------------------------ polls from the host

    /** memcpy_P of eight bytes; the flash repeats beyond its length. */
    method CopyFlash(address: nat)
      requires Shape() && flash.Valid()
      modifies report
      ensures report[..] == Chunk(flash.cells[..], address)
    {
      hide CellAt;
      var i := 0;
      while i < 8
        invariant i <= 8
        invariant forall k :: 0 <= k < i ==> report[k] == Chunk(flash.cells[..], address)[k]
      {
        report[i] := CellAt(flash.cells[..], address + i);
        i := i + 1;
      }
    }

    method PollReading(other: seq<bv8>)
      requires Valid() && state == Reading && |other| == 8
      modifies report, this`state, this`readOffset
      ensures Valid()
      ensures (old(readOffset) < readEnd ==>
                && readOffset == Wrap(old(readOffset) + 8)
                && state == (if readOffset >= readEnd then Idle else Reading)
                && (readType != 0 ==> report[..] == other)
                && (readType == 0 ==> report[..] == Chunk(flash.cells[..], base + old(readOffset))))
      ensures (old(readOffset) >= readEnd ==>
                && state == Idle && readOffset == old(readOffset)
                && report[..] == Failed(old(report[..]), ERR_PROTOCOL))
    {
      hide Stored, Counting, Wrap;
      if readOffset < readEnd {
        if readType == 0 {
          CopyFlash(base + readOffset);
        } else {
          Report(other);
        }
        readOffset := Wrap(readOffset + 8);
        if readOffset >= readEnd {
          state := Idle;
        }
      } else {
        state := Idle;
        ReportError(ERR_PROTOCOL);
      }
    }

    /** UCP_Task. `other` is what RAM or EEPROM holds at readOffset. A poll turns an accepted
        packet into a write for the main loop. */
    method UcpTask(other: seq<bv8>)
      requires Valid() && |other| == 8
      modifies report, this`state, this`readOffset, this`usbWrite, this`usbWriteAccepted, this`polled
      ensures Valid()
      ensures old(state) == ReadingCmd ==> state == Reading && report[..] == old(report[..])
      ensures (old(state) == Reading && old(readOffset) < readEnd ==>
                && readOffset == Wrap(old(readOffset) + 8)
                && state == (if readOffset >= readEnd then Idle else Reading)
                && (readType != 0 ==> report[..] == other)
                && (readType == 0 ==> report[..] == Chunk(flash.cells[..], base + old(readOffset))))
      ensures (old(state) == Reading && old(readOffset) >= readEnd ==>
                && state == Idle && readOffset == old(readOffset)
                && report[..] == Failed(old(report[..]), ERR_PROTOCOL))
      ensures old(state) != Reading ==> readOffset == old(readOffset) && report[..] == old(report[..])
      ensures (if old(state) == Writing && old(usbWriteAccepted) then
                 state == Writing && usbWrite && !usbWriteAccepted && polled == old(polled) + report[..]
               else
                 usbWrite == old(usbWrite) && usbWriteAccepted == old(usbWriteAccepted) && polled == old(polled))
      ensures old(state) != Reading && old(state) != ReadingCmd ==> state == old(state)
    {
      hide Stored, Counting, Wrap;
      if state == ReadingCmd {
        state := Reading;
      } else if state == Reading {
        PollReading(other);
      } else if state == Writing {
        if usbWriteAccepted {
          usbWrite := true;
          usbWriteAccepted := false;
          polled := polled + report[..];
        }
      }
    }
  }
}
