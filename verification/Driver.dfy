/** The USB driver's handshake between the interrupt routine and the main loop. The interrupt
    routine is atomic; the main loop's statements are not, so between any two of them the bus
    may deliver any packets. What arrives when is the schedule: one list of packets for each
    gap between statements. Whatever it is, the driver is the machine of module Device: a ghost
    log grows by what happens, and registers and buffers agree with the machine's state. */
module Driver {
  import opened Avr
  import opened Crc
  import opened CrcCode
  import opened Transfer
  import opened Device

  predicate SensibleRound(r: Round) {
    Sensible(r.env) && |r.report| >= 1
  }

  predicate Sensible(env: Environment) {
    env.outcome.Reply? ==> env.outcome.len < NO_MSG
  }

  /** How many bytes a do-while loop moves whose eight-bit counter starts at i. */
  function Copies(i: nat): (n: nat)
    requires i < 256
    decreases if i == 0 then 256 else i
  {
    1 + if Sub8(i, 1) > 0 then Copies(Sub8(i, 1)) else 0
  }

  lemma {:induction false} CopiesLen(len: nat)
    requires len < 256
    ensures Copies(len) == if len == 0 then 256 else len
    decreases if len == 0 then 256 else len
  {
    if len != 1 {
      CopiesLen(Sub8(len, 1));
    }
  }

  /** The copy of a report stays behind the identifier in its eleven bytes if and only if there
      is something to copy, and no more than ten bytes. */
  lemma CopyFits(len: nat)
    requires len < 256
    ensures 1 + Copies(len) <= 11 <==> 1 <= len <= 10
  {
    CopiesLen(len);
  }

  lemma NoArrivals(log: seq<Event>)
    ensures OnlyArrivals(log, log)
  {
  }

  /** Bit 4 of a length byte: a handshake identifier, so the slot belongs to the main loop. */
  predicate Bit4(len: nat) {
    len / 16 % 2 == 1
  }

  predicate Full(len: nat) {
    4 <= len <= 12
  }

  predicate GoodLength(len: nat) {
    len == NAK || len == STALL || Full(len)
  }

  lemma Bit4IsHandshake(len: nat)
    requires GoodLength(len)
    ensures Bit4(len) <==> !Full(len)
  {
  }

  /** What an IN gets from a slot. */
  function Offered(len: nat, buffer: seq<bv8>): Answer
    requires |buffer| == 11
  {
    if Full(len) then Data(buffer[..len - 1]) else Handshake(len)
  }

  function Flatten<T>(s: seq<seq<T>>): seq<T> {
    if s == [] then [] else s[0] + Flatten(s[1..])
  }

  lemma {:induction false} FlattenAppend<T>(s: seq<seq<T>>, t: seq<T>)
    ensures Flatten(s + [t]) == Flatten(s) + t
  {
    if s == [] {
      assert [t][1..] == [];
    } else {
      FlattenAppend(s[1..], t);
      assert (s + [t])[1..] == s[1..] + [t];
    }
  }

  /** What the two sides share, as the main loop sees it. */
  datatype View = View(log: seq<Event>, rxLen: nat, rxToken: bv8, offset: nat, half: seq<bv8>,
                       txLen: nat, txLen1: nat)

  /** What interrupts may do between two statements of the main loop: nothing while a received
      packet is unprocessed, and nothing to a slot that is not full. */
  predicate OnlyInterrupts(a: View, b: View) {
    && OnlyArrivals(a.log, b.log)
    && (a.rxLen > 0 ==> b == a.(log := b.log))
    && (!Full(a.txLen) ==> b.txLen == a.txLen)
    && (!Full(a.txLen1) ==> b.txLen1 == a.txLen1)
  }

  lemma InterruptsCompose(a: View, b: View, c: View)
    requires OnlyInterrupts(a, b) && OnlyInterrupts(b, c)
    ensures OnlyInterrupts(a, c)
  {
    hide Full, OnlyArrivals;
    OnlyArrivalsCompose(a.log, b.log, c.log);
  }

  class Usb {
    const rxBuf: array<bv8>
    const txBuf: array<bv8>
    const txBuf1: array<bv8>
    const memory: nat -> bv8

    // shared with the interrupt routine
    var usbInputBufOffset: nat
    var usbRxLen: nat
    var usbRxToken: bv8
    var usbCurrentTok: bv8
    var usbTxLen: nat
    var usbTxLen1: nat
    var usbNewDeviceAddr: bv8
    var usbDeviceAddr: bv8

    // main loop only
    var usbConfiguration: bv8
    var usbMsgPtr: Pointer
    var usbMsgLen: nat
    var userRw: bool

    // the bus
    var schedule: seq<seq<seq<bv8>>>
    ghost const arrivals: seq<seq<bv8>>  // every packet of the schedule

    ghost var log: seq<Event>            // what happened since power-on
    ghost var actions: seq<Event>        // the main loop's part of it
    ghost var mine: State                // the machine after the main loop's last action

    // ------------------------------------------------------------ invariants

    predicate Shape() {
      && rxBuf.Length == 22 && txBuf.Length == 11 && txBuf1.Length == 11
      && rxBuf != txBuf && rxBuf != txBuf1 && txBuf != txBuf1
    }

    /** The machine after all that happened. */
    ghost function Now(): State
      reads this`log
    {
      After(memory, log)
    }

    /** The half of the receive buffer that the main loop reads. */
    ghost function MainHalf(): (r: seq<bv8>)
      requires Shape()
      reads this`usbInputBufOffset, rxBuf
      ensures |r| == 11
    {
      if usbInputBufOffset == 0 then rxBuf[11..] else rxBuf[..11]
    }

    lemma HalfIsBehindPointer(n: nat)
      requires Shape() && (usbInputBufOffset == 0 || usbInputBufOffset == 11) && 3 <= n <= 11
      ensures MainHalf()[1..n - 2] == rxBuf[12 - usbInputBufOffset..12 - usbInputBufOffset + n - 3]
    {
      var p := 12 - usbInputBufOffset;
      var a, b := MainHalf()[1..n - 2], rxBuf[p..p + n - 3];
      forall i | 0 <= i < n - 3
        ensures a[i] == b[i]
      {
        assert a[i] == MainHalf()[1 + i] == rxBuf[p + i] == b[i];
      }
    }

    /** The message in that half. */
    ghost function Held(): Message
      requires Shape() && 3 <= usbRxLen <= 11
      reads this`usbInputBufOffset, this`usbRxLen, this`usbRxToken, rxBuf
    {
      Message(usbRxToken, MainHalf()[1..usbRxLen - 2])
    }

    lemma HeldBehindPointer()
      requires Shape() && (usbInputBufOffset == 0 || usbInputBufOffset == 11) && 3 <= usbRxLen <= 11
      ensures Held() == Message(usbRxToken,
                rxBuf[12 - usbInputBufOffset..12 - usbInputBufOffset + usbRxLen - 3])
    {
      HalfIsBehindPointer(usbRxLen);
    }

    /** The receive buffer is the machine's. */
    ghost predicate RxSafe()
      reads this`usbInputBufOffset, this`usbRxLen, this`usbRxToken, this`log, this`mine, rxBuf
    {
      && Shape()
      && (usbInputBufOffset == 0 || usbInputBufOffset == 11)
      && (usbRxLen == 0 || 4 <= usbRxLen <= 11)
      && Now().buffer == if usbRxLen == 0 then Empty else if mine.buffer.Busy? then Busy else Waiting(Held())
    }

    /** The slots offer, and the address to take is, what a state of the machine says. */
    ghost predicate Offers(d: State)
      requires Shape()
      reads this`usbTxLen, this`usbTxLen1, this`usbNewDeviceAddr, txBuf, txBuf1
    {
      && Offered(usbTxLen, txBuf[..]) == d.slot0
      && Offered(usbTxLen1, txBuf1[..]) == d.slot1
      && usbNewDeviceAddr == d.plan.newAddress
    }

    /** So they do, except while a message is in process: then nothing is sent. */
    ghost predicate TxSafe()
      reads this`usbTxLen, this`usbTxLen1, this`usbNewDeviceAddr, this`log, this`mine, txBuf, txBuf1
    {
      && Shape()
      && GoodLength(usbTxLen) && GoodLength(usbTxLen1)
      && (!mine.buffer.Busy? ==> Offers(Now()))
    }

    /** The log is complete, and nothing but packets came after the last action. */
    ghost predicate Traced()
      reads this`usbCurrentTok, this`usbDeviceAddr, this`log, this`mine, this`actions
    {
      && Now().token == usbCurrentTok && Now().address == usbDeviceAddr
      && Drifts(mine, Now()) && actions == Actions(log)
    }

    ghost predicate Sound()
      reads this`usbInputBufOffset, this`usbRxLen, this`usbRxToken, this`usbCurrentTok, this`usbDeviceAddr
      reads this`usbTxLen, this`usbTxLen1, this`usbNewDeviceAddr, this`log, this`mine, this`actions
      reads rxBuf, txBuf, txBuf1
      ensures Sound() ==> Shape() && (usbRxLen == 0 || 4 <= usbRxLen <= 11) && usbInputBufOffset <= 11
    {
      RxSafe() && TxSafe() && Traced()
    }

    /** Every packet of the schedule has arrived or will. */
    ghost predicate Listening()
      reads this`log, this`schedule
    {
      Arrivals(log) + Flatten(schedule) == arrivals
    }

    ghost predicate Safe()
      reads this`usbInputBufOffset, this`usbRxLen, this`usbRxToken, this`usbCurrentTok, this`usbDeviceAddr
      reads this`usbTxLen, this`usbTxLen1, this`usbNewDeviceAddr, this`log, this`mine, this`actions
      reads this`schedule, rxBuf, txBuf, txBuf1
      ensures Safe() ==> Shape() && (usbRxLen == 0 || 4 <= usbRxLen <= 11) && usbInputBufOffset <= 11
    {
      Sound() && Listening()
    }

    ghost function Look(): View
      requires Shape()
      reads this`log, this`usbRxLen, this`usbRxToken, this`usbInputBufOffset, this`usbTxLen, this`usbTxLen1, rxBuf
    {
      View(log, usbRxLen, usbRxToken, usbInputBufOffset, MainHalf(), usbTxLen, usbTxLen1)
    }

    // ------------------------------------------------------------ interrupt routine

    /** The receiver's stores through Y. */
    method Store(arrival: seq<bv8>) returns (cnt: nat)
      requires Shape() && usbInputBufOffset <= 11 && |arrival| <= 11
      modifies rxBuf
      ensures cnt == |arrival|
      ensures rxBuf[..usbInputBufOffset] == old(rxBuf[..usbInputBufOffset])
      ensures rxBuf[usbInputBufOffset..usbInputBufOffset + cnt] == arrival
      ensures rxBuf[usbInputBufOffset + cnt..] == old(rxBuf[usbInputBufOffset + cnt..])
    {
      var y := usbInputBufOffset;
      cnt := 0;
      while cnt < |arrival|
        invariant cnt <= |arrival|
        invariant rxBuf[..y] == old(rxBuf[..y])
        invariant forall i :: 0 <= i < cnt ==> rxBuf[y + i] == arrival[i]
        invariant rxBuf[y + cnt..] == old(rxBuf[y + cnt..])
      {
        rxBuf[y + cnt] := arrival[cnt];
        cnt := cnt + 1;
      }
    }

    /** A packet is in the half that the receiver fills, behind it what was there before. */
    ghost predicate Received(arrival: seq<bv8>, stale: Stale)
      requires Shape()
      reads this`usbInputBufOffset, rxBuf
    {
      && usbInputBufOffset <= 11
      && (forall i :: 0 <= i < 3 ==> rxBuf[usbInputBufOffset + i] == Front(arrival, stale, i))
      && (4 <= |arrival| <= 11 ==>
            rxBuf[usbInputBufOffset + 1..usbInputBufOffset + |arrival| - 2] == Payload(arrival))
    }

    /** The receiver fills its half, eleven bytes at most, and nothing else. */
    method Receive(arrival: seq<bv8>) returns (cnt: nat, ghost stale: Stale)
      requires Sound()
      modifies rxBuf
      ensures cnt == (if |arrival| <= 11 then |arrival| else 11)
      ensures Sound() && Look() == old(Look()) && Received(arrival, stale)
      ensures stale == old(rxBuf[usbInputBufOffset..usbInputBufOffset + 3])
    {
      hide TxSafe, Traced, Payload, After;
      ghost var before, y := rxBuf[..], usbInputBufOffset;
      stale := before[y..y + 3];
      ghost var stored := if |arrival| <= 11 then arrival else arrival[..11];
      cnt := Store(if |arrival| <= 11 then arrival else arrival[..11]);
      SameHalf(before, rxBuf[..], y, cnt);
      WhatIsRead(before, rxBuf[..], y, arrival, stored, stale);
    }

    static lemma SameHalf(a: seq<bv8>, b: seq<bv8>, y: nat, cnt: nat)
      requires |a| == |b| == 22 && cnt <= 11 && (y == 0 || y == 11)
      requires b[..y] == a[..y] && b[y + cnt..] == a[y + cnt..]
      ensures if y == 0 then b[11..] == a[11..] else b[..11] == a[..11]
    {
      if y == 0 {
        assert b[11..] == b[cnt..][11 - cnt..] && a[11..] == a[cnt..][11 - cnt..];
      }
    }

    static lemma WhatIsRead(before: seq<bv8>, after: seq<bv8>, y: nat, arrival: seq<bv8>, stored: seq<bv8>,
                            stale: Stale)
      requires |before| == |after| == 22 && y <= 11 && stale == before[y..y + 3]
      requires stored == if |arrival| <= 11 then arrival else arrival[..11]
      requires after[y..y + |stored|] == stored && after[y + |stored|..] == before[y + |stored|..]
      ensures forall i :: 0 <= i < 3 ==> after[y + i] == Front(arrival, stale, i)
      ensures 4 <= |arrival| <= 11 ==> after[y + 1..y + |arrival| - 2] == Payload(arrival)
    {
      hide Payload;
      StaleBehind(before, after, y, stored, stale);
      assert forall i :: 0 <= i < 3 ==> Front(stored, stale, i) == Front(arrival, stale, i);
      if 4 <= |arrival| <= 11 {
        PayloadAt(after, y, arrival);
      }
    }

    static lemma StaleBehind(before: seq<bv8>, after: seq<bv8>, y: nat, stored: seq<bv8>, stale: Stale)
      requires |before| == |after| == 22 && y <= 11 && |stored| <= 11 && stale == before[y..y + 3]
      requires after[y..y + |stored|] == stored && after[y + |stored|..] == before[y + |stored|..]
      ensures forall i :: 0 <= i < 3 ==> after[y + i] == Front(stored, stale, i)
    {
      forall i | 0 <= i < 3
        ensures after[y + i] == Front(stored, stale, i)
      {
        if i < |stored| {
          assert after[y..y + |stored|][i] == after[y + i];
        } else {
          assert after[y + |stored|..][i - |stored|] == before[y + |stored|..][i - |stored|];
        }
      }
    }

    static lemma PayloadAt(buffer: seq<bv8>, y: nat, arrival: seq<bv8>)
      requires |buffer| == 22 && y <= 11 && 4 <= |arrival| <= 11 && buffer[y..y + |arrival|] == arrival
      ensures buffer[y + 1..y + |arrival| - 2] == Payload(arrival)
    {
      var a, n := buffer[y + 1..y + |arrival| - 2], |arrival|;
      assert forall i :: 0 <= i < |a| ==> a[i] == buffer[y + 1 + i] == buffer[y..y + n][1 + i] == arrival[1 + i];
    }

    /** The arrival is written down. */
    ghost method Write(arrival: seq<bv8>, stale: Stale)
      requires actions == Actions(log) && Drifts(mine, Now())
      modifies this`log
      ensures log == old(log) + [Arrives(arrival, stale)]
      ensures Now() == Deliver(old(Now()), arrival, stale)
      ensures actions == Actions(log) && Drifts(mine, Now())
    {
      hide Drifts, Deliver, After, Actions, Arrivals;
      DeliverDrifts(mine, Now(), arrival, stale);
      OneMoreEvent(memory, log, Arrives(arrival, stale));
      OneMoreListed(log, Arrives(arrival, stale));
      log := log + [Arrives(arrival, stale)];
    }

    /** The end of an interrupt that changes nothing. */
    ghost method Pass(arrival: seq<bv8>, stale: Stale)
      requires Sound() && Deliver(Now(), arrival, stale) == Now()
      modifies this`log
      ensures Sound() && OnlyInterrupts(old(Look()), Look())
      ensures log == old(log) + [Arrives(arrival, stale)]
    {
      hide Deliver, After, Held, Offered, Actions, Drifts;
      Write(arrival, stale);
    }

    /** The end of one that stores the token. */
    method StoreToken(token: bv8, ghost arrival: seq<bv8>, ghost stale: Stale)
      requires Sound() && Deliver(Now(), arrival, stale) == Now().(token := token)
      modifies this`usbCurrentTok, this`log
      ensures Sound() && OnlyInterrupts(old(Look()), Look())
      ensures log == old(log) + [Arrives(arrival, stale)] && usbCurrentTok == token
    {
      hide Deliver, After, Held, Offered, Actions, Drifts;
      Write(arrival, stale);
      usbCurrentTok := token;
    }

    /** The packet becomes the message held, and the receiver gets the other half. */
    method Accept(cnt: nat, ghost arrival: seq<bv8>, ghost stale: Stale)
      requires Sound() && cnt == |arrival| && 4 <= cnt <= 11
      requires Received(arrival, stale) && Keeps(Now(), arrival, stale)
      modifies this`usbRxLen, this`usbRxToken, this`usbInputBufOffset, this`log
      ensures Sound() && OnlyInterrupts(old(Look()), Look())
      ensures log == old(log) + [Arrives(arrival, stale)] && usbRxLen == cnt
    {
      hide After, Offered, Actions, Drifts, MainHalf, Payload, Deliver, Keeps;
      KeptDelivers(Now(), arrival, stale);
      EmptyStays(mine, Now());
      Write(arrival, stale);
      usbRxLen := cnt;
      usbRxToken := usbCurrentTok;
      usbInputBufOffset := 11 - usbInputBufOffset;
      HeldBehindPointer();
    }

    /** A data packet: without a token before it, ignored; with the buffer occupied, refused;
        empty, acknowledged and dropped; otherwise acknowledged and kept. */
    method HandleData(cnt: nat, ghost arrival: seq<bv8>, ghost stale: Stale) returns (answer: Answer)
      requires Sound() && cnt == |arrival| <= 11 && Received(arrival, stale) && IsToken(Front(arrival, stale, 0))
      modifies this`usbRxLen, this`usbRxToken, this`usbInputBufOffset, this`log
      ensures Sound() && OnlyInterrupts(old(Look()), Look())
      ensures log == old(log) + [Arrives(arrival, stale)] && answer == AnswerTo(old(Now()), arrival, stale)
      ensures answer == (if usbCurrentTok == 0 then Silence
                         else Handshake(if old(usbRxLen) != 0 then NAK else ACK))
    {
      hide Look, OnlyInterrupts, TxSafe, Drifts, After, Rol, Endpoint, ToUs, Held, Received, IsToken, Actions;
      if usbCurrentTok == 0 {
        Pass(arrival, stale);
        return Silence;
      }
      if usbRxLen != 0 {
        Pass(arrival, stale);
        return Handshake(NAK);
      }
      if cnt >= 4 {
        Accept(cnt, arrival, stale);
      } else {
        Pass(arrival, stale);
      }
      return Handshake(ACK);
    }

    /** Sending a slot's packet: its length byte becomes NAK, and because this is a data
        packet, not a handshake, the new address takes effect. */
    method SendEndpoint0(ghost arrival: seq<bv8>, ghost stale: Stale) returns (answer: Answer)
      requires Sound() && Full(usbTxLen) && usbRxLen == 0
      requires Deliver(Now(), arrival, stale)
            == Now().(address := Rol(Now().plan.newAddress, 0), slot0 := Handshake(NAK))
      modifies this`usbTxLen, this`usbDeviceAddr, this`log
      ensures Sound() && OnlyInterrupts(old(Look()), Look()) && log == old(log) + [Arrives(arrival, stale)]
      ensures answer == Data(old(txBuf[..usbTxLen - 1])) == old(Now()).slot0
      ensures usbTxLen == NAK && usbDeviceAddr == Rol(usbNewDeviceAddr, 0)
    {
      hide Rol, Deliver, After, Actions, Held, Drifts;
      EmptyStays(mine, Now());
      Write(arrival, stale);
      answer := Data(txBuf[..usbTxLen - 1]);
      assert txBuf[..][..usbTxLen - 1] == txBuf[..usbTxLen - 1];
      usbTxLen := NAK;
      usbDeviceAddr := Rol(usbNewDeviceAddr, 0);
    }

    method SendEndpoint1(ghost arrival: seq<bv8>, ghost stale: Stale) returns (answer: Answer)
      requires Sound() && Full(usbTxLen1) && usbRxLen == 0
      requires Deliver(Now(), arrival, stale)
            == Now().(address := Rol(Now().plan.newAddress, 0), slot1 := Handshake(NAK))
      modifies this`usbTxLen1, this`usbDeviceAddr, this`log
      ensures Sound() && OnlyInterrupts(old(Look()), Look()) && log == old(log) + [Arrives(arrival, stale)]
      ensures answer == Data(old(txBuf1[..usbTxLen1 - 1])) == old(Now()).slot1
      ensures usbTxLen1 == NAK && usbDeviceAddr == Rol(usbNewDeviceAddr, 0)
    {
      hide Rol, Deliver, After, Actions, Held, Drifts;
      EmptyStays(mine, Now());
      Write(arrival, stale);
      answer := Data(txBuf1[..usbTxLen1 - 1]);
      assert txBuf1[..][..usbTxLen1 - 1] == txBuf1[..usbTxLen1 - 1];
      usbTxLen1 := NAK;
      usbDeviceAddr := Rol(usbNewDeviceAddr, 0);
    }

    /** With the receive buffer free, the slots offer what the machine says. */
    lemma SlotsOffer()
      requires Sound() && usbRxLen == 0
      ensures Offered(usbTxLen, txBuf[..]) == Now().slot0 && Offered(usbTxLen1, txBuf1[..]) == Now().slot1
      ensures Bit4(usbTxLen) <==> !Full(usbTxLen)
      ensures Bit4(usbTxLen1) <==> !Full(usbTxLen1)
    {
      hide Offered, Held, After;
      Bit4IsHandshake(usbTxLen);
      Bit4IsHandshake(usbTxLen1);
    }

    /** An IN token: nothing but NAK while a received packet is unprocessed; then whatever the
        endpoint's length byte says, a handshake or a packet. */
    method HandleIn(endpoint: bv8, ghost arrival: seq<bv8>, ghost stale: Stale) returns (answer: Answer)
      requires Sound() && |arrival| <= 11 && Front(arrival, stale, 0) == IN && ToUs(Now(), arrival, stale)
      requires endpoint == Endpoint(arrival, stale)
      modifies this`usbTxLen, this`usbTxLen1, this`usbDeviceAddr, this`log
      ensures Sound() && OnlyInterrupts(old(Look()), Look())
      ensures log == old(log) + [Arrives(arrival, stale)] && answer == AnswerTo(old(Now()), arrival, stale)
      ensures usbRxLen >= 1 ==> answer == Handshake(NAK)
      ensures (usbRxLen == 0 ==>
                answer == if endpoint != 0 then
                            if Full(old(usbTxLen1)) then Data(old(txBuf1[..usbTxLen1 - 1]))
                            else Handshake(old(usbTxLen1))
                          else if Full(old(usbTxLen)) then Data(old(txBuf[..usbTxLen - 1]))
                          else Handshake(old(usbTxLen)))
    {
      hide Rol, After, Actions, Held, Look, OnlyInterrupts, Drifts, Endpoint, ToUs, Bit4, Full, TxSafe, Traced;
      InToUs(Now(), arrival, stale);
      if usbRxLen >= 1 {
        Pass(arrival, stale);
        return Handshake(NAK);
      }
      SlotsOffer();
      if endpoint != 0 {
        if Bit4(usbTxLen1) {
          Pass(arrival, stale);
          return Handshake(usbTxLen1);
        }
        answer := SendEndpoint1(arrival, stale);
      } else {
        if Bit4(usbTxLen) {
          Pass(arrival, stale);
          return Handshake(usbTxLen);
        }
        answer := SendEndpoint0(arrival, stale);
      }
    }

    /** A token or handshake packet: tokens for another address, and everything else that is
        neither IN, SETUP nor OUT, make a following data packet be ignored. */
    method HandleToken(token: bv8, ghost arrival: seq<bv8>, ghost stale: Stale) returns (answer: Answer)
      requires Sound() && |arrival| <= 11 && Received(arrival, stale)
      requires token == Front(arrival, stale, 0) && !IsToken(token)
      modifies this`usbCurrentTok, this`usbTxLen, this`usbTxLen1, this`usbDeviceAddr, this`log
      ensures Sound() && OnlyInterrupts(old(Look()), Look())
      ensures log == old(log) + [Arrives(arrival, stale)] && answer == AnswerTo(old(Now()), arrival, stale)
      ensures usbCurrentTok == (if Rol(rxBuf[usbInputBufOffset + 1], 0) != old(usbDeviceAddr) then 0
                                else if token == IN then old(usbCurrentTok)
                                else if token == SETUP || token == OUT then token else 0)
    {
      hide Rol, Top, After, Actions, Held, Look, OnlyInterrupts, Drifts, TxSafe, RxSafe, Offered;
      var shift := usbDeviceAddr;
      var x2 := rxBuf[usbInputBufOffset + 1];
      var carry := Top(x2);
      x2 := Rol(x2, 0);
      if x2 != shift {
        StoreToken(0, arrival, stale);
        return Silence;
      }
      var x3 := Rol(rxBuf[usbInputBufOffset + 2], carry);
      if token == IN {
        answer := HandleIn(x3 & 0xF, arrival, stale);
        return;
      }
      if token == SETUP || token == OUT {
        StoreToken(token, arrival, stale);
      } else {
        StoreToken(0, arrival, stale);
      }
      return Silence;
    }

    /** One packet on the bus, to the end of the answer: what the machine answers, and what it
        becomes. */
    method Interrupt(arrival: seq<bv8>) returns (answer: Answer, ghost stale: Stale)
      requires Sound()
      modifies this`usbRxLen, this`usbRxToken, this`usbInputBufOffset, this`usbCurrentTok
      modifies this`usbTxLen, this`usbTxLen1, this`usbDeviceAddr, this`log, rxBuf
      ensures Sound() && OnlyInterrupts(old(Look()), Look())
      ensures log == old(log) + [Arrives(arrival, stale)]
      ensures answer == AnswerTo(old(Now()), arrival, stale)
    {
      hide Rol, Look, OnlyInterrupts, Sound, After, Endpoint, ToUs;
      var cnt;
      cnt, stale := Receive(arrival);
      if |arrival| > 11 {
        StoreToken(0, arrival, stale);
        return Silence, stale;
      }
      var token := rxBuf[usbInputBufOffset];
      assert token == Front(arrival, stale, 0);
      if token == DATA0 || token == DATA1 {
        answer := HandleData(cnt, arrival, stale);
      } else {
        answer := HandleToken(token, arrival, stale);
      }
    }

    // ------------------------------------------------------------ main loop

    ghost function Remaining(): (r: seq<bv8>)
      requires Shape()
      reads this`usbConfiguration, this`usbMsgPtr, this`usbMsgLen, txBuf
      ensures |r| == usbMsgLen
    {
      Bytes(memory, txBuf[9..], usbConfiguration, usbMsgPtr, usbMsgLen)
    }

    /** The endpoint 0 packets still to build. */
    ghost function Unbuilt(): seq<seq<bv8>>
      requires Shape()
      reads this`usbConfiguration, this`usbMsgPtr, this`usbMsgLen, txBuf
    {
      if usbMsgLen == NO_MSG then [] else Blocks(txBuf[0], Remaining())
    }

    /** The main loop's own variables hold a plan for endpoint 0. */
    ghost predicate Follows(plan: Plan)
      reads this`usbConfiguration, this`usbMsgPtr, this`usbMsgLen, this`userRw, txBuf
    {
      && Shape() && usbMsgLen <= NO_MSG
      && Unbuilt() == plan.rest && txBuf[0] == plan.last
      && userRw == plan.user && usbConfiguration == plan.configuration
      && (usbMsgLen != NO_MSG ==> Lasting(usbMsgPtr, usbMsgLen))
    }

    /** Endpoint 0 between two statements of usbPoll that do not concern it. */
    ghost predicate Settled()
      reads this`usbConfiguration, this`usbMsgPtr, this`usbMsgLen, this`userRw, this`mine, txBuf
    {
      Follows(mine.plan)
    }

    /** Endpoint 1's buffer holds the last identifier used. */
    ghost predicate Settled1()
      reads this`mine, txBuf1
    {
      Shape() && txBuf1[0] == mine.plan.last1
    }

    /** An action of the main loop is written down. */
    ghost method Act(e: Event)
      requires Traced() && Listening() && !e.Arrives?
      modifies this`log, this`mine, this`actions
      ensures log == old(log) + [e] && actions == old(actions) + [e] && mine == Now()
      ensures mine == Step(memory, old(Now()), e)
      ensures actions == Actions(log) && Listening() && Drifts(mine, Now())
    {
      hide After, Seen, Step, Noted, Actions, Arrivals, Drifts;
      OneMoreEvent(memory, log, e);
      OneMoreListed(log, e);
      log, actions := log + [e], actions + [e];
      mine := Now();
      DriftsNowhere(mine);
    }

    /** The gap between two statements. */
    method Preempt()
      requires Safe()
      modifies this`usbRxLen, this`usbRxToken, this`usbInputBufOffset, this`usbCurrentTok
      modifies this`usbTxLen, this`usbTxLen1, this`usbDeviceAddr, this`log, this`schedule, rxBuf
      ensures Safe() && OnlyArrivals(old(log), log)
      ensures !Full(old(usbTxLen)) ==> usbTxLen == old(usbTxLen)
      ensures !Full(old(usbTxLen1)) ==> usbTxLen1 == old(usbTxLen1)
      ensures (old(usbRxLen) > 0 ==>
                && usbRxLen == old(usbRxLen) && usbRxToken == old(usbRxToken)
                && usbInputBufOffset == old(usbInputBufOffset) && MainHalf() == old(MainHalf())
                && usbTxLen == old(usbTxLen) && usbTxLen1 == old(usbTxLen1))
    {
      hide Safe, OnlyArrivals, Full;
      Interrupts();
    }

    /** All packets of a gap, one after the other. */
    method Interrupts()
      requires Safe()
      modifies this`usbRxLen, this`usbRxToken, this`usbInputBufOffset, this`usbCurrentTok
      modifies this`usbTxLen, this`usbTxLen1, this`usbDeviceAddr, this`log, this`schedule, rxBuf
      ensures Safe() && OnlyInterrupts(old(Look()), Look())
      ensures schedule == if old(schedule) == [] then [] else old(schedule)[1..]
      ensures Arrivals(log) == old(Arrivals(log)) + if old(schedule) == [] then [] else old(schedule)[0]
    {
      hide Sound, OnlyInterrupts, Look, Flatten, Arrivals;
      NothingHappened();
      if schedule == [] {
        assert Arrivals(log) + [] == Arrivals(log);
        return;
      }
      ghost var heard, later := Arrivals(log), schedule[1..];
      ghost var start, all := Look(), schedule[0];
      var packets := schedule[0];
      SplitSchedule();
      schedule := schedule[1..];
      var n := 0;
      while n < |packets|
        invariant n <= |packets| && packets == all && schedule == later
        invariant Sound() && OnlyInterrupts(start, Look())
        invariant Arrivals(log) == heard + all[..n]
      {
        ghost var middle, before := Look(), log;
        var _, stale := Interrupt(packets[n]);
        InterruptsCompose(start, middle, Look());
        OneMoreListed(before, Arrives(packets[n], stale));
        assert all[..n + 1] == all[..n] + [all[n]];
        n := n + 1;
      }
      assert all[..n] == all;
    }

    lemma NothingHappened()
      requires Shape()
      ensures OnlyInterrupts(Look(), Look())
    {
    }

    lemma SplitSchedule()
      requires schedule != [] && Listening()
      ensures Arrivals(log) + schedule[0] + Flatten(schedule[1..]) == arrivals
    {
      hide Arrivals;
    }

    /** Between two interrupts the slot's owner keeps it. */
    ghost predicate Owned()
      reads this`usbInputBufOffset, this`usbRxLen, this`usbRxToken, this`usbCurrentTok, this`usbDeviceAddr
      reads this`usbTxLen, this`usbTxLen1, this`usbNewDeviceAddr, this`log, this`mine, this`actions
      reads this`schedule, rxBuf, txBuf, txBuf1
      ensures Owned() ==> Safe() && Shape() && !Full(usbTxLen)
    {
      Safe() && !Full(usbTxLen)
    }

    method OwnedGap()
      requires Owned()
      modifies this`usbRxLen, this`usbRxToken, this`usbInputBufOffset, this`usbCurrentTok
      modifies this`usbTxLen, this`usbTxLen1, this`usbDeviceAddr, this`log, this`schedule, rxBuf
      ensures Owned() && old(log) <= log && usbTxLen == old(usbTxLen)
      ensures old(usbRxLen) > 0 ==> usbRxLen > 0 && usbTxLen1 == old(usbTxLen1)
    {
      hide Safe, Full;
      Preempt();
    }

    /** A store to a transmit buffer whose slot the main loop owns. */
    method WriteTx(i: nat, b: bv8)
      requires Owned() && i < 11
      modifies txBuf
      ensures Owned()
      ensures txBuf[..] == old(txBuf[..])[i := b]
    {
      hide After, Held, Drifts, Actions, Arrivals;
      txBuf[i] := b;
    }

    /** The bytes before `data` are copied, n are to come from r. */
    ghost predicate Copied(whole: seq<bv8>, first: bv8, staged: seq<bv8>, data: nat, r: Pointer, n: nat)
      reads this`usbConfiguration, txBuf
    {
      && Shape() && 1 <= data <= 9 && txBuf[0] == first && txBuf[9..] == staged
      && whole == txBuf[1..data] + Bytes(memory, staged, usbConfiguration, r, n)
    }

    method CopyByte(data: nat, r: Pointer, ghost n: nat, ghost whole: seq<bv8>, ghost first: bv8,
                    ghost staged: seq<bv8>)
      requires Owned() && data <= 8 && n >= 1 && Copied(whole, first, staged, data, r, n)
      modifies this`usbRxLen, this`usbRxToken, this`usbInputBufOffset, this`usbCurrentTok
      modifies this`usbTxLen, this`usbTxLen1, this`usbDeviceAddr, this`log, this`schedule, rxBuf, txBuf
      ensures Owned() && old(log) <= log && usbTxLen == old(usbTxLen)
      ensures Copied(whole, first, staged, data + 1, Next(r), n - 1)
    {
      hide Owned, Safe, ByteAt, Bytes, Full;
      var c := ByteAt(memory, txBuf[9..], usbConfiguration, r);
      ghost var before := txBuf[..];
      WriteTx(data, c);
      CopyStep(before, txBuf[..], data, r, n, whole);
      OwnedGap();
    }

    /** The copy of one block into the transmit buffer, a byte at a time. */
    method UsbDeviceRead(len: nat, ghost total: nat) returns (copied: nat)
      requires Owned() && len <= 8 && len <= total
      modifies this`usbRxLen, this`usbRxToken, this`usbInputBufOffset, this`usbCurrentTok
      modifies this`usbTxLen, this`usbTxLen1, this`usbDeviceAddr, this`log, this`schedule, rxBuf, txBuf
      modifies this`usbMsgPtr
      ensures Owned() && old(log) <= log && copied == len && usbTxLen == old(usbTxLen)
      ensures Copied(old(Bytes(memory, txBuf[9..], usbConfiguration, usbMsgPtr, total)),
                     old(txBuf[0]), old(txBuf[9..]), 1 + len, usbMsgPtr, total - len)
      ensures usbMsgPtr.Outside? == old(usbMsgPtr.Outside?)
    {
      hide Owned, Safe, Copied, Bytes, Full;
      ghost var first, staged := txBuf[0], txBuf[9..];
      ghost var whole := Bytes(memory, staged, usbConfiguration, usbMsgPtr, total);
      ghost var outside := usbMsgPtr.Outside?;
      NothingCopied(total);
      copied := len;
      if len > 0 {
        var i, r, data := len, usbMsgPtr, 1;
        while i > 0
          invariant i <= len && data == 1 + len - i
          invariant Owned() && old(log) <= log && usbTxLen == old(usbTxLen)
          invariant Copied(whole, first, staged, data, r, total - (len - i)) && r.Outside? == outside
        {
          CopyByte(data, r, total - (len - i), whole, first, staged);
          data := data + 1;
          r := Next(r);
          i := i - 1;
        }
        usbMsgPtr := r;
      }
    }

    lemma NothingCopied(total: nat)
      requires Shape()
      ensures Copied(Bytes(memory, txBuf[9..], usbConfiguration, usbMsgPtr, total),
                     txBuf[0], txBuf[9..], 1, usbMsgPtr, total)
    {
      hide Bytes;
      assert txBuf[1..1] == [];
    }

    lemma CopyStep(a: seq<bv8>, b: seq<bv8>, data: nat, r: Pointer, n: nat, whole: seq<bv8>)
      requires |a| == 11 && 1 <= data <= 8 && n >= 1
      requires b == a[data := ByteAt(memory, a[9..], usbConfiguration, r)]
      requires whole == a[1..data] + Bytes(memory, a[9..], usbConfiguration, r, n)
      ensures b[0] == a[0] && b[9..] == a[9..]
      ensures whole == b[1..data + 1] + Bytes(memory, b[9..], usbConfiguration, Next(r), n - 1)
    {
      hide ByteAt;
      var c := ByteAt(memory, a[9..], usbConfiguration, r);
      var rest := Bytes(memory, a[9..], usbConfiguration, Next(r), n - 1);
      assert b[9..] == a[9..];
      assert b[1..data + 1] == a[1..data] + [c];
      assert a[1..data] + ([c] + rest) == a[1..data] + [c] + rest;
    }

    method AppendCrc(len: nat)
      requires Owned() && len <= 8
      modifies txBuf
      ensures Owned()
      ensures txBuf[0] == old(txBuf[0])
      ensures txBuf[..len + 3] == Packet(txBuf[0], old(txBuf[1..1 + len]))
    {
      hide CrcBytes, After, Held, Drifts, Actions, Arrivals;
      ghost var before := txBuf[..];
      UsbCrc16Append(txBuf, 1, len);
      assert txBuf[..1 + len] == before[..1 + len];
      assert txBuf[0] == txBuf[..1 + len][0];
      assert txBuf[..len + 3] == txBuf[..1 + len] + txBuf[1 + len..3 + len];
      assert before[..1 + len] == [before[0]] + before[1..1 + len];
    }

    /** The block itself: identifier, data, CRC. */
    method FillBlock(wantLen: nat, ghost total: nat) returns (len: nat)
      requires Owned() && wantLen <= 8 && wantLen <= total
      modifies this`usbRxLen, this`usbRxToken, this`usbInputBufOffset, this`usbCurrentTok
      modifies this`usbTxLen, this`usbTxLen1, this`usbDeviceAddr, this`log, this`schedule, rxBuf, txBuf
      modifies this`usbMsgPtr
      ensures Owned() && old(log) <= log && len == wantLen
      ensures txBuf[0] == Toggle(old(txBuf[0]))
      ensures (var whole := old(Bytes(memory, txBuf[9..], usbConfiguration, usbMsgPtr, total));
        && txBuf[..len + 3] == Packet(txBuf[0], whole[..len])
        && (usbMsgPtr.Outside? ==>
              whole[len..] == Bytes(memory, txBuf[9..], usbConfiguration, usbMsgPtr, total - len)))
      ensures usbMsgPtr.Outside? == old(usbMsgPtr.Outside?)
    {
      hide Owned, Safe, Toggle, Packet, Bytes, Full;
      ghost var whole := Bytes(memory, txBuf[9..], usbConfiguration, usbMsgPtr, total);
      WriteTx(0, Toggle(txBuf[0]));
      assert txBuf[9..] == old(txBuf[9..]);
      OwnedGap();
      ghost var staged := txBuf[9..];
      len := UsbDeviceRead(wantLen, total);
      OwnedGap();
      SplitAt(whole, txBuf[1..1 + len], Bytes(memory, staged, usbConfiguration, usbMsgPtr, total - len));
      FinishBlock(len);
      if usbMsgPtr.Outside? {
        OutsideStays(memory, staged, usbConfiguration, txBuf[9..], usbConfiguration, usbMsgPtr, total - len);
      }
    }

    static lemma SplitAt(whole: seq<bv8>, a: seq<bv8>, b: seq<bv8>)
      requires whole == a + b
      ensures whole[..|a|] == a && whole[|a|..] == b
    {
    }

    method FinishBlock(len: nat)
      requires Owned() && len <= 8
      modifies this`usbRxLen, this`usbRxToken, this`usbInputBufOffset, this`usbCurrentTok
      modifies this`usbTxLen, this`usbTxLen1, this`usbDeviceAddr, this`log, this`schedule, rxBuf, txBuf
      ensures Owned() && old(log) <= log
      ensures txBuf[0] == old(txBuf[0])
      ensures txBuf[..len + 3] == Packet(txBuf[0], old(txBuf[1..1 + len]))
    {
      hide Owned, Packet;
      AppendCrc(len);
      OwnedGap();
    }

    /** usbTxLen is written last: with it the slot goes to the interrupt routine. */
    method HandOver(len: nat)
      requires Owned() && !mine.buffer.Busy? && len <= 8
      requires mine.plan.rest != [] && mine.plan.rest[0] == txBuf[..len + 3]
      modifies this`usbTxLen, this`log, this`mine, this`actions
      ensures Safe() && Full(usbTxLen) && !mine.buffer.Busy?
      ensures log == old(log) + [Built] && actions == old(actions) + [Built]
      ensures mine.plan == old(mine.plan).(rest := old(mine.plan.rest)[1..], last := txBuf[0])
    {
      hide After, Held, Actions, Arrivals;
      assert txBuf[..][..len + 3] == txBuf[..len + 3];
      Act(Built);
      usbTxLen := len + 4;
    }

    method TakeBlock(ghost whole: seq<bv8>) returns (len: nat)
      requires Owned() && usbMsgLen == |whole|
      requires whole == Bytes(memory, txBuf[9..], usbConfiguration, usbMsgPtr, usbMsgLen)
      modifies this`usbRxLen, this`usbRxToken, this`usbInputBufOffset, this`usbCurrentTok
      modifies this`usbTxLen, this`usbTxLen1, this`usbDeviceAddr, this`log, this`schedule, rxBuf, txBuf
      modifies this`usbMsgPtr, this`usbMsgLen
      ensures Owned() && old(log) <= log
      ensures len == (if |whole| < 8 then |whole| else 8) && usbMsgLen == |whole| - len
      ensures txBuf[0] == Toggle(old(txBuf[0])) && txBuf[..len + 3] == Packet(txBuf[0], whole[..len])
      ensures usbMsgPtr.Outside? == old(usbMsgPtr.Outside?)
      ensures (usbMsgPtr.Outside? ==>
                whole[len..] == Bytes(memory, txBuf[9..], usbConfiguration, usbMsgPtr, usbMsgLen))
    {
      hide Owned, Safe, Toggle, Packet, Bytes, Full;
      ghost var staged := txBuf[9..];
      var wantLen := usbMsgLen;
      if wantLen > 8 {
        wantLen := 8;
      }
      usbMsgLen := usbMsgLen - wantLen;
      OwnedGap();
      assert txBuf[9..] == staged;
      len := FillBlock(wantLen, |whole|);
    }

    /** The next packet of the reply. The slot is not full, so the interrupt routine leaves it
        alone until its length is written. */
    method UsbBuildTxBlock()
      requires Safe() && Settled() && !mine.buffer.Busy? && !Full(usbTxLen) && usbMsgLen != NO_MSG
      modifies this`usbRxLen, this`usbRxToken, this`usbInputBufOffset, this`usbCurrentTok
      modifies this`usbTxLen, this`usbTxLen1, this`usbDeviceAddr, this`log, this`schedule, rxBuf, txBuf
      modifies this`usbMsgPtr, this`usbMsgLen, this`mine, this`actions
      ensures Safe() && Settled() && !mine.buffer.Busy? && old(log) <= log
      ensures actions == old(actions) + [Built]
      ensures mine.plan.last1 == old(mine.plan.last1)
      ensures Unbuilt() == old(Unbuilt())[1..]
    {
      hide Safe, Owned, Settled, Toggle, Packet, Bytes, Blocks, Unbuilt, Full;
      ghost var whole, token := Remaining(), txBuf[0];
      BecomeOwner();
      Opened();
      BlocksStep(token, whole);
      var len := TakeBlock(whole);
      PassBlock(len, whole, token);
    }

    /** A short block ends the message; then the slot is handed over. */
    method PassBlock(len: nat, ghost whole: seq<bv8>, ghost token: bv8)
      requires Owned() && !mine.buffer.Busy? && |whole| < NO_MSG && txBuf[0] == Toggle(token)
      requires len == (if |whole| < 8 then |whole| else 8) && usbMsgLen == |whole| - len
      requires (len == 8 ==>
                 && usbMsgPtr.Outside?
                 && whole[8..] == Bytes(memory, txBuf[9..], usbConfiguration, usbMsgPtr, usbMsgLen))
      requires mine.plan.rest == Blocks(token, whole) && Blocks(token, whole)[0] == txBuf[..len + 3]
      requires userRw == mine.plan.user && usbConfiguration == mine.plan.configuration
      modifies this`usbRxLen, this`usbRxToken, this`usbInputBufOffset, this`usbCurrentTok
      modifies this`usbTxLen, this`usbTxLen1, this`usbDeviceAddr, this`log, this`schedule, rxBuf
      modifies this`usbMsgLen, this`mine, this`actions
      ensures Safe() && Settled() && !mine.buffer.Busy? && old(log) <= log
      ensures actions == old(actions) + [Built]
      ensures mine.plan.last1 == old(mine.plan.last1)
      ensures Unbuilt() == Blocks(token, whole)[1..]
    {
      hide Safe, Owned, Settled, Toggle, Packet, Bytes, Blocks, Unbuilt, Full;
      ghost var plan := mine.plan;
      if len + 4 < 12 {
        usbMsgLen := NO_MSG;
      }
      OwnedGap();
      HandOver(len);
      BlockSettles(whole, token, len, plan);
    }

    lemma Opened()
      requires Settled() && usbMsgLen != NO_MSG
      ensures mine.plan.rest == Blocks(txBuf[0], Remaining()) == Unbuilt() && mine.plan.rest != []
      ensures usbMsgLen < NO_MSG && (usbMsgLen >= 8 ==> usbMsgPtr.Outside?)
      ensures userRw == mine.plan.user && usbConfiguration == mine.plan.configuration
    {
    }

    lemma BlockSettles(whole: seq<bv8>, token: bv8, n: nat, plan: Plan)
      requires Shape() && |whole| < NO_MSG && txBuf[0] == Toggle(token)
      requires n == if |whole| < 8 then |whole| else 8
      requires usbMsgLen == if n < 8 then NO_MSG else |whole| - 8
      requires (n == 8 ==>
                 && usbMsgPtr.Outside?
                 && whole[8..] == Bytes(memory, txBuf[9..], usbConfiguration, usbMsgPtr, |whole| - 8))
      requires plan.rest == Blocks(token, whole)
      requires userRw == plan.user && usbConfiguration == plan.configuration
      requires mine.plan == plan.(rest := plan.rest[1..], last := txBuf[0])
      ensures Settled() && Unbuilt() == Blocks(token, whole)[1..]
    {
      hide Toggle, Packet, Bytes, Blocks;
      BlocksStep(token, whole);
    }

    lemma BecomeOwner()
      requires Safe() && !Full(usbTxLen)
      ensures Owned()
    {
    }

    // ------------------------------------------------------------ received messages

    /** The main loop reads a message through a pointer into the receive buffer. */
    ghost predicate Reading(held: Message, data: nat)
      reads this`usbInputBufOffset, this`usbRxLen, this`usbRxToken, this`mine, rxBuf
    {
      && Shape() && mine.buffer.Busy? && 3 <= usbRxLen <= 11
      && (usbInputBufOffset == 0 || usbInputBufOffset == 11)
      && data == 12 - usbInputBufOffset && Held() == held
    }

    lemma ReadsHeld(held: Message, data: nat)
      requires Reading(held, data)
      ensures Shape() && data + |held.data| <= 22 && rxBuf[data..data + |held.data|] == held.data
    {
      HeldBehindPointer();
    }

    /** A gap while a message is in process: nothing is sent, so a slot keeps its length too. */
    method BusyGap(ghost held: Message, ghost data: nat)
      requires Safe() && Reading(held, data)
      modifies this`usbRxLen, this`usbRxToken, this`usbInputBufOffset, this`usbCurrentTok
      modifies this`usbTxLen, this`usbTxLen1, this`usbDeviceAddr, this`log, this`schedule, rxBuf
      ensures Safe() && Reading(held, data) && old(log) <= log
      ensures usbTxLen == old(usbTxLen) && usbTxLen1 == old(usbTxLen1)
    {
      hide Safe, Full;
      Preempt();
    }

    method ReadingGap(ghost held: Message, ghost data: nat)
      requires Owned() && Reading(held, data)
      modifies this`usbRxLen, this`usbRxToken, this`usbInputBufOffset, this`usbCurrentTok
      modifies this`usbTxLen, this`usbTxLen1, this`usbDeviceAddr, this`log, this`schedule, rxBuf
      ensures Owned() && Reading(held, data) && old(log) <= log
      ensures usbTxLen == old(usbTxLen) && usbTxLen1 == old(usbTxLen1)
    {
      hide Safe, Reading, Full;
      BusyGap(held, data);
    }

    /** SET_ADDRESS only notes the address. */
    method NoteAddress(value: bv8)
      requires Owned() && mine.buffer.Busy?
      modifies this`usbNewDeviceAddr
      ensures Owned() && usbNewDeviceAddr == value
    {
      hide After, Held, Drifts, Actions, Arrivals, Offers;
      usbNewDeviceAddr := value;
    }

    /** SET_INTERFACE restarts the toggling of endpoint 1. */
    method UsbResetDataToggling()
      requires Owned() && mine.buffer.Busy?
      modifies txBuf1
      ensures Owned() && txBuf1[..] == old(txBuf1[..])[0 := DATA1]
    {
      hide After, Held, Drifts, Actions, Arrivals, Offers;
      txBuf1[0] := DATA1;
    }

    /** The request's own work. The first staged byte is already zero. */
    method StandardRequest(request: bv8, value: bv8, outcome: Outcome) returns (len: nat, dataPtr: Pointer)
      requires Owned() && mine.buffer.Busy? && (outcome.Reply? ==> outcome.len < NO_MSG) && txBuf[9] == 0
      modifies this`usbNewDeviceAddr, this`usbConfiguration, txBuf, txBuf1
      ensures Owned() && txBuf[0] == old(txBuf[0])
      ensures len < NO_MSG && Lasting(dataPtr, len)
      ensures Bytes(memory, txBuf[9..], usbConfiguration, dataPtr, len)
           == StandardReply(request, old(usbConfiguration), memory, outcome)
      ensures usbNewDeviceAddr == if request == SET_ADDRESS then value else old(usbNewDeviceAddr)
      ensures usbConfiguration == if request == SET_CONFIGURATION then value else old(usbConfiguration)
      ensures txBuf1[..] == if request == SET_INTERFACE then old(txBuf1[..])[0 := DATA1] else old(txBuf1[..])
    {
      hide Safe, Owned, Full;
      len, dataPtr := 0, Staged(0);
      if request == GET_STATUS {
        WriteTx(10, 0);
        len := 2;
        TwoBytes(txBuf[9..]);
      } else if request == SET_ADDRESS {
        NoteAddress(value);
      } else if request == GET_DESCRIPTOR {
        if outcome.Reply? {
          len, dataPtr := outcome.len, Outside(outcome.at);
          OutsideStays(memory, txBuf[9..], usbConfiguration, [], 0, dataPtr, len);
        }
      } else if request == GET_CONFIGURATION {
        dataPtr := Configuration(0);
        len := 1;
      } else if request == SET_CONFIGURATION {
        usbConfiguration := value;
      } else if request == GET_INTERFACE {
        len := 1;
      } else if request == SET_INTERFACE {
        UsbResetDataToggling();
      }
    }

    lemma TwoBytes(staged: seq<bv8>)
      requires |staged| == 2
      ensures Bytes(memory, staged, usbConfiguration, Staged(0), 2) == staged
    {
      assert Bytes(memory, staged, usbConfiguration, Staged(1), 1) == [staged[1]];
    }

    method UsbDriverSetup(data: nat, env: Environment, ghost held: Message) returns (len: nat)
      requires Owned() && Reading(held, data) && |held.data| == 8 && Sensible(env)
      modifies this`usbRxLen, this`usbRxToken, this`usbInputBufOffset, this`usbCurrentTok
      modifies this`usbTxLen, this`usbTxLen1, this`usbDeviceAddr, this`log, this`schedule, rxBuf, txBuf
      modifies this`usbMsgPtr, this`usbNewDeviceAddr, this`usbConfiguration, txBuf1
      ensures Owned() && Reading(held, data) && txBuf[0] == old(txBuf[0]) && old(log) <= log
      ensures usbTxLen == old(usbTxLen) && usbTxLen1 == old(usbTxLen1)
      ensures len < NO_MSG && Lasting(usbMsgPtr, len)
      ensures Bytes(memory, txBuf[9..], usbConfiguration, usbMsgPtr, len)
           == StandardReply(held.data[1], old(usbConfiguration), memory, env.outcome)
      ensures usbNewDeviceAddr == if held.data[1] == SET_ADDRESS then held.data[2] else old(usbNewDeviceAddr)
      ensures usbConfiguration == if held.data[1] == SET_CONFIGURATION then held.data[2] else old(usbConfiguration)
      ensures (txBuf1[..] ==
                if held.data[1] == SET_INTERFACE then old(txBuf1[..])[0 := DATA1] else old(txBuf1[..]))
    {
      hide Safe, Owned, Bytes, StandardReply, Reading, Full;
      StillBusy(held, data);
      WriteTx(9, 0);
      ReadingGap(held, data);
      ReadsHeld(held, data);
      var request, value := rxBuf[data + 1], rxBuf[data + 2];
      assert request == held.data[1] && value == held.data[2];
      var dataPtr;
      len, dataPtr := StandardRequest(request, value, env.outcome);
      usbMsgPtr := dataPtr;
      ReadingGap(held, data);
    }

    lemma StillBusy(held: Message, data: nat)
      requires Reading(held, data)
      ensures Shape() && mine.buffer.Busy?
    {
    }

    /** A SETUP ends the transfer before it. Its pending packet cannot go out between the two
        stores, because the SETUP itself is still unprocessed. */
    method AbortPending(ghost held: Message, ghost data: nat)
      requires Safe() && Reading(held, data)
      modifies this`usbRxLen, this`usbRxToken, this`usbInputBufOffset, this`usbCurrentTok
      modifies this`usbTxLen, this`usbTxLen1, this`usbDeviceAddr, this`log, this`schedule, rxBuf, txBuf
      ensures Owned() && Reading(held, data) && txBuf[0] == DATA0 && txBuf[1..] == old(txBuf[1..])
      ensures old(log) <= log && usbTxLen == NAK && usbTxLen1 == old(usbTxLen1)
    {
      hide Safe, Reading, Full, Owned;
      StillBusy(held, data);
      RestartToggling();
      BusyGap(held, data);
      StillBusy(held, data);
      Abort();
    }

    method RestartToggling()
      requires Safe() && mine.buffer.Busy?
      modifies txBuf
      ensures Safe() && txBuf[..] == old(txBuf[..])[0 := DATA0]
    {
      hide After, Held, Drifts, Actions, Arrivals, Offers;
      txBuf[0] := DATA0;
    }

    method Abort()
      requires Safe() && mine.buffer.Busy?
      modifies this`usbTxLen
      ensures Owned() && usbTxLen == NAK
    {
      hide After, Held, Drifts, Actions, Arrivals, Offers;
      usbTxLen := NAK;
    }

    /** The request is answered: how many bytes, before wLength limits them, and where they
        are. NO_MSG when the application takes over. */
    method AnswerRequest(data: nat, env: Environment, ghost held: Message) returns (replyLen: nat)
      requires Owned() && Reading(held, data) && |held.data| == 8 && held.token == SETUP && Sensible(env)
      modifies this`usbRxLen, this`usbRxToken, this`usbInputBufOffset, this`usbCurrentTok
      modifies this`usbTxLen, this`usbTxLen1, this`usbDeviceAddr, this`log, this`schedule, rxBuf, txBuf
      modifies this`usbMsgPtr, this`usbNewDeviceAddr, this`usbConfiguration, txBuf1
      ensures Owned() && Reading(held, data) && txBuf[0] == old(txBuf[0]) && old(log) <= log
      ensures usbTxLen == old(usbTxLen) && usbTxLen1 == old(usbTxLen1)
      ensures replyLen == NO_MSG <==> !ForDriver(held.data) && env.outcome.UserWrite?
      ensures replyLen == NO_MSG ==> usbMsgPtr == Outside(env.outcome.at)
      ensures (replyLen != NO_MSG ==>
                && replyLen < NO_MSG && Lasting(usbMsgPtr, replyLen)
                && Bytes(memory, txBuf[9..], usbConfiguration, usbMsgPtr, replyLen)
                   == FullReply(held.data, old(usbConfiguration), memory, env.outcome))
      ensures usbNewDeviceAddr == if SetsAddress(held) then held.data[2] else old(usbNewDeviceAddr)
      ensures usbConfiguration == if SetsConfiguration(held) then held.data[2] else old(usbConfiguration)
      ensures txBuf1[..] == if SetsInterface(held) then old(txBuf1[..])[0 := DATA1] else old(txBuf1[..])
    {
      hide Safe, Owned, Bytes, StandardReply, Reading, Full;
      ReadsHeld(held, data);
      var kind := rxBuf[data] & 0x60;
      assert rxBuf[data] == held.data[0];
      if kind != 0 {
        usbMsgPtr := Outside(env.outcome.at);
        if env.outcome.Reply? {
          replyLen := env.outcome.len;
          OutsideStays(memory, txBuf[9..], usbConfiguration, [], 0, usbMsgPtr, replyLen);
        } else {
          replyLen := NO_MSG;
        }
      } else {
        replyLen := UsbDriverSetup(data, env, held);
      }
    }

    /** How many bytes of the reply go out. */
    method LimitReply(data: nat, replyLen: nat, ghost held: Message)
      requires Reading(held, data) && |held.data| == 8 && replyLen <= NO_MSG
      modifies this`userRw, this`usbMsgLen
      ensures (replyLen == NO_MSG ==>
                && userRw
                && usbMsgLen == if ToHost(held.data) then Value(held.data[6]) else NO_MSG)
      ensures (replyLen != NO_MSG ==>
                && userRw == old(userRw)
                && var n := Value(held.data[6]) + 256 * Value(held.data[7]);
                usbMsgLen == if replyLen <= n then replyLen else n)
    {
      hide Reading, Value;
      ReadsHeld(held, data);
      ghost var d := rxBuf[data..data + 8];
      assert d[0] == rxBuf[data] && d[6] == rxBuf[data + 6] && d[7] == rxBuf[data + 7];
      var low, high := Value(rxBuf[data + 6]), Value(rxBuf[data + 7]);
      var limited := replyLen;
      if replyLen == NO_MSG {
        if rxBuf[data] & 0x80 != 0 {
          limited := low;
        }
        userRw := true;
      } else if high == 0 && replyLen > low {
        limited := low;
      }
      usbMsgLen := limited;
    }

    /** The machine has taken a SETUP; registers and buffers are still as before. */
    ghost predicate Asked(before: State, held: Message, outcome: Outcome)
      reads this`usbConfiguration, this`usbTxLen1, this`usbNewDeviceAddr, this`mine, txBuf1
    {
      && Shape() && IsSetup(held)
      && usbConfiguration == before.plan.configuration && usbNewDeviceAddr == before.plan.newAddress
      && txBuf1[0] == before.plan.last1 && Offered(usbTxLen1, txBuf1[..]) == before.slot1
      && mine == AfterSetup(memory, before, held, outcome).(buffer := Busy)
    }

    /** A SETUP of eight bytes: in the end registers and buffers are what the machine says. */
    method ProcessSetup(data: nat, env: Environment, ghost held: Message, ghost before: State)
      requires Safe() && Reading(held, data) && Sensible(env) && Asked(before, held, env.outcome)
      modifies this`usbRxLen, this`usbRxToken, this`usbInputBufOffset, this`usbCurrentTok
      modifies this`usbTxLen, this`usbTxLen1, this`usbDeviceAddr, this`log, this`schedule, rxBuf, txBuf
      modifies this`usbMsgPtr, this`usbNewDeviceAddr, this`usbConfiguration, txBuf1
      modifies this`usbMsgLen, this`userRw
      ensures Safe() && Reading(held, data) && old(log) <= log
      ensures Offers(mine) && Settled() && Settled1()
    {
      hide Safe, Owned, Settled, Settled1, Offers, Reading, Full, Offered, AfterSetup;
      AbortPending(held, data);
      ReadingGap(held, data);
      userRw := false;
      Reply(data, env, held, before);
    }

    method Reply(data: nat, env: Environment, ghost held: Message, ghost before: State)
      requires Owned() && Reading(held, data) && Sensible(env) && Asked(before, held, env.outcome)
      requires usbTxLen == NAK && txBuf[0] == DATA0 && !userRw
      modifies this`usbRxLen, this`usbRxToken, this`usbInputBufOffset, this`usbCurrentTok
      modifies this`usbTxLen, this`usbTxLen1, this`usbDeviceAddr, this`log, this`schedule, rxBuf, txBuf
      modifies this`usbMsgPtr, this`usbNewDeviceAddr, this`usbConfiguration, txBuf1
      modifies this`usbMsgLen, this`userRw
      ensures Safe() && Reading(held, data) && old(log) <= log
      ensures Offers(mine) && Settled() && Settled1()
    {
      hide Safe, Owned, Settled, Settled1, Offers, Bytes, FullReply, Reading, ForDriver, Full, Offered, AfterSetup;
      hide SetsInterface, SetsAddress, SetsConfiguration, ToHost, WLength, Lasting, Sensible;
      var replyLen := AnswerRequest(data, env, held);
      ReadingGap(held, data);
      LimitReply(data, replyLen, held);
      LowByteFirst(held.data);
      OwnerIsSafe();
      Answered(old(txBuf1[..]), before, held, env.outcome, replyLen);
    }

    static lemma LowByteFirst(request: seq<bv8>)
      requires |request| == 8
      ensures WLength(request) == Value(request[6]) + 256 * Value(request[7])
    {
    }

    lemma OwnerIsSafe()
      requires Owned()
      ensures Safe()
    {
    }

    /** The reply cut to length is what the request promises, and everything else follows the
        request too. */
    lemma Answered(buffer1: seq<bv8>, before: State, held: Message, outcome: Outcome, replyLen: nat)
      requires Shape() && IsSetup(held) && usbTxLen == NAK && txBuf[0] == DATA0
      requires mine == AfterSetup(memory, before, held, outcome).(buffer := Busy)
      requires |buffer1| == 11 && Offered(usbTxLen1, buffer1) == before.slot1 && buffer1[0] == before.plan.last1
      requires txBuf1[..] == if SetsInterface(held) then buffer1[0 := DATA1] else buffer1
      requires usbNewDeviceAddr == if SetsAddress(held) then held.data[2] else before.plan.newAddress
      requires usbConfiguration == if SetsConfiguration(held) then held.data[2] else before.plan.configuration
      requires userRw <==> replyLen == NO_MSG
      requires replyLen == NO_MSG <==> !ForDriver(held.data) && outcome.UserWrite?
      requires (replyLen == NO_MSG ==>
                 && usbMsgPtr == Outside(outcome.at)
                 && usbMsgLen == if ToHost(held.data) then Value(held.data[6]) else NO_MSG)
      requires (replyLen != NO_MSG ==>
                 && replyLen < NO_MSG && Lasting(usbMsgPtr, replyLen)
                 && Bytes(memory, txBuf[9..], usbConfiguration, usbMsgPtr, replyLen)
                    == FullReply(held.data, before.plan.configuration, memory, outcome)
                 && usbMsgLen == if replyLen <= WLength(held.data) then replyLen else WLength(held.data))
      ensures Offers(mine) && Settled() && Settled1()
    {
      hide FullReply, ForDriver, ToHost, WLength, Offered, Restarted, Promise, Unbuilt, Lasting;
      RestartOffers(usbTxLen1, buffer1);
      NakOffers(txBuf[..]);
      assert txBuf1[0] == txBuf1[..][0];
      Promised(held.data, before.plan.configuration, outcome, replyLen);
    }

    static lemma NakOffers(buffer: seq<bv8>)
      requires |buffer| == 11
      ensures Offered(NAK, buffer) == Handshake(NAK)
    {
    }

    static lemma RestartOffers(len: nat, buffer: seq<bv8>)
      requires |buffer| == 11
      ensures Offered(len, buffer[0 := DATA1]) == Restarted(Offered(len, buffer))
    {
    }

    lemma Promised(request: seq<bv8>, configuration: bv8, outcome: Outcome, replyLen: nat)
      requires Shape() && |request| == 8 && txBuf[0] == DATA0
      requires replyLen == NO_MSG <==> !ForDriver(request) && outcome.UserWrite?
      requires (replyLen == NO_MSG ==>
                 && usbMsgPtr == Outside(outcome.at)
                 && usbMsgLen == if ToHost(request) then Value(request[6]) else NO_MSG)
      requires (replyLen != NO_MSG ==>
                 && replyLen < NO_MSG && Lasting(usbMsgPtr, replyLen)
                 && Bytes(memory, txBuf[9..], usbConfiguration, usbMsgPtr, replyLen)
                    == FullReply(request, configuration, memory, outcome)
                 && usbMsgLen == if replyLen <= WLength(request) then replyLen else WLength(request))
      ensures Unbuilt() == Promise(request, configuration, memory, outcome)
      ensures usbMsgLen <= NO_MSG && (usbMsgLen != NO_MSG ==> Lasting(usbMsgPtr, usbMsgLen))
    {
      hide FullReply, ForDriver, ToHost, WLength;
      if replyLen == NO_MSG {
        OutsideStays(memory, txBuf[9..], usbConfiguration, [], 0, usbMsgPtr, usbMsgLen);
      } else {
        BytesPrefix(memory, txBuf[9..], usbConfiguration, usbMsgPtr, replyLen, usbMsgLen);
      }
    }

    /** A control-out data packet: it matters only while the application writes. */
    method ProcessOut(data: nat, env: Environment, ghost held: Message, ghost before: State)
      requires Safe() && Reading(held, data)
      requires Offers(before) && Follows(before.plan) && txBuf1[0] == before.plan.last1
      requires mine == (if before.plan.user then AfterOut(before, env.written) else before).(buffer := Busy)
      modifies this`usbRxLen, this`usbRxToken, this`usbInputBufOffset, this`usbCurrentTok
      modifies this`usbTxLen, this`usbTxLen1, this`usbDeviceAddr, this`log, this`schedule, rxBuf
      modifies this`usbMsgLen
      ensures Safe() && Reading(held, data) && old(log) <= log
      ensures Offers(mine) && Settled() && Settled1()
    {
      hide Safe, Reading, Full, Blocks, Follows, Offers, AfterOut, Settled, Settled1;
      UserIsPlanned(before.plan);
      if userRw {
        WriteGap(held, data, before);
        if env.written == 0xFF {
          Stall(before);
        } else if env.written != 0 {
          AskEmpty(before.plan);
        }
      }
      OutAnswered(before, env.written);
    }

    /** usbFunctionWrite is called. */
    method WriteGap(ghost held: Message, ghost data: nat, ghost before: State)
      requires Safe() && Reading(held, data) && Offers(before)
      modifies this`usbRxLen, this`usbRxToken, this`usbInputBufOffset, this`usbCurrentTok
      modifies this`usbTxLen, this`usbTxLen1, this`usbDeviceAddr, this`log, this`schedule, rxBuf
      ensures Safe() && Reading(held, data) && old(log) <= log && Offers(before)
      ensures mine.buffer.Busy?
    {
      hide Safe, Reading, Full, Offered;
      StillBusy(held, data);
      BusyGap(held, data);
    }

    lemma OutAnswered(before: State, written: nat)
      requires Shape() && txBuf1[0] == before.plan.last1
      requires mine == (if before.plan.user then AfterOut(before, written) else before).(buffer := Busy)
      requires (if before.plan.user && written == 0xFF then Offers(before.(slot0 := Handshake(STALL)))
                else Offers(before))
      requires (if before.plan.user && written != 0 && written != 0xFF then
                  Follows(before.plan.(rest := Blocks(before.plan.last, [])))
                else Follows(before.plan))
      ensures Offers(mine) && Settled() && Settled1()
    {
      hide Follows, Offered, Blocks;
    }

    lemma UserIsPlanned(plan: Plan)
      requires Follows(plan)
      ensures userRw == plan.user
    {
    }

    /** The last packet of a transfer is answered with an empty one. */
    method AskEmpty(ghost plan: Plan)
      requires Follows(plan)
      modifies this`usbMsgLen
      ensures Follows(plan.(rest := Blocks(plan.last, [])))
    {
      hide Blocks;
      usbMsgLen := 0;
      assert Remaining() == [];
    }

    method Stall(ghost before: State)
      requires Safe() && mine.buffer.Busy? && Offers(before)
      modifies this`usbTxLen
      ensures Safe() && usbTxLen == STALL && Offers(before.(slot0 := Handshake(STALL)))
    {
      hide After, Held, Drifts, Actions, Arrivals;
      usbTxLen := STALL;
    }

    /** The machine takes the held message, and the main loop's pointer is into it. */
    ghost method StartReading(data: nat, len: nat, env: Environment)
      requires Safe() && !mine.buffer.Busy? && usbRxLen > 0
      requires len == usbRxLen - 3 && data == 12 - usbInputBufOffset
      modifies this`log, this`mine, this`actions
      ensures Safe() && Reading(old(Held()), data)
      ensures old(Held()).token == usbRxToken && |old(Held()).data| == len
      ensures log == old(log) + [Process(env)] && actions == old(actions) + [Process(env)]
      ensures old(Offers(Now())) && old(Now()).plan == old(mine).plan
      ensures mine == Taken(memory, old(Now()), old(Held()), env).(buffer := Busy)
    {
      hide After, MainHalf, Offered, Taken, Actions, Arrivals;
      TakenKeeps(memory, Now(), Held(), env);
      Act(Process(env));
    }

    /** usbProcessRx sees the held message, and only after that is the buffer freed. */
    method UsbProcessRx(data: nat, len: nat, env: Environment)
      requires Boundary() && Sensible(env)
      requires usbRxLen > 0 && len == usbRxLen - 3 && data == 12 - usbInputBufOffset
      modifies this`usbRxLen, this`usbRxToken, this`usbInputBufOffset, this`usbCurrentTok
      modifies this`usbTxLen, this`usbTxLen1, this`usbDeviceAddr, this`log, this`schedule, rxBuf, txBuf
      modifies this`usbMsgPtr, this`usbNewDeviceAddr, this`usbConfiguration, txBuf1
      modifies this`usbMsgLen, this`userRw, this`mine, this`actions
      ensures Safe() && Reading(old(Held()), data) && Offers(mine) && Settled() && Settled1()
      ensures old(log) <= log && actions == old(actions) + [Process(env)]
    {
      hide Safe, Reading, Offers, Follows, Held, AfterOut, AfterSetup, Offered;
      ghost var held, before, plan := Held(), Now(), mine.plan;
      var token := usbRxToken;
      StartReading(data, len, env);
      if token == SETUP {
        if len == 8 {
          AskedFor(before, held, env.outcome);
          ProcessSetup(data, env, held, before);
        } else {
          StillOffers(before);
        }
      } else {
        ProcessOut(data, env, held, before);
      }
    }

    lemma AskedFor(before: State, held: Message, outcome: Outcome)
      requires Shape() && IsSetup(held) && Offers(before) && Follows(before.plan)
      requires txBuf1[0] == before.plan.last1
      requires mine == AfterSetup(memory, before, held, outcome).(buffer := Busy)
      ensures Asked(before, held, outcome)
    {
      hide AfterSetup, Offered, Unbuilt;
    }

    lemma StillOffers(before: State)
      requires Shape() && Offers(before) && mine == before.(buffer := Busy)
      ensures Offers(mine)
    {
      hide Offered;
    }

    // ------------------------------------------------------------ usbPoll

    /** Between two rounds of the main loop: registers and buffers agree with the machine. */
    ghost predicate Boundary()
      reads this, rxBuf, txBuf, txBuf1
      ensures Boundary() ==> Shape() && Safe() && (usbRxLen == 0 || 4 <= usbRxLen <= 11) && usbInputBufOffset <= 11
    {
      Safe() && Settled() && Settled1() && !mine.buffer.Busy?
    }

    method FreeReceiveBuffer(ghost held: Message, ghost data: nat)
      requires Safe() && Reading(held, data) && Offers(mine)
      modifies this`usbRxLen, this`log, this`mine, this`actions
      ensures Safe() && usbRxLen == 0 && !mine.buffer.Busy? && mine.plan == old(mine.plan)
      ensures log == old(log) + [Freed] && actions == old(actions) + [Freed]
    {
      hide After, MainHalf, Offered, Actions, Arrivals;
      Act(Freed);
      usbRxLen := 0;
    }

    method HeldGap(ghost held: Message, ghost offset: nat)
      requires Boundary() && usbRxLen == |held.data| + 3 && usbInputBufOffset == offset && Held() == held
      modifies this`usbRxLen, this`usbRxToken, this`usbInputBufOffset, this`usbCurrentTok
      modifies this`usbTxLen, this`usbTxLen1, this`usbDeviceAddr, this`log, this`schedule, rxBuf
      ensures Boundary() && usbRxLen == |held.data| + 3 && usbInputBufOffset == offset && Held() == held
      ensures old(log) <= log
    {
      hide Settled, Settled1, Safe, MainHalf, Full;
      Preempt();
    }

    /** The message is processed, and its buffer freed. */
    method Consume(data: nat, len: nat, env: Environment)
      requires Boundary() && Sensible(env)
      requires usbRxLen > 0 && len == usbRxLen - 3 && data == 12 - usbInputBufOffset
      modifies this`usbRxLen, this`usbRxToken, this`usbInputBufOffset, this`usbCurrentTok
      modifies this`usbTxLen, this`usbTxLen1, this`usbDeviceAddr, this`log, this`schedule, rxBuf, txBuf
      modifies this`usbMsgPtr, this`usbNewDeviceAddr, this`usbConfiguration, txBuf1
      modifies this`usbMsgLen, this`userRw, this`mine, this`actions
      ensures Boundary() && old(log) <= log
      ensures actions == old(actions) + [Process(env), Freed]
    {
      hide Safe, Reading, Held, Follows, Offered, Full;
      ghost var held := Held();
      UsbProcessRx(data, len, env);
      BusyGap(held, data);
      FreeReceiveBuffer(held, data);
    }

    /** The receive part of usbPoll. */
    method PollReceive(env: Environment)
      requires Boundary() && Sensible(env)
      modifies this`usbRxLen, this`usbRxToken, this`usbInputBufOffset, this`usbCurrentTok
      modifies this`usbTxLen, this`usbTxLen1, this`usbDeviceAddr, this`log, this`schedule, rxBuf, txBuf
      modifies this`usbMsgPtr, this`usbNewDeviceAddr, this`usbConfiguration, txBuf1
      modifies this`usbMsgLen, this`userRw, this`mine, this`actions
      ensures Boundary() && old(log) <= log
      ensures actions == old(actions) + if old(usbRxLen) > 0 then [Process(env), Freed] else []
    {
      hide Settled, Settled1, Safe, MainHalf, Boundary;
      var len := usbRxLen as int - 3;
      if len >= 0 {
        ghost var held, offset := Held(), usbInputBufOffset;
        HeldGap(held, offset);
        var data := 12 - usbInputBufOffset;
        HeldGap(held, offset);
        Consume(data, len, env);
      }
    }

    /** The transmit part: bit 4 set means the slot is the main loop's. */
    method PollTransmit()
      requires Boundary()
      modifies this`usbRxLen, this`usbRxToken, this`usbInputBufOffset, this`usbCurrentTok
      modifies this`usbTxLen, this`usbTxLen1, this`usbDeviceAddr, this`log, this`schedule, rxBuf, txBuf
      modifies this`usbMsgPtr, this`usbMsgLen, this`mine, this`actions
      ensures Boundary() && old(log) <= log
      ensures actions == old(actions) + if !Full(old(usbTxLen)) && old(usbMsgLen) != NO_MSG then [Built] else []
    {
      hide Follows, Safe, Full;
      TxLengthGood();
      if Bit4(usbTxLen) {
        Preempt();
        if usbMsgLen != NO_MSG {
          UsbBuildTxBlock();
        }
      }
    }

    lemma TxLengthGood()
      requires Safe()
      ensures Bit4(usbTxLen) <==> !Full(usbTxLen)
      ensures Bit4(usbTxLen1) <==> !Full(usbTxLen1)
    {
      Bit4IsHandshake(usbTxLen);
      Bit4IsHandshake(usbTxLen1);
    }

    /** A bus reset forgets both addresses. */
    method PollReset(env: Environment)
      requires Boundary()
      modifies this`usbRxLen, this`usbRxToken, this`usbInputBufOffset, this`usbCurrentTok
      modifies this`usbTxLen, this`usbTxLen1, this`usbDeviceAddr, this`log, this`schedule, rxBuf
      modifies this`usbNewDeviceAddr, this`mine, this`actions
      ensures Boundary() && old(log) <= log
      ensures actions == old(actions) + if env.reset then [NewAddressCleared, AddressCleared] else []
      ensures env.reset ==> usbNewDeviceAddr == 0 && usbDeviceAddr == 0
    {
      hide Settled, Settled1, Safe, Full;
      if env.reset {
        ForgetNewAddress();
        Preempt();
        ForgetAddress();
      }
    }

    method ForgetNewAddress()
      requires Boundary()
      modifies this`usbNewDeviceAddr, this`log, this`mine, this`actions
      ensures Boundary() && usbNewDeviceAddr == 0
      ensures log == old(log) + [NewAddressCleared] && actions == old(actions) + [NewAddressCleared]
    {
      hide After, Held, Offered, Actions, Arrivals, Unbuilt, Lasting;
      Act(NewAddressCleared);
      usbNewDeviceAddr := 0;
    }

    method ForgetAddress()
      requires Boundary()
      modifies this`usbDeviceAddr, this`log, this`mine, this`actions
      ensures Boundary() && usbDeviceAddr == 0
      ensures log == old(log) + [AddressCleared] && actions == old(actions) + [AddressCleared]
    {
      hide After, Held, Offered, Actions, Arrivals, Unbuilt, Lasting;
      Act(AddressCleared);
      usbDeviceAddr := 0;
    }

    /** One usbPoll: what it adds to the log. */
    method UsbPoll(env: Environment) returns (ghost test: seq<Event>)
      requires Boundary() && Sensible(env)
      modifies this`usbRxLen, this`usbRxToken, this`usbInputBufOffset, this`usbCurrentTok
      modifies this`usbTxLen, this`usbTxLen1, this`usbDeviceAddr, this`log, this`schedule, rxBuf, txBuf
      modifies this`usbMsgPtr, this`usbNewDeviceAddr, this`usbConfiguration, txBuf1
      modifies this`usbMsgLen, this`userRw, this`mine, this`actions
      ensures Boundary() && old(log) <= test <= log
      ensures Actions(test) == old(actions) + HeldActions(env, old(usbRxLen) > 0)
      ensures actions == old(actions) + PollActions(env, old(usbRxLen) > 0, Buildable(After(memory, test)))
      ensures env.reset ==> usbNewDeviceAddr == 0 && usbDeviceAddr == 0
    {
      hide Boundary, Safe, Full, Actions, After;
      PollReceive(env);
      BoundaryGap();
      BoundaryMeans();
      test := log;
      PollTransmit();
      BoundaryGap();
      PollReset(env);
    }

    method BoundaryGap()
      requires Boundary()
      modifies this`usbRxLen, this`usbRxToken, this`usbInputBufOffset, this`usbCurrentTok
      modifies this`usbTxLen, this`usbTxLen1, this`usbDeviceAddr, this`log, this`schedule, rxBuf
      ensures Boundary() && old(log) <= log
      ensures !Full(old(usbTxLen1)) ==> usbTxLen1 == old(usbTxLen1)
    {
      hide Safe, Settled, Settled1, Full;
      Preempt();
    }

    lemma BoundaryMeans()
      requires Boundary()
      ensures Now().address == usbDeviceAddr && actions == Actions(log)
      ensures Now().buffer == if usbRxLen > 0 then Waiting(Held()) else Empty
      ensures usbMsgLen == NO_MSG <==> Now().plan.rest == []
      ensures Now().slot0.Data? <==> Full(usbTxLen)
      ensures Now().slot1.Data? <==> Full(usbTxLen1)
      ensures usbConfiguration == Now().plan.configuration
    {
      hide After, Held, Actions, Remaining;
    }

    // ------------------------------------------------------------ endpoint 1

    /** The main loop owns endpoint 1's slot. */
    ghost predicate Owned1()
      reads this`usbInputBufOffset, this`usbRxLen, this`usbRxToken, this`usbCurrentTok, this`usbDeviceAddr
      reads this`usbTxLen, this`usbTxLen1, this`usbNewDeviceAddr, this`log, this`mine, this`actions
      reads this`schedule, rxBuf, txBuf, txBuf1
      ensures Owned1() ==> Safe() && Shape() && !Full(usbTxLen1)
    {
      Safe() && !Full(usbTxLen1) && !mine.buffer.Busy?
    }

    method Owned1Gap()
      requires Owned1()
      modifies this`usbRxLen, this`usbRxToken, this`usbInputBufOffset, this`usbCurrentTok
      modifies this`usbTxLen, this`usbTxLen1, this`usbDeviceAddr, this`log, this`schedule, rxBuf
      ensures Owned1() && OnlyArrivals(old(log), log)
    {
      hide Safe, Full, OnlyArrivals;
      Preempt();
    }

    method WriteTx1(i: nat, b: bv8)
      requires Owned1() && i < 11
      modifies txBuf1
      ensures Owned1()
      ensures txBuf1[..] == old(txBuf1[..])[i := b]
    {
      hide After, Held, Drifts, Actions, Arrivals;
      txBuf1[i] := b;
    }

    /** The counter is an eight-bit register that is counted down before it is tested. */
    method CopyReport(data: seq<bv8>, len: nat)
      requires Owned1() && len < 256 && Copies(len) <= 10 && Copies(len) <= |data|
      modifies this`usbRxLen, this`usbRxToken, this`usbInputBufOffset, this`usbCurrentTok
      modifies this`usbTxLen, this`usbTxLen1, this`usbDeviceAddr, this`log, this`schedule, rxBuf
      modifies txBuf1
      ensures Owned1() && OnlyArrivals(old(log), log)
      ensures txBuf1[0] == old(txBuf1[0]) && txBuf1[1..1 + Copies(len)] == data[..Copies(len)]
    {
      hide Owned1, Safe, Full, OnlyArrivals;
      ghost var first, total := txBuf1[0], Copies(len);
      NoArrivals(log);
      var i, n := len, 0;
      while true
        invariant i < 256 && n + Copies(i) == total
        invariant Owned1() && txBuf1[0] == first && OnlyArrivals(old(log), log)
        invariant txBuf1[1..1 + n] == data[..n]
        decreases Copies(i)
      {
        CopyOne(data, n);
        i := Sub8(i, 1);
        n := n + 1;
        if i == 0 {
          break;
        }
      }
    }

    method CopyOne(data: seq<bv8>, n: nat)
      requires Owned1() && n < 10 && n < |data| && txBuf1[1..1 + n] == data[..n]
      modifies this`usbRxLen, this`usbRxToken, this`usbInputBufOffset, this`usbCurrentTok
      modifies this`usbTxLen, this`usbTxLen1, this`usbDeviceAddr, this`log, this`schedule, rxBuf
      modifies txBuf1
      ensures Owned1() && (forall l :: OnlyArrivals(l, old(log)) ==> OnlyArrivals(l, log))
      ensures txBuf1[0] == old(txBuf1[0]) && txBuf1[1..2 + n] == data[..n + 1]
    {
      hide Owned1, Safe, Full, OnlyArrivals;
      ghost var before, start := txBuf1[..], log;
      WriteTx1(1 + n, data[n]);
      assert txBuf1[1..2 + n] == before[1..1 + n] + [data[n]] && data[..n + 1] == data[..n] + [data[n]];
      Owned1Gap();
      forall l | OnlyArrivals(l, start)
        ensures OnlyArrivals(l, log)
      {
        OnlyArrivalsCompose(l, start, log);
      }
    }

    method AppendCrc1(len: nat)
      requires Owned1() && len <= 8
      modifies txBuf1
      ensures Owned1()
      ensures txBuf1[0] == old(txBuf1[0])
      ensures txBuf1[..len + 3] == Packet(txBuf1[0], old(txBuf1[1..1 + len]))
    {
      hide CrcBytes, After, Held, Drifts, Actions, Arrivals;
      ghost var before := txBuf1[..];
      UsbCrc16Append(txBuf1, 1, len);
      assert txBuf1[..1 + len] == before[..1 + len];
      assert txBuf1[0] == txBuf1[..1 + len][0];
      assert txBuf1[..len + 3] == txBuf1[..1 + len] + txBuf1[1 + len..3 + len];
      assert before[..1 + len] == [before[0]] + before[1..1 + len];
    }

    method HandOver1(len: nat, ghost report: Report, ghost toggled: bool)
      requires Owned1() && Settled() && len == |report|
      requires txBuf1[0] == if toggled then Toggle(mine.plan.last1) else mine.plan.last1
      requires txBuf1[..len + 3] == Packet(txBuf1[0], report)
      modifies this`usbTxLen1, this`log, this`mine, this`actions
      ensures Boundary()
      ensures log == old(log) + [Reported(report, toggled)]
      ensures actions == old(actions) + [Reported(report, toggled)]
    {
      hide After, Held, Actions, Arrivals, Toggle, Packet, Unbuilt, Lasting;
      assert txBuf1[..][..len + 3] == txBuf1[..len + 3];
      Act(Reported(report, toggled));
      usbTxLen1 := len + 4;
    }

    /** The token for the next report. A waiting report is withdrawn and its identifier used
        again. */
    method ClaimSlot1() returns (ready: bool, ghost claim: seq<Event>)
      requires Boundary()
      modifies this`usbRxLen, this`usbRxToken, this`usbInputBufOffset, this`usbCurrentTok
      modifies this`usbTxLen, this`usbTxLen1, this`usbDeviceAddr, this`log, this`schedule, rxBuf
      modifies txBuf1, this`mine, this`actions
      ensures Owned1() && Settled() && ready == old(Bit4(usbTxLen1)) == !old(Now()).slot1.Data?
      ensures OnlyArrivals(old(log), claim) && log == claim + if ready then [] else [Withdrawn]
      ensures actions == old(actions) + if ready then [] else [Withdrawn]
      ensures txBuf1[0] == if ready then Toggle(mine.plan.last1) else mine.plan.last1
    {
      hide Safe, Follows, Toggle, OnlyArrivals, Full, Bit4, After, Owned1;
      SlotOneOffers();
      ready := Bit4(usbTxLen1);
      Preempt();
      claim := log;
      BecomesOwner1();
      if ready {
        WriteTx1(0, Toggle(txBuf1[0]));
      } else {
        Withdraw1();
      }
    }

    lemma SlotOneOffers()
      requires Safe() && !mine.buffer.Busy?
      ensures Bit4(usbTxLen1) <==> !Full(usbTxLen1)
      ensures Now().slot1.Data? <==> Full(usbTxLen1)
    {
      hide Held, After;
      Bit4IsHandshake(usbTxLen1);
    }

    lemma BecomesOwner1()
      requires Safe() && !mine.buffer.Busy?
      ensures !Full(usbTxLen1) ==> Owned1()
    {
    }

    method Withdraw1()
      requires Safe() && !mine.buffer.Busy?
      modifies this`usbTxLen1, this`log, this`mine, this`actions
      ensures Owned1() && mine.plan == old(mine.plan)
      ensures log == old(log) + [Withdrawn] && actions == old(actions) + [Withdrawn]
    {
      hide After, Held, Actions, Arrivals;
      Act(Withdrawn);
      usbTxLen1 := NAK;
    }

    /** Queue a report: the next packet with the other identifier, if the slot was free at the
        start; otherwise in the place of the report that waited, with its identifier. If those
        before alternate, they still do exactly when the interrupt routine did not empty the slot
        between the test and the claim. */
    method UsbSetInterrupt(data: seq<bv8>, len: nat) returns (ghost claim: seq<Event>)
      requires Boundary() && 1 <= len <= 8 && len <= |data|
      modifies this`usbRxLen, this`usbRxToken, this`usbInputBufOffset, this`usbCurrentTok
      modifies this`usbTxLen, this`usbTxLen1, this`usbDeviceAddr, this`log, this`schedule, rxBuf
      modifies txBuf1, this`mine, this`actions
      ensures Boundary() && OnlyArrivals(old(log), claim) && claim <= log
      ensures actions == old(actions) + if old(Bit4(usbTxLen1)) then [Reported(data[..len], true)]
                                        else [Withdrawn, Reported(data[..len], false)]
      ensures (Regular(Seen(memory, old(log)), old(Now())) ==>
                (Regular(Seen(memory, log), Now())
                 <==> old(Bit4(usbTxLen1)) || After(memory, claim).slot1.Data?))
    {
      hide Safe, Boundary, Settled, Owned1, Toggle, Packet, OnlyArrivals, After, Seen, Regular, Full;
      ghost var start, report: Report := log, data[..len];
      var ready;
      ready, claim := ClaimSlot1();
      ghost var claimed := log;
      QueueReport(data, len, ready, report);
      ghost var filled := log[..|log| - 1];
      assert log == filled + [Reported(report, ready)];
      if Regular(Seen(memory, start), After(memory, start)) {
        if ready {
          assert claim + [] == claim;
          OnlyArrivalsCompose(start, claim, filled);
          QueuedNext(memory, start, filled, report);
        } else {
          QueuedAgain(memory, start, claim, filled, report);
        }
      }
      PrefixOf(claim, claimed, filled);
    }

    static lemma PrefixOf(a: seq<Event>, b: seq<Event>, c: seq<Event>)
      requires a <= b && OnlyArrivals(b, c)
      ensures a <= c
    {
    }

    method QueueReport(data: seq<bv8>, len: nat, ghost toggled: bool, ghost report: Report)
      requires Owned1() && Settled() && 1 <= len <= 8 && len <= |data| && report == data[..len]
      requires txBuf1[0] == if toggled then Toggle(mine.plan.last1) else mine.plan.last1
      modifies this`usbRxLen, this`usbRxToken, this`usbInputBufOffset, this`usbCurrentTok
      modifies this`usbTxLen, this`usbTxLen1, this`usbDeviceAddr, this`log, this`schedule, rxBuf
      modifies txBuf1, this`mine, this`actions
      ensures Boundary() && log != [] && log[|log| - 1] == Reported(report, toggled)
      ensures OnlyArrivals(old(log), log[..|log| - 1])
      ensures actions == old(actions) + [Reported(report, toggled)]
    {
      hide Safe, Boundary, Settled, Owned1, Toggle, Packet, OnlyArrivals, Full;
      CopiesLen(len);
      ghost var start := log;
      Owned1Gap();
      ghost var middle := log;
      CopyReport(data, len);
      OnlyArrivalsCompose(start, middle, log);
      middle := log;
      AppendCrc1(len);
      Owned1Gap();
      OnlyArrivalsCompose(start, middle, log);
      HandOver1(len, report, toggled);
    }

    // ------------------------------------------------------------ whole runs

    /** Power-on, usbInit included. */
    constructor (memory: nat -> bv8, schedule: seq<seq<seq<bv8>>>)
      ensures Boundary() && this.schedule == schedule && this.memory == memory && arrivals == Flatten(schedule)
      ensures fresh(rxBuf) && fresh(txBuf) && fresh(txBuf1)
      ensures log == [] && actions == [] && usbDeviceAddr == 0 && usbRxLen == 0
      ensures Regular(Seen(memory, log), Now())
    {
      hide Toggle, Rol, Flatten, Boundary, Regular, Seen, After;
      this.memory, this.schedule := memory, schedule;
      var report := new bv8[11](_ => 0);
      report[0] := DATA1;
      rxBuf, txBuf, txBuf1 := new bv8[22](_ => 0), new bv8[11](_ => 0), report;
      usbInputBufOffset, usbRxLen, usbRxToken, usbCurrentTok := 0, 0, 0, 0;
      usbTxLen, usbTxLen1, usbNewDeviceAddr, usbDeviceAddr := NAK, NAK, 0, 0;
      usbConfiguration, usbMsgPtr, usbMsgLen, userRw := 0, Outside(0), NO_MSG, false;
      log, actions, mine, arrivals := [], [], START, Flatten(schedule);
      new;
      PowerOn();
      StartRegular(memory);
    }

    lemma PowerOn()
      requires Shape() && txBuf[0] == 0 && txBuf1[0] == DATA1
      requires usbInputBufOffset == usbRxLen == 0 && usbRxToken == usbCurrentTok == 0
      requires usbTxLen == usbTxLen1 == NAK && usbNewDeviceAddr == usbDeviceAddr == 0
      requires usbConfiguration == 0 && usbMsgPtr == Outside(0) && usbMsgLen == NO_MSG && !userRw
      requires log == actions == [] && mine == START && arrivals == Flatten(schedule)
      ensures Boundary()
    {
      hide Flatten;
      DriftsNowhere(START);
      assert [] + Flatten(schedule) == Flatten(schedule);
    }

    /** main's guard: a report is queued only when the slot is free. */
    method ReportIfReady(report: Report) returns (ghost reported: bool)
      requires Boundary() && |report| >= 1
      modifies this`usbRxLen, this`usbRxToken, this`usbInputBufOffset, this`usbCurrentTok
      modifies this`usbTxLen, this`usbTxLen1, this`usbDeviceAddr, this`log, this`schedule, rxBuf
      modifies txBuf1, this`mine, this`actions
      ensures Boundary() && old(log) <= log
      ensures reported <==> !Full(old(usbTxLen1))
      ensures actions == old(actions) + if reported then [Reported(report, true)] else []
    {
      hide Safe, Boundary, Full, Regular, Seen, After;
      TxLengthGood();
      reported := Bit4(usbTxLen1);
      if Bit4(usbTxLen1) {
        BoundaryGap();
        TxLengthGood();
        assert report[..|report|] == report;
        ghost var _ := UsbSetInterrupt(report, |report|);
      }
    }

    /** One round: usbPoll, then a report if the slot is free. */
    method MainRound(r: Round)
      requires Boundary() && SensibleRound(r)
      modifies this`usbRxLen, this`usbRxToken, this`usbInputBufOffset, this`usbCurrentTok
      modifies this`usbTxLen, this`usbTxLen1, this`usbDeviceAddr, this`log, this`schedule, rxBuf, txBuf
      modifies this`usbMsgPtr, this`usbNewDeviceAddr, this`usbConfiguration, txBuf1
      modifies this`usbMsgLen, this`userRw, this`mine, this`actions
      ensures Boundary() && OneRound(memory, r, old(log), log)
    {
      hide Boundary, Safe, PollActions, HeldActions, Full, Buildable, Actions, After;
      BoundaryMeans();
      ghost var start := log;
      ghost var test := UsbPoll(r.env);
      BoundaryGap();
      BoundaryMeans();
      ghost var test1 := log;
      ghost var _ := ReportIfReady(r.report);
      BoundaryGap();
      BoundaryMeans();
      assert RoundAt(memory, r, start, test, test1, log);
    }

    /** Whatever the bus delivers and whenever, after any number of rounds: the log has grown by
        packets that arrived and by what each round does, and registers and buffers agree with
        it. So the messages processed are those acknowledged, in order, but for the one that may
        wait, and all that were acknowledged before the last round; every packet sent is complete;
        the address is one the host assigned or zero, and changes only with a data packet or a
        reset; reports go on alternating. */
    method MainLoop(rounds: seq<Round>) returns (ghost logs: seq<seq<Event>>)
      requires Boundary() && forall i :: 0 <= i < |rounds| ==> SensibleRound(rounds[i])
      modifies this`usbRxLen, this`usbRxToken, this`usbInputBufOffset, this`usbCurrentTok
      modifies this`usbTxLen, this`usbTxLen1, this`usbDeviceAddr, this`log, this`schedule, rxBuf, txBuf
      modifies this`usbMsgPtr, this`usbNewDeviceAddr, this`usbConfiguration, txBuf1
      modifies this`usbMsgLen, this`userRw, this`mine, this`actions
      ensures Boundary() && Run(memory, rounds, logs) && logs[0] == old(log) <= log == logs[|rounds|]
      ensures (Seen(memory, log).acked
               == Seen(memory, log).processed + if usbRxLen > 0 then [Held()] else [])
      ensures rounds != [] ==> Seen(memory, logs[|rounds| - 1]).acked <= Seen(memory, log).processed
      ensures forall p :: p in Seen(memory, log).bus ==> Complete(p)
      ensures usbDeviceAddr in Assigned(Seen(memory, log).processed)
      ensures (|Seen(memory, log).bus| == |Seen(memory, old(log)).bus|
               && (forall i :: 0 <= i < |rounds| ==> !rounds[i].env.reset) ==>
                 usbDeviceAddr == old(usbDeviceAddr))
      ensures Regular(Seen(memory, old(log)), old(Now())) ==> Regular(Seen(memory, log), Now())
    {
      hide Boundary, Regular, Seen, After, OneRound, Complete, Assigned, Held, SensibleRound;
      BoundaryMeans();
      logs := Rounds(rounds);
      BoundaryMeans();
      ExactlyOnceSoFar();
      SendsCompletePackets(memory, log);
      AddressIsAssigned(memory, log);
      RunKeeps(memory, rounds, logs);
      if rounds != [] {
        var n := |rounds| - 1;
        RoundProcesses(memory, rounds[n], logs[n], logs[n + 1]);
      }
    }

    method Rounds(rounds: seq<Round>) returns (ghost logs: seq<seq<Event>>)
      requires Boundary() && forall i :: 0 <= i < |rounds| ==> SensibleRound(rounds[i])
      modifies this`usbRxLen, this`usbRxToken, this`usbInputBufOffset, this`usbCurrentTok
      modifies this`usbTxLen, this`usbTxLen1, this`usbDeviceAddr, this`log, this`schedule, rxBuf, txBuf
      modifies this`usbMsgPtr, this`usbNewDeviceAddr, this`usbConfiguration, txBuf1
      modifies this`usbMsgLen, this`userRw, this`mine, this`actions
      ensures Boundary() && Run(memory, rounds, logs) && logs[0] == old(log) && log == logs[|rounds|]
    {
      hide Boundary, OneRound, SensibleRound;
      logs := [log];
      for n := 0 to |rounds|
        invariant Boundary() && |logs| == n + 1 && logs[0] == old(log) && log == logs[n]
        invariant forall i :: 0 <= i < n ==> OneRound(memory, rounds[i], logs[i], logs[i + 1])
      {
        MainRound(rounds[n]);
        logs := logs + [log];
      }
    }

    lemma ExactlyOnceSoFar()
      requires Boundary()
      ensures Seen(memory, log).acked == Seen(memory, log).processed + if usbRxLen > 0 then [Held()] else []
    {
      hide Boundary, Seen, After, Held;
      BoundaryMeans();
      ExactlyOnce(memory, log);
    }

    /** A SETUP waits to be processed. Over any rounds, until something else is asked for, what
        goes out on endpoint 0 is a prefix of the packets its request promises; and all of them,
        when nothing is left to build and the slot is empty. */
    method AnswerSetup(rounds: seq<Round>) returns (ghost n: nat)
      requires Boundary() && rounds != [] && forall i :: 0 <= i < |rounds| ==> SensibleRound(rounds[i])
      requires usbRxLen > 0 && IsSetup(Held())
      modifies this`usbRxLen, this`usbRxToken, this`usbInputBufOffset, this`usbCurrentTok
      modifies this`usbTxLen, this`usbTxLen1, this`usbDeviceAddr, this`log, this`schedule, rxBuf, txBuf
      modifies this`usbMsgPtr, this`usbNewDeviceAddr, this`usbConfiguration, txBuf1
      modifies this`usbMsgLen, this`userRw, this`mine, this`actions
      ensures Boundary() && n < |log| && OnlyArrivals(old(log), log[..n]) && log[n] == Process(rounds[0].env)
      ensures (Undisturbed(memory, log, n + 1) ==>
                var promised := Promise(old(Held()).data, old(usbConfiguration), memory, rounds[0].env.outcome);
                && Seen(memory, log).sent <= promised
                && (usbMsgLen == NO_MSG && !Full(usbTxLen) ==> Seen(memory, log).sent == promised))
    {
      hide Boundary, Seen, After, OneRound, Actions, Held, SensibleRound, Promise, Undisturbed, IsSetup, Full;
      BoundaryMeans();
      ghost var before := log;
      ghost var logs := Rounds(rounds);
      BoundaryMeans();
      RunGrows(memory, rounds, logs);
      assert log[..|before|] == before;
      n := FirstAction(log, |before|);
      WaitingSetup(memory, log, |before|, n);
      if Undisturbed(memory, log, n + 1) {
        ControlReply(memory, log, n);
      }
    }
  }
}
