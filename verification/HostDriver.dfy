/** The same of the driver's code: its answer to a token, a data packet and a request that are
    given by their fields. */
module HostDriver {
  import opened Transfer
  import opened Device
  import opened HostView
  import opened Driver

  /** An IN token to an address and an endpoint, with b the device's address. */
  method PollEndpoint(u: Usb, a: bv8, e: bv8, c: bv8, ghost b: bv8) returns (answer: Answer)
    requires u.Sound() && a < 128 && e < 16 && c < 32 && b < 128 && u.usbDeviceAddr == 2 * b
    modifies u`usbRxLen, u`usbRxToken, u`usbInputBufOffset, u`usbCurrentTok
    modifies u`usbTxLen, u`usbTxLen1, u`usbDeviceAddr, u`log, u.rxBuf
    ensures u.Sound()
    ensures (if a != b then answer == Silence
             else if old(u.usbRxLen) != 0 then answer == Handshake(0x5A)
             else if e != 0 then
               answer == if 4 <= old(u.usbTxLen1) <= 12 then Data(old(u.txBuf1[..u.usbTxLen1 - 1]))
                         else Handshake(old(u.usbTxLen1))
             else
               answer == if 4 <= old(u.usbTxLen) <= 12 then Data(old(u.txBuf[..u.usbTxLen - 1]))
                         else Handshake(old(u.usbTxLen)))
  {
    hide AnswerTo;
    ghost var d := u.Now();
    MeansMachine(u);
    ghost var stale;
    answer, stale := u.Interrupt([0x69, a + 128 * (e % 2), e / 2 + 8 * c]);
    InToken(d, a, e, c, b, stale);
  }

  /** Registers and buffers are the machine's. */
  lemma MeansMachine(u: Usb)
    requires u.Sound()
    ensures u.Now().address == u.usbDeviceAddr && (u.Now().buffer.Empty? <==> u.usbRxLen == 0)
    ensures u.usbRxLen == 0 ==> u.Now().slot0 == Offered(u.usbTxLen, u.txBuf[..])
    ensures u.usbRxLen == 0 ==> u.Now().slot1 == Offered(u.usbTxLen1, u.txBuf1[..])
  {
    hide Offered, After;
    if u.usbRxLen == 0 {
      u.SlotsOffer();
    }
  }

  /** A SETUP or OUT token and the data packet behind it. */
  method SendData(u: Usb, pid: bv8, a: bv8, e: bv8, c: bv8, ghost b: bv8, toggle: bv8, data: seq<bv8>, crc: seq<bv8>)
    returns (answer: Answer)
    requires u.Sound() && a < 128 && e < 16 && c < 32 && b < 128 && u.usbDeviceAddr == 2 * b
    requires (pid == 0x2D || pid == 0xE1) && (toggle == 0xC3 || toggle == 0x4B)
    requires 1 <= |data| <= 8 && |crc| == 2
    modifies u`usbRxLen, u`usbRxToken, u`usbInputBufOffset, u`usbCurrentTok
    modifies u`usbTxLen, u`usbTxLen1, u`usbDeviceAddr, u`log, u.rxBuf
    ensures u.Sound()
    ensures (if a != b then answer == Silence && u.usbRxLen == old(u.usbRxLen)
             else if old(u.usbRxLen) != 0 then answer == Handshake(0x5A) && u.usbRxLen == old(u.usbRxLen)
             else answer == Handshake(0xD2) && u.usbRxLen == |data| + 3 && u.Held() == Message(pid, data))
  {
    hide AnswerTo, Deliver, After;
    ghost var d, log := u.Now(), u.log;
    MeansMachine(u);
    ghost var stale, stale';
    answer, stale := u.Interrupt([pid, a + 128 * (e % 2), e / 2 + 8 * c]);
    OneMoreEvent(u.memory, log, Arrives([pid, a + 128 * (e % 2), e / 2 + 8 * c], stale));
    log := u.log;
    answer, stale' := u.Interrupt([toggle] + data + crc);
    OneMoreEvent(u.memory, log, Arrives([toggle] + data + crc, stale'));
    TokenThenData(d, pid, a, e, c, b, toggle, data, crc, stale, stale');
    MeansMachine(u);
  }

  /** A SETUP waits whose request is for a descriptor or for the application, of which there are
      `len` bytes, and the host wants n. What goes out on endpoint 0 over any rounds, until something
      else is asked for, are the packets with exactly the first bytes, as many as there are and are
      wanted, in order; and all of them once nothing is left to build and the slot is empty. */
  method AnswerRead(u: Usb, rounds: seq<Round>, direction: bv8, kind: bv8, recipient: bv8, n: nat, len: nat, at: nat)
    returns (ghost m: nat)
    requires u.Boundary() && rounds != [] && forall i :: 0 <= i < |rounds| ==> SensibleRound(rounds[i])
    requires u.usbRxLen > 0 && u.Held().token == 0x2D && |u.Held().data| == 8
    requires direction < 2 && kind < 4 && recipient < 32 && n < 0x1_0000
    requires var request := u.Held().data;
      && request[0] == 128 * direction + 32 * kind + recipient && (kind != 0 || request[1] == 6)
      && request[6] as nat == n % 256 && request[7] as nat == n / 256
    requires rounds[0].env.outcome == Reply(len, at)
    modifies u`usbRxLen, u`usbRxToken, u`usbInputBufOffset, u`usbCurrentTok
    modifies u`usbTxLen, u`usbTxLen1, u`usbDeviceAddr, u`log, u`schedule, u.rxBuf, u.txBuf
    modifies u`usbMsgPtr, u`usbNewDeviceAddr, u`usbConfiguration, u.txBuf1
    modifies u`usbMsgLen, u`userRw, u`mine, u`actions
    ensures u.Boundary() && m < |u.log| && OnlyArrivals(old(u.log), u.log[..m])
    ensures u.log[m] == Process(rounds[0].env)
    ensures (Undisturbed(u.memory, u.log, m + 1) ==>
              var sent, k := Seen(u.memory, u.log).sent, if len <= n then len else n;
              && |sent| <= k / 8 + 1
              && (u.usbMsgLen == 255 && !(4 <= u.usbTxLen <= 12) ==> |sent| == k / 8 + 1)
              && forall i :: 0 <= i < |sent| ==>
                   && 8 * i <= k
                   && sent[i] == Packet(if i % 2 == 0 then 0x4B else 0xC3,
                                        seq(if 8 * i + 8 <= k then 8 else k - 8 * i,
                                            j requires 0 <= j => u.memory(at + 8 * i + j))))
  {
    hide Promise, Packet, Undisturbed, Seen;
    ghost var request, configuration := u.Held().data, u.usbConfiguration;
    m := u.AnswerSetup(rounds);
    PromisedBytes(request, direction, kind, recipient, n, configuration, u.memory, len, at);
  }
}
