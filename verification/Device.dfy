/** The device as the host sees it: a machine without statements. A log lists what happens to
    it, packets arriving and the main loop's actions; what it answers and when follows from the
    log alone. The driver is proved to be this machine; here is what the machine promises, for
    every log. */
module Device {
  import opened Avr
  import opened Crc
  import opened Transfer

  /** A data packet as the main loop sees it: the token before it and its payload. */
  datatype Message = Message(token: bv8, data: seq<bv8>)

  datatype Answer = Silence | Handshake(pid: nat) | Data(packet: seq<bv8>)

  // ---------------------------------------------------------------- replies

  /** usbMsgPtr: into memory the driver does not write, into the two bytes at usbTxBuf + 9
      where the driver stages short replies, or at the configuration byte. */
  datatype Pointer = Outside(at: nat) | Staged(at: nat) | Configuration(at: nat)

  function Next(p: Pointer): Pointer {
    p.(at := p.at + 1)
  }

  function ByteAt(memory: nat -> bv8, staged: seq<bv8>, configuration: bv8, p: Pointer): bv8 {
    match p
    case Outside(at) => memory(at)
    case Staged(at) => if at < |staged| then staged[at] else memory(at)
    case Configuration(at) => if at == 0 then configuration else memory(at)
  }

  function Bytes(memory: nat -> bv8, staged: seq<bv8>, configuration: bv8, p: Pointer, n: nat): (r: seq<bv8>)
    ensures |r| == n
    decreases n
  {
    if n == 0 then []
    else [ByteAt(memory, staged, configuration, p)] + Bytes(memory, staged, configuration, Next(p), n - 1)
  }

  /** Only what lies outside stays put while a reply goes out in several blocks. */
  predicate Lasting(p: Pointer, n: nat) {
    p.Outside? || n < 8
  }

  lemma {:induction false} OutsideStays(memory: nat -> bv8, staged: seq<bv8>, configuration: bv8,
                                        staged': seq<bv8>, configuration': bv8, p: Pointer, n: nat)
    requires p.Outside?
    ensures Bytes(memory, staged, configuration, p, n) == Bytes(memory, staged', configuration', p, n)
    decreases n
  {
    if n > 0 {
      OutsideStays(memory, staged, configuration, staged', configuration', Next(p), n - 1);
    }
  }

  lemma {:induction false} BytesPrefix(memory: nat -> bv8, staged: seq<bv8>, configuration: bv8,
                                       p: Pointer, n: nat, k: nat)
    requires k <= n
    ensures Bytes(memory, staged, configuration, p, n)[..k] == Bytes(memory, staged, configuration, p, k)
    decreases n
  {
    if k > 0 {
      BytesPrefix(memory, staged, configuration, Next(p), n - 1, k - 1);
    }
  }

  /** What usbFunctionSetup or the descriptor tables answer: a length and where the bytes are,
      or that the application will take the data packets itself. */
  datatype Outcome = Reply(len: nat, at: nat) | UserWrite(at: nat)

  /** The environment of one usbPoll: the answer to a request, the value usbFunctionWrite
      returns, and whether the line stays at SE0 for all twenty samples. */
  datatype Environment = Environment(outcome: Outcome, written: nat, reset: bool)

  const GET_STATUS: bv8 := 0
  const SET_ADDRESS: bv8 := 5
  const GET_DESCRIPTOR: bv8 := 6
  const GET_CONFIGURATION: bv8 := 8
  const SET_CONFIGURATION: bv8 := 9
  const GET_INTERFACE: bv8 := 10
  const SET_INTERFACE: bv8 := 11

  /** What the standard requests answer (section 9.4 of USB 2.0). */
  function StandardReply(request: bv8, configuration: bv8, memory: nat -> bv8, outcome: Outcome): seq<bv8> {
    if request == GET_STATUS then [0, 0]
    else if request == GET_DESCRIPTOR && outcome.Reply? then
      Bytes(memory, [], 0, Outside(outcome.at), outcome.len)
    else if request == GET_CONFIGURATION then [configuration]
    else if request == GET_INTERFACE then [0]
    else []
  }

  predicate ForDriver(request: seq<bv8>)
    requires |request| == 8
  {
    request[0] & 0x60 == 0
  }

  predicate ToHost(request: seq<bv8>)
    requires |request| == 8
  {
    request[0] & 0x80 != 0
  }

  /** wLength, low byte first. */
  function WLength(request: seq<bv8>): nat
    requires |request| == 8
  {
    Value(request[6]) + 256 * Value(request[7])
  }

  /** A request's reply before wLength limits it. */
  function FullReply(request: seq<bv8>, configuration: bv8, memory: nat -> bv8, outcome: Outcome): seq<bv8>
    requires |request| == 8
  {
    if ForDriver(request) then StandardReply(request[1], configuration, memory, outcome)
    else if outcome.Reply? then Bytes(memory, [], 0, Outside(outcome.at), outcome.len)
    else []
  }

  /** The packets a SETUP asks for. When the application takes over, a request to the device
      gets no packets yet; one to the host is answered with as many bytes as it wants. */
  function Promise(request: seq<bv8>, configuration: bv8, memory: nat -> bv8, outcome: Outcome): seq<seq<bv8>>
    requires |request| == 8
  {
    if !ForDriver(request) && outcome.UserWrite? then
      if ToHost(request) && Value(request[6]) != NO_MSG then
        Blocks(DATA0, Bytes(memory, [], 0, Outside(outcome.at), Value(request[6])))
      else []
    else
      var reply := FullReply(request, configuration, memory, outcome);
      Blocks(DATA0, if |reply| <= WLength(request) then reply else reply[..WLength(request)])
  }

  predicate IsSetup(m: Message) {
    m.token == SETUP && |m.data| == 8
  }

  predicate SetsInterface(m: Message) {
    IsSetup(m) && ForDriver(m.data) && m.data[1] == SET_INTERFACE
  }

  predicate SetsAddress(m: Message) {
    IsSetup(m) && ForDriver(m.data) && m.data[1] == SET_ADDRESS
  }

  predicate SetsConfiguration(m: Message) {
    IsSetup(m) && ForDriver(m.data) && m.data[1] == SET_CONFIGURATION
  }

  /** A control-in reply goes out as Fragmentation says, cut at wLength. */
  lemma PromiseCarriesReply(request: seq<bv8>, configuration: bv8, memory: nat -> bv8, outcome: Outcome)
    requires |request| == 8 && (ForDriver(request) || outcome.Reply?)
    requires outcome.Reply? ==> outcome.len < NO_MSG
    ensures var reply := FullReply(request, configuration, memory, outcome);
      var n := if |reply| <= WLength(request) then |reply| else WLength(request);
      n <= 254 && CarriesReply(Promise(request, configuration, memory, outcome), reply[..n])
  {
    hide StandardReply, ForDriver, WLength, CarriesReply, Bytes, Blocks;
    var reply := FullReply(request, configuration, memory, outcome);
    ReplyIsShort(request, configuration, memory, outcome);
    var n := if |reply| <= WLength(request) then |reply| else WLength(request);
    assert |reply| <= WLength(request) ==> reply[..n] == reply;
    Fragmentation(reply[..n]);
  }

  lemma ReplyIsShort(request: seq<bv8>, configuration: bv8, memory: nat -> bv8, outcome: Outcome)
    requires |request| == 8 && (outcome.Reply? ==> outcome.len < NO_MSG)
    ensures |FullReply(request, configuration, memory, outcome)| < NO_MSG
  {
  }

  lemma PromiseWellFormed(request: seq<bv8>, configuration: bv8, memory: nat -> bv8, outcome: Outcome)
    requires |request| == 8
    ensures forall i :: 0 <= i < |Promise(request, configuration, memory, outcome)| ==>
      WellFormed(Promise(request, configuration, memory, outcome)[i])
  {
    hide WellFormed, Blocks, FullReply, ForDriver, ToHost, WLength, Bytes;
    if !ForDriver(request) && outcome.UserWrite? {
      BlocksWellFormed(DATA0, Bytes(memory, [], 0, Outside(outcome.at), Value(request[6])));
    } else {
      var reply := FullReply(request, configuration, memory, outcome);
      BlocksWellFormed(DATA0, if |reply| <= WLength(request) then reply else reply[..WLength(request)]);
    }
  }

  // ---------------------------------------------------------------- the machine

  /** The receive buffer: free, or with a message to process, or with one in process. */
  datatype Buffer = Empty | Waiting(message: Message) | Busy

  /** What only the main loop changes: the packets still to build on endpoint 0, the last
      identifier used there, whether the application takes the data packets, the address to
      take, the configuration, and the last identifier used on endpoint 1. */
  datatype Plan = Plan(rest: seq<seq<bv8>>, last: bv8, user: bool, newAddress: bv8, configuration: bv8, last1: bv8)

  /** slot0 and slot1 are what an IN gets when the receive buffer is free. */
  datatype State = State(token: bv8, address: bv8, buffer: Buffer, slot0: Answer, slot1: Answer, plan: Plan)

  const START: State :=
    State(0, 0, Empty, Handshake(NAK), Handshake(NAK), Plan([], 0, false, 0, 0, DATA1))

  type Report = s: seq<bv8> | |s| <= 8

  /** Three bytes that earlier packets left in the receive buffer. */
  type Stale = s: seq<bv8> | |s| == 3 witness [0, 0, 0]

  /** What can happen: a packet arrives; a message is processed and its buffer freed; a packet
      is built on endpoint 0; a report is withdrawn or queued on endpoint 1, with the other
      identifier or the same; a bus reset clears the two addresses. */
  datatype Event =
    | Arrives(arrival: seq<bv8>, stale: Stale)
    | Process(env: Environment)
    | Freed
    | Built
    | Withdrawn
    | Reported(report: Report, toggled: bool)
    | NewAddressCleared
    | AddressCleared

  /** The first bytes of a packet as the interrupt routine reads them: of a packet that is too
      short, it reads what was in the buffer. */
  function Front(arrival: seq<bv8>, stale: Stale, i: nat): bv8
    requires i < 3
  {
    if i < |arrival| then arrival[i] else stale[i]
  }

  function Endpoint(arrival: seq<bv8>, stale: Stale): bv8 {
    Rol(Front(arrival, stale, 2), Top(Front(arrival, stale, 1))) & 0xF
  }

  predicate ToUs(d: State, arrival: seq<bv8>, stale: Stale) {
    Rol(Front(arrival, stale, 1), 0) == d.address
  }

  function AnswerTo(d: State, arrival: seq<bv8>, stale: Stale): Answer {
    var kind := Front(arrival, stale, 0);
    if |arrival| > 11 then Silence
    else if IsToken(kind) then
      if d.token == 0 then Silence else Handshake(if d.buffer.Empty? then ACK else NAK)
    else if ToUs(d, arrival, stale) && kind == IN then
      if !d.buffer.Empty? then Handshake(NAK)
      else if Endpoint(arrival, stale) != 0 then d.slot1 else d.slot0
    else Silence
  }

  /** The token remembered for the next data packet: an OUT or SETUP to this address; any
      packet for somebody else, or too long, forgets it. */
  function NextToken(d: State, arrival: seq<bv8>, stale: Stale): bv8 {
    var kind := Front(arrival, stale, 0);
    if |arrival| > 11 then 0
    else if IsToken(kind) then d.token
    else if !ToUs(d, arrival, stale) then 0
    else if kind == IN then d.token
    else if kind == SETUP || kind == OUT then kind
    else 0
  }

  /** A data packet with a payload, with a token before it and a free buffer. */
  predicate Keeps(d: State, arrival: seq<bv8>, stale: Stale) {
    4 <= |arrival| <= 11 && IsToken(Front(arrival, stale, 0)) && d.token != 0 && d.buffer.Empty?
  }

  /** A packet arrives and is answered. A data packet leaves its slot and makes the new address
      take effect. */
  function Deliver(d: State, arrival: seq<bv8>, stale: Stale): State {
    if AnswerTo(d, arrival, stale).Data? then
      var sent := d.(address := Rol(d.plan.newAddress, 0));
      if Endpoint(arrival, stale) != 0 then sent.(slot1 := Handshake(NAK)) else sent.(slot0 := Handshake(NAK))
    else if Keeps(d, arrival, stale) then
      d.(buffer := Waiting(Message(d.token, Payload(arrival))))
    else
      d.(token := NextToken(d, arrival, stale))
  }

  lemma KeptDelivers(d: State, arrival: seq<bv8>, stale: Stale)
    requires Keeps(d, arrival, stale)
    ensures d.buffer.Empty? && IsToken(Front(arrival, stale, 0))
    ensures Deliver(d, arrival, stale) == d.(buffer := Waiting(Message(d.token, Payload(arrival))))
    ensures AnswerTo(d, arrival, stale) == Handshake(ACK)
  {
    hide Payload;
  }

  lemma InToUs(d: State, arrival: seq<bv8>, stale: Stale)
    requires |arrival| <= 11 && Front(arrival, stale, 0) == IN && ToUs(d, arrival, stale)
    ensures AnswerTo(d, arrival, stale) == if !d.buffer.Empty? then Handshake(NAK)
                                           else if Endpoint(arrival, stale) != 0 then d.slot1 else d.slot0
    ensures !AnswerTo(d, arrival, stale).Data? ==> Deliver(d, arrival, stale) == d
  {
    hide Endpoint, ToUs;
  }

  /** SET_INTERFACE on endpoint 1: a packet that waits there gets the first identifier. */
  function Restarted(slot: Answer): Answer {
    if slot.Data? && slot.packet != [] then Data(slot.packet[0 := DATA1]) else slot
  }

  function AfterSetup(memory: nat -> bv8, d: State, m: Message, outcome: Outcome): State
    requires IsSetup(m)
  {
    d.(slot0 := Handshake(NAK),
       slot1 := if SetsInterface(m) then Restarted(d.slot1) else d.slot1,
       plan := Plan(Promise(m.data, d.plan.configuration, memory, outcome), DATA0,
                    !ForDriver(m.data) && outcome.UserWrite?,
                    if SetsAddress(m) then m.data[2] else d.plan.newAddress,
                    if SetsConfiguration(m) then m.data[2] else d.plan.configuration,
                    if SetsInterface(m) then DATA1 else d.plan.last1))
  }

  /** A control-out packet that the application takes: an error stalls endpoint 0, the last
      packet is answered with an empty one. */
  function AfterOut(d: State, written: nat): State {
    if written == 0xFF then d.(slot0 := Handshake(STALL))
    else if written != 0 then d.(plan := d.plan.(rest := Blocks(d.plan.last, [])))
    else d
  }

  function Taken(memory: nat -> bv8, d: State, m: Message, env: Environment): State {
    if IsSetup(m) then AfterSetup(memory, d, m, env.outcome)
    else if m.token != SETUP && d.plan.user then AfterOut(d, env.written)
    else d
  }

  lemma TakenKeeps(memory: nat -> bv8, d: State, m: Message, env: Environment)
    ensures Taken(memory, d, m, env).token == d.token && Taken(memory, d, m, env).address == d.address
  {
  }

  function Step(memory: nat -> bv8, d: State, e: Event): State {
    match e
    case Arrives(arrival, stale) => Deliver(d, arrival, stale)
    case Process(env) =>
      if d.buffer.Waiting? then Taken(memory, d, d.buffer.message, env).(buffer := Busy) else d
    case Freed => if d.buffer.Busy? then d.(buffer := Empty) else d
    case Built =>
      if !d.slot0.Data? && d.plan.rest != [] && |d.plan.rest[0]| > 0 then
        d.(slot0 := Data(d.plan.rest[0]),
           plan := d.plan.(rest := d.plan.rest[1..], last := d.plan.rest[0][0]))
      else d
    case Withdrawn => d.(slot1 := Handshake(NAK))
    case Reported(report, toggled) =>
      if !d.slot1.Data? then
        var token := if toggled then Toggle(d.plan.last1) else d.plan.last1;
        d.(slot1 := Data(Packet(token, report)), plan := d.plan.(last1 := token))
      else d
    case NewAddressCleared => d.(plan := d.plan.(newAddress := 0))
    case AddressCleared => d.(address := 0)
  }

  function After(memory: nat -> bv8, log: seq<Event>): State {
    if log == [] then START else Step(memory, After(memory, log[..|log| - 1]), log[|log| - 1])
  }

  // ---------------------------------------------------------------- what the host saw

  /** From power-on: the messages whose packets were answered ACK, those processed, and the data
      packets sent; of these, those on endpoint 0 since the last SETUP, and those on endpoint 1
      since the last SET_INTERFACE. */
  datatype Traffic = Traffic(acked: seq<Message>, processed: seq<Message>, bus: seq<seq<bv8>>,
                             sent: seq<seq<bv8>>, sent1: seq<seq<bv8>>)

  function Heard(t: Traffic, d: State, arrival: seq<bv8>, stale: Stale): Traffic {
    var answer := AnswerTo(d, arrival, stale);
    if answer == Handshake(ACK) && |arrival| >= 4 then
      t.(acked := t.acked + [Message(d.token, Payload(arrival))])
    else if answer.Data? then
      if Endpoint(arrival, stale) == 0 then
        t.(bus := t.bus + [answer.packet], sent := t.sent + [answer.packet])
      else
        t.(bus := t.bus + [answer.packet], sent1 := t.sent1 + [answer.packet])
    else t
  }

  function Noted(t: Traffic, d: State, e: Event): Traffic {
    match e
    case Arrives(arrival, stale) => Heard(t, d, arrival, stale)
    case Process(env) =>
      if d.buffer.Waiting? then
        var m := d.buffer.message;
        t.(processed := t.processed + [m],
           sent := if IsSetup(m) then [] else t.sent,
           sent1 := if SetsInterface(m) then [] else t.sent1)
      else t
    case _ => t
  }

  function Seen(memory: nat -> bv8, log: seq<Event>): Traffic {
    if log == [] then Traffic([], [], [], [], [])
    else Noted(Seen(memory, log[..|log| - 1]), After(memory, log[..|log| - 1]), log[|log| - 1])
  }

  lemma OneMoreEvent(memory: nat -> bv8, log: seq<Event>, e: Event)
    ensures After(memory, log + [e]) == Step(memory, After(memory, log), e)
    ensures Seen(memory, log + [e]) == Noted(Seen(memory, log), After(memory, log), e)
  {
    assert (log + [e])[..|log|] == log;
  }

  // ---------------------------------------------------------------- what always holds

  predicate GoodSlot(slot: Answer) {
    slot == Handshake(NAK) || slot == Handshake(STALL) || (slot.Data? && WellFormed(slot.packet))
  }

  predicate AllWellFormed(packets: seq<seq<bv8>>) {
    forall i :: 0 <= i < |packets| ==> WellFormed(packets[i])
  }

  predicate Good(d: State) {
    && GoodSlot(d.slot0) && GoodSlot(d.slot1) && AllWellFormed(d.plan.rest) && IsToken(d.plan.last1)
    && (d.plan.rest != [] || d.plan.user ==> IsToken(d.plan.last))
  }

  lemma GoodStep(memory: nat -> bv8, d: State, e: Event)
    requires Good(d)
    ensures Good(Step(memory, d, e))
  {
    hide WellFormed, Promise, Blocks, Toggle, Packet, AnswerTo, Keeps, NextToken, Endpoint, Rol, IsToken, Restarted;
    match e {
      case Process(env) =>
        if d.buffer.Waiting? {
          GoodTaken(memory, d, d.buffer.message, env);
        }
      case Built =>
        if d.plan.rest != [] {
          FirstIdentifier(d.plan.rest[0]);
        }
      case Reported(report, toggled) =>
        ToggleIsToken(d.plan.last1);
        PacketWellFormed(d.plan.last1, report);
        PacketWellFormed(Toggle(d.plan.last1), report);
      case _ =>
    }
  }

  lemma FirstIdentifier(packet: seq<bv8>)
    requires WellFormed(packet)
    ensures |packet| > 0 && IsToken(packet[0])
  {
  }

  lemma GoodTaken(memory: nat -> bv8, d: State, m: Message, env: Environment)
    requires Good(d)
    ensures Good(Taken(memory, d, m, env))
  {
    hide WellFormed, Promise, Blocks, Toggle, Packet, Restarted;
    if IsSetup(m) {
      PromiseWellFormed(m.data, d.plan.configuration, memory, env.outcome);
      RestartedGood(d.slot1);
    } else if d.plan.user {
      BlocksWellFormed(d.plan.last, []);
    }
  }

  lemma RestartedGood(slot: Answer)
    requires GoodSlot(slot)
    ensures GoodSlot(Restarted(slot)) && (Restarted(slot).Data? <==> slot.Data?)
  {
    hide CrcBytes, Toggle;
    if slot.Data? {
      var p := slot.packet;
      var q := p[0 := DATA1];
      assert Payload(q) == Payload(p) && q[|q| - 2..] == p[|p| - 2..];
    }
  }

  lemma {:induction false} AlwaysGood(memory: nat -> bv8, log: seq<Event>)
    ensures Good(After(memory, log))
  {
    hide Good, Step;
    if log == [] {
      StartGood();
    } else {
      AlwaysGood(memory, log[..|log| - 1]);
      GoodStep(memory, After(memory, log[..|log| - 1]), log[|log| - 1]);
    }
  }

  lemma StartGood()
    ensures Good(START)
  {
  }

  // ---------------------------------------------------------------- received exactly once

  function Pending(buffer: Buffer): seq<Message> {
    if buffer.Waiting? then [buffer.message] else []
  }

  /** Every message the host saw acknowledged is processed, once, in order and unaltered; the
      last one may still wait. */
  predicate Delivered(t: Traffic, d: State) {
    t.acked == t.processed + Pending(d.buffer)
  }

  lemma DeliveredStep(memory: nat -> bv8, t: Traffic, d: State, e: Event)
    requires Good(d) && Delivered(t, d)
    ensures Delivered(Noted(t, d, e), Step(memory, d, e))
  {
    hide WellFormed, Promise, Blocks, Toggle, Packet, Endpoint, Rol, Restarted, NextToken, ToUs;
    if e.Arrives? && Keeps(d, e.arrival, e.stale) {
      assert AnswerTo(d, e.arrival, e.stale) == Handshake(ACK);
      assert t.processed + [] == t.processed;
    }
  }

  lemma {:induction false} ExactlyOnce(memory: nat -> bv8, log: seq<Event>)
    ensures Delivered(Seen(memory, log), After(memory, log))
  {
    hide Delivered, Step, Noted, Good;
    if log == [] {
      NothingYet();
    } else {
      var before := log[..|log| - 1];
      ExactlyOnce(memory, before);
      AlwaysGood(memory, before);
      DeliveredStep(memory, Seen(memory, before), After(memory, before), log[|log| - 1]);
    }
  }

  lemma NothingYet()
    ensures Delivered(Traffic([], [], [], [], []), START)
  {
  }

  // ---------------------------------------------------------------- complete packets

  /** An identifier, at most eight bytes, and their CRC. */
  predicate Complete(packet: seq<bv8>) {
    |packet| >= 3 && IsToken(packet[0]) && |Payload(packet)| <= 8 && packet == Packet(packet[0], Payload(packet))
  }

  lemma GoodIsComplete(packet: seq<bv8>)
    requires WellFormed(packet)
    ensures Complete(packet)
  {
    hide CrcBytes, IsToken;
    WellFormedIsPacket(packet);
  }

  lemma {:induction false} SendsCompletePackets(memory: nat -> bv8, log: seq<Event>)
    ensures forall p :: p in Seen(memory, log).bus ==> Complete(p)
  {
    hide Complete, Good, Step, GoodSlot, Endpoint, Keeps, ToUs;
    if log != [] {
      var before, e := log[..|log| - 1], log[|log| - 1];
      SendsCompletePackets(memory, before);
      AlwaysGood(memory, before);
      if e.Arrives? && AnswerTo(After(memory, before), e.arrival, e.stale).Data? {
        AnswerIsComplete(After(memory, before), e.arrival, e.stale);
      }
    }
  }

  lemma AnswerIsComplete(d: State, arrival: seq<bv8>, stale: Stale)
    requires Good(d) && AnswerTo(d, arrival, stale).Data?
    ensures Complete(AnswerTo(d, arrival, stale).packet)
  {
    hide Complete, WellFormed, Endpoint, Rol;
    GoodIsComplete(AnswerTo(d, arrival, stale).packet);
  }

  // ---------------------------------------------------------------- control transfers

  function InSlot(slot: Answer): seq<seq<bv8>> {
    if slot.Data? then [slot.packet] else []
  }

  /** Endpoint 0 since the last SETUP: sent, waiting, or still to build. */
  function Outgoing(t: Traffic, d: State): seq<seq<bv8>> {
    t.sent + InSlot(d.slot0) + d.plan.rest
  }

  /** A request, or a control-out packet that the application does more with than take it. */
  predicate Disturbs(d: State, e: Event) {
    && e.Process? && d.buffer.Waiting?
    && (IsSetup(d.buffer.message) || (d.buffer.message.token != SETUP && d.plan.user && e.env.written != 0))
  }

  predicate Undisturbed(memory: nat -> bv8, log: seq<Event>, n: nat) {
    forall k :: n <= k < |log| ==> !Disturbs(After(memory, log[..k]), log[k])
  }

  lemma UndisturbedBefore(memory: nat -> bv8, log: seq<Event>, n: nat)
    requires log != [] && Undisturbed(memory, log, n)
    ensures Undisturbed(memory, log[..|log| - 1], n)
    ensures n < |log| ==> !Disturbs(After(memory, log[..|log| - 1]), log[|log| - 1])
  {
    hide Disturbs, After;
    var before := log[..|log| - 1];
    forall k | n <= k < |before|
      ensures !Disturbs(After(memory, before[..k]), before[k])
    {
      assert before[..k] == log[..k] && before[k] == log[k];
    }
  }

  lemma OutgoingStep(memory: nat -> bv8, t: Traffic, d: State, e: Event)
    requires !Disturbs(d, e)
    ensures Outgoing(Noted(t, d, e), Step(memory, d, e)) == Outgoing(t, d)
    ensures Step(memory, d, e).plan.user == d.plan.user
  {
    hide Promise, Blocks, Toggle, Packet, Restarted, Deliver, Heard;
    match e {
      case Arrives(arrival, stale) => OutgoingArrival(t, d, arrival, stale);
      case Built => OutgoingBuilt(memory, t, d);
      case _ =>
    }
  }

  /** A packet moves into the slot. */
  lemma OutgoingBuilt(memory: nat -> bv8, t: Traffic, d: State)
    ensures Outgoing(t, Step(memory, d, Built)) == Outgoing(t, d)
    ensures Step(memory, d, Built).plan.user == d.plan.user
  {
    hide Deliver, Taken, Toggle, Packet;
    if d.plan.rest != [] {
      assert d.plan.rest == [d.plan.rest[0]] + d.plan.rest[1..];
    }
  }

  /** A packet moves from its slot to the bus. */
  lemma OutgoingArrival(t: Traffic, d: State, arrival: seq<bv8>, stale: Stale)
    ensures var t', d' := Heard(t, d, arrival, stale), Deliver(d, arrival, stale);
      Outgoing(t', d') == Outgoing(t, d) && d'.plan == d.plan
  {
    hide Rol, NextToken, IsToken, ToUs, Keeps, Front, Endpoint;
  }

  /** What endpoint 0 was to send after n events is what it sends, as long as nothing new is
      asked for. */
  lemma {:induction false} OutgoingKept(memory: nat -> bv8, log: seq<Event>, n: nat)
    requires n <= |log| && Undisturbed(memory, log, n)
    ensures Outgoing(Seen(memory, log), After(memory, log))
         == Outgoing(Seen(memory, log[..n]), After(memory, log[..n]))
    ensures After(memory, log).plan.user == After(memory, log[..n]).plan.user
    decreases |log|
  {
    hide Outgoing, Undisturbed, Disturbs, Step, Noted, Good;
    if n == |log| {
      assert log[..n] == log;
    } else {
      var before := log[..|log| - 1];
      UndisturbedBefore(memory, log, n);
      OutgoingKept(memory, before, n);
      assert before[..n] == log[..n];
      OutgoingStep(memory, Seen(memory, before), After(memory, before), log[|log| - 1]);
    }
  }

  /** Event n is a SETUP of eight bytes. */
  predicate SetupAt(memory: nat -> bv8, log: seq<Event>, n: nat) {
    n < |log| && log[n].Process? && var b := After(memory, log[..n]).buffer; b.Waiting? && IsSetup(b.message)
  }

  /** Event n is a control-out packet while the application takes them. */
  predicate OutAt(memory: nat -> bv8, log: seq<Event>, n: nat) {
    && n < |log| && log[n].Process?
    && var d := After(memory, log[..n]);
    d.buffer.Waiting? && d.buffer.message.token != SETUP && d.plan.user
  }

  function PromisedAt(memory: nat -> bv8, log: seq<Event>, n: nat): seq<seq<bv8>>
    requires SetupAt(memory, log, n)
  {
    var d := After(memory, log[..n]);
    Promise(d.buffer.message.data, d.plan.configuration, memory, log[n].env.outcome)
  }

  lemma Prefix(memory: nat -> bv8, log: seq<Event>, n: nat)
    requires n < |log|
    ensures After(memory, log[..n + 1]) == Step(memory, After(memory, log[..n]), log[n])
    ensures Seen(memory, log[..n + 1]) == Noted(Seen(memory, log[..n]), After(memory, log[..n]), log[n])
  {
    hide After, Seen, Step, Noted;
    assert log[..n + 1] == log[..n] + [log[n]];
    OneMoreEvent(memory, log[..n], log[n]);
  }

  /** After a SETUP, until something else is asked for, the packets on endpoint 0 are a prefix
      of those its request promises; all of them, once nothing waits and nothing is left to
      build. */
  lemma ControlReply(memory: nat -> bv8, log: seq<Event>, n: nat)
    requires SetupAt(memory, log, n) && Undisturbed(memory, log, n + 1)
    ensures var t, d := Seen(memory, log), After(memory, log);
      && Outgoing(t, d) == PromisedAt(memory, log, n)
      && t.sent <= PromisedAt(memory, log, n)
      && (d.plan.rest == [] && !d.slot0.Data? ==> t.sent == PromisedAt(memory, log, n))
  {
    hide Promise, Seen, After, Undisturbed, ForDriver, SetsInterface, SetsAddress, SetsConfiguration;
    Prefix(memory, log, n);
    OutgoingKept(memory, log, n + 1);
  }

  /** A control-out transfer that the application takes: after its last packet, and not before,
      the host gets exactly one empty packet, with identifier DATA1. */
  lemma StatusStage(memory: nat -> bv8, log: seq<Event>, n: nat, m: nat)
    requires SetupAt(memory, log, n) && PromisedAt(memory, log, n) == []
    requires n < m && OutAt(memory, log, m) && log[m].env.written != 0 && log[m].env.written != 0xFF
    requires Undisturbed(memory, log[..m], n + 1) && Undisturbed(memory, log, m + 1)
    ensures Seen(memory, log[..m]).sent == []
    ensures var t, d := Seen(memory, log), After(memory, log);
      && Outgoing(t, d) == [Packet(0x4B, [])]
      && (d.plan.rest == [] && !d.slot0.Data? ==> t.sent == [Packet(0x4B, [])])
  {
    hide Promise, Seen, After, Undisturbed, ForDriver, SetsInterface, SetsAddress, SetsConfiguration, Packet;
    SameSetup(memory, log, n, m);
    ControlReply(memory, log[..m], n);
    StillFirst(memory, log[..m], n);
    Prefix(memory, log, m);
    OutgoingKept(memory, log, m + 1);
    ToggleSwaps();
  }

  lemma SameSetup(memory: nat -> bv8, log: seq<Event>, n: nat, m: nat)
    requires SetupAt(memory, log, n) && n < m <= |log|
    ensures SetupAt(memory, log[..m], n) && PromisedAt(memory, log[..m], n) == PromisedAt(memory, log, n)
  {
    assert log[..m][..n] == log[..n];
  }

  /** Nothing promised, nothing built: the identifier is still that of the SETUP. */
  lemma {:induction false} StillFirst(memory: nat -> bv8, log: seq<Event>, n: nat)
    requires SetupAt(memory, log, n) && PromisedAt(memory, log, n) == [] && Undisturbed(memory, log, n + 1)
    ensures After(memory, log).plan.last == DATA0
    decreases |log|
  {
    hide Promise, Seen, Undisturbed, ForDriver, SetsInterface, SetsAddress, SetsConfiguration, Packet;
    hide Deliver, Restarted, Disturbs, Outgoing;
    if n + 1 == |log| {
      Prefix(memory, log, n);
      assert log[..n + 1] == log;
    } else {
      var before := log[..|log| - 1];
      UndisturbedBefore(memory, log, n + 1);
      SameSetup(memory, log, n, |log| - 1);
      StillFirst(memory, before, n);
      ControlReply(memory, before, n);
      LastKept(memory, Seen(memory, before), After(memory, before), log[|log| - 1]);
    }
  }

  lemma LastKept(memory: nat -> bv8, t: Traffic, d: State, e: Event)
    requires Outgoing(t, d) == [] && !Disturbs(d, e)
    ensures Step(memory, d, e).plan.last == d.plan.last
  {
    hide Promise, Blocks, Rol, Packet, Endpoint, AnswerTo, Keeps, NextToken, Restarted;
    assert d.plan.rest == [];
  }

  /** When the application reports an error, every IN on endpoint 0 finds a stall, until the
      next request. */
  lemma {:induction false} StallStage(memory: nat -> bv8, log: seq<Event>, n: nat)
    requires OutAt(memory, log, n) && log[n].env.written == 0xFF && After(memory, log[..n]).plan.rest == []
    requires Undisturbed(memory, log, n + 1)
    ensures After(memory, log).slot0 == Handshake(0x1E) && After(memory, log).plan.rest == []
    decreases |log|
  {
    hide Promise, Seen, Undisturbed, ForDriver, SetsInterface, SetsAddress, SetsConfiguration, Packet;
    hide Restarted, Outgoing, AnswerTo, Keeps, Endpoint, Rol, NextToken, Blocks;
    if n + 1 == |log| {
      Prefix(memory, log, n);
      assert log[..n + 1] == log;
    } else {
      var before := log[..|log| - 1];
      UndisturbedBefore(memory, log, n + 1);
      assert before[..n] == log[..n];
      StallStage(memory, before, n);
      StallKept(memory, After(memory, before), log[|log| - 1]);
    }
  }

  lemma StallKept(memory: nat -> bv8, d: State, e: Event)
    requires d.slot0 == Handshake(STALL) && d.plan.rest == [] && !Disturbs(d, e)
    ensures Step(memory, d, e).slot0 == d.slot0 && Step(memory, d, e).plan.rest == []
  {
    hide Promise, Blocks, Rol, Packet, Keeps, NextToken, Restarted, IsToken;
  }

  // ---------------------------------------------------------------- the address

  /** Zero, and what SET_ADDRESS requests asked for, as the address register holds it. */
  function Assigned(messages: seq<Message>): set<bv8> {
    if messages == [] then {0}
    else
      var m := messages[|messages| - 1];
      Assigned(messages[..|messages| - 1]) + if SetsAddress(m) then {Rol(m.data[2], 0)} else {}
  }

  lemma AssignedOneMore(messages: seq<Message>, m: Message)
    ensures Assigned(messages + [m]) == Assigned(messages) + if SetsAddress(m) then {Rol(m.data[2], 0)} else {}
  {
    assert (messages + [m])[..|messages|] == messages;
  }

  predicate AddressGood(t: Traffic, d: State) {
    0 in Assigned(t.processed) && d.address in Assigned(t.processed)
    && Rol(d.plan.newAddress, 0) in Assigned(t.processed)
  }

  lemma AddressStep(memory: nat -> bv8, t: Traffic, d: State, e: Event)
    requires AddressGood(t, d)
    ensures AddressGood(Noted(t, d, e), Step(memory, d, e))
  {
    hide Promise, Blocks, Rol, Packet, Endpoint, AnswerTo, Keeps, NextToken, Restarted, Assigned;
    RolZero();
    if e.Process? && d.buffer.Waiting? {
      AssignedOneMore(t.processed, d.buffer.message);
    }
  }

  lemma RolZero()
    ensures Rol(0, 0) == 0
  {
  }

  /** The address is zero or one that the host assigned. */
  lemma {:induction false} AddressIsAssigned(memory: nat -> bv8, log: seq<Event>)
    ensures AddressGood(Seen(memory, log), After(memory, log))
  {
    hide AddressGood, Step, Noted;
    if log == [] {
      AddressStart();
    } else {
      var before := log[..|log| - 1];
      AddressIsAssigned(memory, before);
      AddressStep(memory, Seen(memory, before), After(memory, before), log[|log| - 1]);
    }
  }

  lemma AddressStart()
    ensures AddressGood(Traffic([], [], [], [], []), START)
  {
    RolZero();
  }

  /** No bus reset, and no SET_ADDRESS. */
  predicate Quiescent(d: State, e: Event) {
    && e != AddressCleared && e != NewAddressCleared
    && !(e.Process? && d.buffer.Waiting? && SetsAddress(d.buffer.message))
  }

  predicate AllQuiescent(memory: nat -> bv8, log: seq<Event>, n: nat) {
    forall k :: n <= k < |log| ==> Quiescent(After(memory, log[..k]), log[k])
  }

  lemma QuiescentBefore(memory: nat -> bv8, log: seq<Event>, n: nat)
    requires log != [] && AllQuiescent(memory, log, n)
    ensures AllQuiescent(memory, log[..|log| - 1], n)
    ensures n < |log| ==> Quiescent(After(memory, log[..|log| - 1]), log[|log| - 1])
  {
    hide Quiescent, After;
    var before := log[..|log| - 1];
    forall k | n <= k < |before|
      ensures Quiescent(After(memory, before[..k]), before[k])
    {
      assert before[..k] == log[..k] && before[k] == log[k];
    }
  }

  lemma SwitchStep(memory: nat -> bv8, t: Traffic, d: State, e: Event)
    requires Quiescent(d, e)
    ensures var t', d' := Noted(t, d, e), Step(memory, d, e);
      && d'.plan.newAddress == d.plan.newAddress
      && |t.bus| <= |t'.bus|
      && d'.address == if |t'.bus| == |t.bus| then d.address else Rol(d.plan.newAddress, 0)
  {
    hide Promise, Blocks, Toggle, Packet, Restarted, Deliver, Heard, Rol;
    if e.Arrives? {
      SwitchArrival(t, d, e.arrival, e.stale);
    }
  }

  lemma SwitchArrival(t: Traffic, d: State, arrival: seq<bv8>, stale: Stale)
    ensures var t', d' := Heard(t, d, arrival, stale), Deliver(d, arrival, stale);
      && d'.plan == d.plan
      && |t.bus| <= |t'.bus|
      && d'.address == if |t'.bus| == |t.bus| then d.address else Rol(d.plan.newAddress, 0)
  {
    hide Rol, NextToken, IsToken, ToUs, Keeps, Front, Endpoint;
  }

  /** Without a reset or another SET_ADDRESS, the address stays until a data packet goes out,
      on either endpoint; from then on it is the one asked for last. */
  lemma {:induction false} AddressSwitches(memory: nat -> bv8, log: seq<Event>, n: nat)
    requires n <= |log| && AllQuiescent(memory, log, n)
    ensures var d, d' := After(memory, log[..n]), After(memory, log);
      var sent, sent' := |Seen(memory, log[..n]).bus|, |Seen(memory, log).bus|;
      && d'.plan.newAddress == d.plan.newAddress
      && sent <= sent'
      && d'.address == if sent' == sent then d.address else Rol(d.plan.newAddress, 0)
    decreases |log|
  {
    hide Quiescent, AllQuiescent, Step, Noted, Rol;
    if n == |log| {
      assert log[..n] == log;
    } else {
      var before := log[..|log| - 1];
      QuiescentBefore(memory, log, n);
      AddressSwitches(memory, before, n);
      assert before[..n] == log[..n];
      SwitchStep(memory, Seen(memory, before), After(memory, before), log[|log| - 1]);
    }
  }

  lemma StayStep(memory: nat -> bv8, t: Traffic, d: State, e: Event)
    requires e != AddressCleared
    ensures var t', d' := Noted(t, d, e), Step(memory, d, e);
      |t.bus| <= |t'.bus| && (|t'.bus| == |t.bus| ==> d'.address == d.address)
  {
    hide Promise, Blocks, Toggle, Packet, Restarted, Deliver, Heard, Rol;
    if e.Arrives? {
      SwitchArrival(t, d, e.arrival, e.stale);
    }
  }

  /** Without a reset and without a data packet, nothing changes the address. */
  lemma {:induction false} AddressStays(memory: nat -> bv8, log: seq<Event>, n: nat)
    requires n <= |log| && forall k :: n <= k < |log| ==> log[k] != AddressCleared
    ensures var sent, sent' := |Seen(memory, log[..n]).bus|, |Seen(memory, log).bus|;
      && sent <= sent'
      && (sent' == sent ==> After(memory, log).address == After(memory, log[..n]).address)
    decreases |log|
  {
    hide Step, Noted;
    if n == |log| {
      assert log[..n] == log;
    } else {
      var before := log[..|log| - 1];
      AddressStays(memory, before, n);
      assert before[..n] == log[..n];
      StayStep(memory, Seen(memory, before), After(memory, before), log[|log| - 1]);
    }
  }

  // ---------------------------------------------------------------- reports

  /** Reports sent or waiting since the last SET_INTERFACE. */
  function Reports(t: Traffic, d: State): seq<seq<bv8>> {
    t.sent1 + InSlot(d.slot1)
  }

  /** Identifiers alternate, and the last one used is the one remembered. */
  predicate InOrder(reports: seq<seq<bv8>>, last: bv8) {
    Alternating(reports) && (reports != [] ==> reports[|reports| - 1][0] == last)
  }

  predicate Regular(t: Traffic, d: State) {
    InOrder(Reports(t, d), d.plan.last1)
  }

  lemma StartRegular(memory: nat -> bv8)
    ensures Regular(Seen(memory, []), After(memory, []))
  {
  }

  lemma RegularStep(memory: nat -> bv8, t: Traffic, d: State, e: Event)
    requires Good(d) && Regular(t, d) && !e.Withdrawn? && (e.Reported? ==> e.toggled)
    ensures Regular(Noted(t, d, e), Step(memory, d, e))
  {
    hide Promise, Packet, Deliver, Heard, Alternating, Toggle, Blocks, Restarted, Good, ForDriver;
    match e {
      case Arrives(arrival, stale) => RegularArrival(t, d, arrival, stale);
      case Reported(report, toggled) =>
        if !d.slot1.Data? {
          RegularReport(t, d, report);
        }
      case Process(env) =>
        if d.buffer.Waiting? && SetsInterface(d.buffer.message) {
          RegularRestart(t, d);
        }
      case _ =>
    }
  }

  /** A report moves from its slot to the bus. */
  lemma RegularArrival(t: Traffic, d: State, arrival: seq<bv8>, stale: Stale)
    requires Regular(t, d)
    ensures Regular(Heard(t, d, arrival, stale), Deliver(d, arrival, stale))
  {
    hide Rol, NextToken, IsToken, ToUs, Alternating, Keeps, Front, Endpoint;
    var t', d' := Heard(t, d, arrival, stale), Deliver(d, arrival, stale);
    assert d'.plan.last1 == d.plan.last1;
    assert Reports(t', d') == Reports(t, d);
  }

  lemma RegularReport(t: Traffic, d: State, report: Report)
    requires Regular(t, d) && !d.slot1.Data?
    ensures var token := Toggle(d.plan.last1);
      Regular(t, d.(slot1 := Data(Packet(token, report)), plan := d.plan.(last1 := token)))
  {
    hide Toggle, Packet, Alternating;
    var token := Toggle(d.plan.last1);
    var d' := d.(slot1 := Data(Packet(token, report)), plan := d.plan.(last1 := token));
    OneMoreReport(Reports(t, d), d.plan.last1, report);
    assert Reports(t, d') == Reports(t, d) + [Packet(token, report)];
  }

  lemma OneMoreReport(reports: seq<seq<bv8>>, last: bv8, report: Report)
    requires Alternating(reports) && (reports != [] ==> reports[|reports| - 1][0] == last)
    ensures Alternating(reports + [Packet(Toggle(last), report)])
  {
    hide Toggle, CrcBytes;
  }

  lemma RegularRestart(t: Traffic, d: State)
    requires Good(d)
    ensures var slot := Restarted(d.slot1);
      Alternating([] + InSlot(slot)) && (slot.Data? ==> |slot.packet| > 0 && slot.packet[0] == DATA1)
  {
    hide Toggle, CrcBytes;
  }

  predicate AllToggled(log: seq<Event>, n: nat) {
    forall k :: n <= k < |log| ==> !log[k].Withdrawn? && (log[k].Reported? ==> log[k].toggled)
  }

  /** While every report is queued in a free slot, the host sees alternating identifiers. */
  lemma {:induction false} ReportsAlternate(memory: nat -> bv8, log: seq<Event>, n: nat)
    requires n <= |log| && Regular(Seen(memory, log[..n]), After(memory, log[..n]))
    requires AllToggled(log, n)
    ensures Regular(Seen(memory, log), After(memory, log))
    decreases |log|
  {
    hide Regular, Step, Noted, Good;
    if n == |log| {
      assert log[..n] == log;
    } else {
      var before := log[..|log| - 1];
      assert before[..n] == log[..n];
      ReportsAlternate(memory, before, n);
      AlwaysGood(memory, before);
      RegularStep(memory, Seen(memory, before), After(memory, before), log[|log| - 1]);
    }
  }

  /** A report queued with the identifier used before spoils the alternation exactly if its
      predecessor has gone out. */
  lemma SameIdentifier(sent: seq<seq<bv8>>, slot: Answer, last: bv8, report: Report)
    requires InOrder(sent + InSlot(slot), last) && sent + InSlot(slot) != [] && IsToken(last)
    ensures slot.Data? <==> InOrder(sent + [Packet(last, report)], last)
  {
    hide Toggle, CrcBytes, IsToken;
    var packet := Packet(last, report);
    if slot.Data? {
      LastReplaced(sent, slot.packet, packet);
    } else {
      assert sent + [] == sent;
      TwiceTheSame(sent, packet);
    }
  }

  lemma LastReplaced(sent: seq<seq<bv8>>, a: seq<bv8>, b: seq<bv8>)
    requires Alternating(sent + [a]) && |a| >= 3 && |b| >= 3 && b[0] == a[0]
    ensures Alternating(sent + [b])
  {
    hide Toggle;
    var x, y := sent + [a], sent + [b];
    forall i | 0 <= i < |y|
      ensures |y[i]| >= 3 && (i > 0 ==> |y[i - 1]| >= 3 && y[i][0] == Toggle(y[i - 1][0]))
    {
      assert |x[i]| >= 3 && (i > 0 ==> y[i - 1] == x[i - 1] && x[i][0] == Toggle(x[i - 1][0]));
    }
  }

  lemma TwiceTheSame(sent: seq<seq<bv8>>, b: seq<bv8>)
    requires sent != [] && |sent[|sent| - 1]| >= 3 && |b| >= 3
    requires b[0] == sent[|sent| - 1][0] && IsToken(b[0])
    ensures !Alternating(sent + [b])
  {
    hide Toggle;
    ToggleIsToken(b[0]);
    var y := sent + [b];
    assert y[|sent|][0] == b[0] && y[|sent| - 1] == sent[|sent| - 1];
  }

  /** The first report has this identifier, or will have. */
  predicate FirstIs(t: Traffic, d: State, token: bv8) {
    var reports := Reports(t, d);
    if reports == [] then d.plan.last1 == DATA1 && token == DATA0
    else |reports[0]| > 0 && reports[0][0] == token
  }

  /** SET_INTERFACE is not processed, nothing withdrawn, and every report toggles. */
  predicate Steady(d: State, e: Event) {
    && !e.Withdrawn? && (e.Reported? ==> e.toggled)
    && !(e.Process? && d.buffer.Waiting? && SetsInterface(d.buffer.message))
  }

  lemma FirstStep(memory: nat -> bv8, t: Traffic, d: State, e: Event, token: bv8)
    requires FirstIs(t, d, token) && Steady(d, e)
    ensures FirstIs(Noted(t, d, e), Step(memory, d, e), token)
  {
    hide Promise, Deliver, Heard, Blocks, Restarted, ForDriver, CrcBytes;
    match e {
      case Arrives(arrival, stale) =>
        ReportsArrival(t, d, arrival, stale);
        DeliverDrifts(d, d, arrival, stale);
      case Reported(report, toggled) =>
        ToggleSwaps();
        assert t.sent1 + [] == t.sent1;
      case _ =>
    }
  }

  /** After SET_INTERFACE the reports start with DATA0, as the standard wants, if and only if
      none waited; one that waits goes out first, as DATA1. */
  lemma {:induction false} FirstReport(memory: nat -> bv8, log: seq<Event>, n: nat)
    requires n < |log| && log[n].Process?
    requires var b := After(memory, log[..n]).buffer; b.Waiting? && SetsInterface(b.message)
    requires forall k :: n < k < |log| ==> Steady(After(memory, log[..k]), log[k])
    ensures var reports := Reports(Seen(memory, log), After(memory, log));
      reports != [] ==>
        |reports[0]| > 0 && (reports[0][0] == DATA0 <==> !After(memory, log[..n]).slot1.Data?)
    ensures FirstIs(Seen(memory, log), After(memory, log),
                    if After(memory, log[..n]).slot1.Data? then DATA1 else DATA0)
    decreases |log|
  {
    hide After, Seen, Step, Noted, Steady, SetsInterface;
    if n + 1 == |log| {
      assert log[..n + 1] == log;
      Prefix(memory, log, n);
      AlwaysGood(memory, log[..n]);
      FirstRestarted(memory, Seen(memory, log[..n]), After(memory, log[..n]), log[n]);
    } else {
      var before := log[..|log| - 1];
      assert before[..n] == log[..n];
      forall k | n < k < |before|
        ensures Steady(After(memory, before[..k]), before[k])
      {
        assert before[..k] == log[..k];
      }
      FirstReport(memory, before, n);
      FirstStep(memory, Seen(memory, before), After(memory, before), log[|log| - 1],
                if After(memory, log[..n]).slot1.Data? then DATA1 else DATA0);
      Prefix(memory, log, |log| - 1);
      assert log[..|log|] == log;
    }
  }

  lemma FirstRestarted(memory: nat -> bv8, t: Traffic, d: State, e: Event)
    requires Good(d) && e.Process? && d.buffer.Waiting? && SetsInterface(d.buffer.message)
    ensures FirstIs(Noted(t, d, e), Step(memory, d, e), if d.slot1.Data? then DATA1 else DATA0)
  {
    hide Promise, Blocks, ForDriver, CrcBytes;
  }

  // ---------------------------------------------------------------- packets alone

  predicate SlotDrifts(a: Answer, b: Answer) {
    b == a || (a.Data? && b == Handshake(NAK))
  }

  /** What arriving packets can do between two actions of the main loop: nothing but change the
      token while a message is unprocessed, and never more than empty a slot. */
  predicate Drifts(a: State, b: State) {
    && a.plan == b.plan
    && (!a.buffer.Empty? ==> b == a.(token := b.token))
    && SlotDrifts(a.slot0, b.slot0) && SlotDrifts(a.slot1, b.slot1)
  }

  lemma DeliverDrifts(a: State, b: State, arrival: seq<bv8>, stale: Stale)
    requires Drifts(a, b)
    ensures Drifts(a, Deliver(b, arrival, stale))
  {
    hide Rol, Endpoint, NextToken, IsToken;
  }

  predicate OnlyArrivals(a: seq<Event>, b: seq<Event>) {
    a <= b && forall k :: |a| <= k < |b| ==> b[k].Arrives?
  }

  lemma OnlyArrivalsCompose(a: seq<Event>, b: seq<Event>, c: seq<Event>)
    requires OnlyArrivals(a, b) && OnlyArrivals(b, c)
    ensures OnlyArrivals(a, c)
  {
  }

  lemma {:induction false} ArrivalsDrift(memory: nat -> bv8, a: seq<Event>, b: seq<Event>)
    requires OnlyArrivals(a, b)
    ensures Drifts(After(memory, a), After(memory, b))
    ensures Reports(Seen(memory, b), After(memory, b)) == Reports(Seen(memory, a), After(memory, a))
    decreases |b|
  {
    hide Reports, Deliver, Heard, Drifts;
    if |a| == |b| {
      assert a == b;
      DriftsNowhere(After(memory, a));
    } else {
      var before, e := b[..|b| - 1], b[|b| - 1];
      ArrivalsDrift(memory, a, before);
      DeliverDrifts(After(memory, a), After(memory, before), e.arrival, e.stale);
      ReportsArrival(Seen(memory, before), After(memory, before), e.arrival, e.stale);
    }
  }

  lemma EmptyStays(a: State, b: State)
    requires Drifts(a, b) && b.buffer.Empty?
    ensures a.buffer.Empty?
  {
  }

  lemma DriftsNowhere(a: State)
    ensures Drifts(a, a)
  {
  }

  lemma ReportsArrival(t: Traffic, d: State, arrival: seq<bv8>, stale: Stale)
    ensures Reports(Heard(t, d, arrival, stale), Deliver(d, arrival, stale)) == Reports(t, d)
  {
    hide Rol, NextToken, IsToken, ToUs, Keeps, Front, Endpoint;
  }

  /** A report queued while another one waits: the identifiers still alternate if and only if
      that one has not gone out by the time it is withdrawn. */
  lemma QueuedAgain(memory: nat -> bv8, l0: seq<Event>, l1: seq<Event>, l2: seq<Event>, report: Report)
    requires OnlyArrivals(l0, l1) && OnlyArrivals(l1 + [Withdrawn], l2)
    requires After(memory, l0).slot1.Data? && Regular(Seen(memory, l0), After(memory, l0))
    ensures var l3 := l2 + [Reported(report, false)];
      After(memory, l1).slot1.Data? <==> Regular(Seen(memory, l3), After(memory, l3))
  {
    hide After, Seen, Alternating, Packet, Toggle, Deliver, Heard, OnlyArrivals, InOrder;
    ArrivalsDrift(memory, l0, l1);
    OneMoreEvent(memory, l1, Withdrawn);
    ArrivalsDrift(memory, l1 + [Withdrawn], l2);
    OneMoreEvent(memory, l2, Reported(report, false));
    var t, d := Seen(memory, l1), After(memory, l1);
    AlwaysGood(memory, l1);
    SameIdentifier(t.sent1, d.slot1, d.plan.last1, report);
    assert t.sent1 + [] == t.sent1;
    assert !After(memory, l2).slot1.Data?;
    var l3 := l2 + [Reported(report, false)];
    assert Reports(Seen(memory, l3), After(memory, l3)) == t.sent1 + [Packet(d.plan.last1, report)] by {
      assert Seen(memory, l3).sent1 + [] == Seen(memory, l2).sent1;
    }
  }

  /** A report queued in a free slot continues the alternation. */
  lemma QueuedNext(memory: nat -> bv8, l0: seq<Event>, l1: seq<Event>, report: Report)
    requires OnlyArrivals(l0, l1) && Regular(Seen(memory, l0), After(memory, l0))
    ensures var l2 := l1 + [Reported(report, true)];
      Regular(Seen(memory, l2), After(memory, l2))
  {
    hide After, Seen, Regular;
    var l2 := l1 + [Reported(report, true)];
    assert l2[..|l0|] == l0;
    ReportsAlternate(memory, l2, |l0|);
  }

  // ---------------------------------------------------------------- reading a log

  /** The main loop's part of a log. */
  function Actions(log: seq<Event>): seq<Event> {
    if log == [] then []
    else Actions(log[..|log| - 1]) + if log[|log| - 1].Arrives? then [] else [log[|log| - 1]]
  }

  /** The packets that arrived. */
  function Arrivals(log: seq<Event>): seq<seq<bv8>> {
    if log == [] then []
    else Arrivals(log[..|log| - 1]) + if log[|log| - 1].Arrives? then [log[|log| - 1].arrival] else []
  }

  lemma OneMoreListed(log: seq<Event>, e: Event)
    ensures Actions(log + [e]) == Actions(log) + if e.Arrives? then [] else [e]
    ensures Arrivals(log + [e]) == Arrivals(log) + if e.Arrives? then [e.arrival] else []
  {
    assert (log + [e])[..|log|] == log;
  }

  /** What holds of every action holds of every event that is one. */
  lemma {:induction false} ActionIn(log: seq<Event>, n: nat, k: nat)
    requires n <= k < |log| && !log[k].Arrives?
    ensures |Actions(log[..n])| <= |Actions(log)| && log[k] in Actions(log)[|Actions(log[..n])|..]
    decreases |log|
  {
    var before, last := log[..|log| - 1], log[|log| - 1];
    var p := |Actions(log[..n])|;
    assert before[..n] == log[..n];
    ActionsGrow(before, n);
    assert Actions(log)[p..] == Actions(before)[p..] + if last.Arrives? then [] else [last];
    if k < |log| - 1 {
      ActionIn(before, n, k);
    }
  }

  lemma {:induction false} ActionsGrow(log: seq<Event>, n: nat)
    requires n <= |log|
    ensures Actions(log[..n]) <= Actions(log)
    decreases |log|
  {
    if n == |log| {
      assert log[..n] == log;
    } else {
      var before := log[..|log| - 1];
      assert before[..n] == log[..n];
      ActionsGrow(before, n);
    }
  }

  /** The first action after n events, with nothing but packets before it. */
  lemma {:induction false} FirstAction(log: seq<Event>, n: nat) returns (k: nat)
    requires n <= |log| && |Actions(log[..n])| < |Actions(log)|
    ensures n <= k < |log| && OnlyArrivals(log[..n], log[..k]) && log[k] == Actions(log)[|Actions(log[..n])|]
    decreases |log| - n
  {
    assert log[..|log|] == log;
    OneMoreListed(log[..n], log[n]);
    assert log[..n] + [log[n]] == log[..n + 1];
    if log[n].Arrives? {
      k := FirstAction(log, n + 1);
    } else {
      k := n;
      ActionsGrow(log, n + 1);
    }
  }

  /** A SETUP that waits when nothing but packets follows until it is processed. */
  lemma WaitingSetup(memory: nat -> bv8, log: seq<Event>, n: nat, k: nat)
    requires n <= k < |log| && OnlyArrivals(log[..n], log[..k]) && log[k].Process?
    requires var b := After(memory, log[..n]).buffer; b.Waiting? && IsSetup(b.message)
    ensures SetupAt(memory, log, k)
    ensures var d := After(memory, log[..n]);
      PromisedAt(memory, log, k)
      == Promise(d.buffer.message.data, d.plan.configuration, memory, log[k].env.outcome)
  {
    hide After, Promise, OnlyArrivals, IsSetup;
    ArrivalsDrift(memory, log[..n], log[..k]);
  }

  // ---------------------------------------------------------------- rounds of the main loop

  /** One pass of main's loop: usbPoll, and a report if endpoint 1 is ready for one. */
  datatype Round = Round(env: Environment, report: Report)

  function HeldActions(env: Environment, held: bool): seq<Event> {
    if held then [Process(env), Freed] else []
  }

  function PollActions(env: Environment, held: bool, built: bool): seq<Event> {
    HeldActions(env, held)
    + (if built then [Built] else [])
    + (if env.reset then [NewAddressCleared, AddressCleared] else [])
  }

  function RoundActions(r: Round, held: bool, built: bool, reported: bool): seq<Event> {
    PollActions(r.env, held, built) + if reported then [Reported(r.report, true)] else []
  }

  predicate Buildable(d: State) {
    !d.slot0.Data? && d.plan.rest != []
  }

  /** One round, from log a to log b: a message that waits at the start is processed and its
      buffer freed; a packet is built if at `test` one is left to build and the slot free; a
      reset clears the addresses; a report is queued if at `test1` endpoint 1 is free. */
  predicate RoundAt(memory: nat -> bv8, r: Round, a: seq<Event>, test: seq<Event>, test1: seq<Event>, b: seq<Event>) {
    && a <= test <= test1 <= b
    && var held, built := After(memory, a).buffer.Waiting?, Buildable(After(memory, test));
    && Actions(test) == Actions(a) + HeldActions(r.env, held)
    && Actions(test1) == Actions(a) + PollActions(r.env, held, built)
    && Actions(b) == Actions(a) + RoundActions(r, held, built, !After(memory, test1).slot1.Data?)
  }

  ghost predicate OneRound(memory: nat -> bv8, r: Round, a: seq<Event>, b: seq<Event>) {
    exists test, test1 :: RoundAt(memory, r, a, test, test1, b)
  }

  /** logs lists the log before and after each round. */
  ghost predicate Run(memory: nat -> bv8, rounds: seq<Round>, logs: seq<seq<Event>>) {
    && |logs| == |rounds| + 1
    && forall i :: 0 <= i < |rounds| ==> OneRound(memory, rounds[i], logs[i], logs[i + 1])
  }

  /** In a round nothing is withdrawn, every report gets the other identifier, and only a reset
      clears the address. */
  predicate MainOnly(e: Event, reset: bool) {
    !e.Withdrawn? && (e.Reported? ==> e.toggled) && (e == AddressCleared ==> reset)
  }

  lemma RoundIsMain(r: Round, held: bool, built: bool, reported: bool)
    ensures forall e :: e in RoundActions(r, held, built, reported) ==> MainOnly(e, r.env.reset)
    ensures (held ==> var did := RoundActions(r, held, built, reported);
              did != [] && did[0] == Process(r.env))
  {
  }

  lemma RoundGrows(memory: nat -> bv8, r: Round, a: seq<Event>, b: seq<Event>)
    requires OneRound(memory, r, a, b)
    ensures a <= b && Actions(a) <= Actions(b)
    ensures forall e :: e in Actions(b)[|Actions(a)|..] ==> MainOnly(e, r.env.reset)
    ensures (After(memory, a).buffer.Waiting? ==>
              |Actions(b)| > |Actions(a)| && Actions(b)[|Actions(a)|] == Process(r.env))
  {
    hide After, Actions, RoundActions, PollActions, MainOnly;
    var test, test1 :| RoundAt(memory, r, a, test, test1, b);
    var held, built := After(memory, a).buffer.Waiting?, Buildable(After(memory, test));
    var reported := !After(memory, test1).slot1.Data?;
    RoundIsMain(r, held, built, reported);
    assert Actions(b)[|Actions(a)|..] == RoundActions(r, held, built, reported);
  }

  lemma {:induction false} RunGrows(memory: nat -> bv8, rounds: seq<Round>, logs: seq<seq<Event>>)
    requires Run(memory, rounds, logs)
    ensures var a, b := logs[0], logs[|rounds|];
      && a <= b && Actions(a) <= Actions(b)
      && (forall e :: e in Actions(b)[|Actions(a)|..] ==>
            MainOnly(e, exists i :: 0 <= i < |rounds| && rounds[i].env.reset))
      && (rounds != [] && After(memory, a).buffer.Waiting? ==>
            |Actions(b)| > |Actions(a)| && Actions(b)[|Actions(a)|] == Process(rounds[0].env))
    decreases |rounds|
  {
    hide After, Actions, OneRound;
    var n := |rounds|;
    if n > 0 {
      var a, m, b := logs[0], logs[n - 1], logs[n];
      var before := rounds[..n - 1];
      RunGrows(memory, before, logs[..n]);
      RoundGrows(memory, rounds[n - 1], m, b);
      assert forall i :: 0 <= i < |before| ==> before[i] == rounds[i];
      assert Actions(b)[|Actions(a)|..] == Actions(m)[|Actions(a)|..] + Actions(b)[|Actions(m)|..];
      if n > 1 && After(memory, a).buffer.Waiting? {
        assert Actions(b)[|Actions(a)|] == Actions(m)[|Actions(a)|];
      }
    }
  }

  lemma ActionsSince(log: seq<Event>, n: nat)
    requires n <= |log|
    ensures |Actions(log[..n])| <= |Actions(log)|
    ensures forall k :: n <= k < |log| && !log[k].Arrives? ==> log[k] in Actions(log)[|Actions(log[..n])|..]
  {
    hide Actions;
    ActionsGrow(log, n);
    forall k | n <= k < |log| && !log[k].Arrives?
      ensures log[k] in Actions(log)[|Actions(log[..n])|..]
    {
      ActionIn(log, n, k);
    }
  }

  /** Whatever arrives and whenever, over any number of rounds: without a reset and without a
      data packet the address stays, and reports go on alternating. */
  lemma RunKeeps(memory: nat -> bv8, rounds: seq<Round>, logs: seq<seq<Event>>)
    requires Run(memory, rounds, logs)
    ensures var a, b := logs[0], logs[|rounds|];
      && a <= b
      && (|Seen(memory, b).bus| == |Seen(memory, a).bus|
          && (forall i :: 0 <= i < |rounds| ==> !rounds[i].env.reset) ==>
            After(memory, b).address == After(memory, a).address)
      && (Regular(Seen(memory, a), After(memory, a)) ==> Regular(Seen(memory, b), After(memory, b)))
  {
    hide Regular, Seen, After, Actions, OneRound;
    var a, b := logs[0], logs[|rounds|];
    RunGrows(memory, rounds, logs);
    assert b[..|a|] == a;
    ActionsSince(b, |a|);
    if forall i :: 0 <= i < |rounds| ==> !rounds[i].env.reset {
      AddressStays(memory, b, |a|);
    }
    if Regular(Seen(memory, a), After(memory, a)) {
      ReportsAlternate(memory, b, |a|);
    }
  }

  // ---------------------------------------------------------------- every message is processed

  lemma {:induction false} TrafficGrows(memory: nat -> bv8, log: seq<Event>, n: nat)
    requires n <= |log|
    ensures Seen(memory, log[..n]).processed <= Seen(memory, log).processed
    ensures Seen(memory, log[..n]).acked <= Seen(memory, log).acked
    decreases |log|
  {
    hide After, Heard;
    if n == |log| {
      assert log[..n] == log;
    } else {
      var before, e := log[..|log| - 1], log[|log| - 1];
      assert before[..n] == log[..n];
      TrafficGrows(memory, before, n);
      HeardGrows(Seen(memory, before), After(memory, before), e);
    }
  }

  lemma HeardGrows(t: Traffic, d: State, e: Event)
    ensures t.processed <= Noted(t, d, e).processed && t.acked <= Noted(t, d, e).acked
  {
    hide Endpoint, AnswerTo;
  }

  /** A round processes the message that waits when it begins: what was acknowledged before it
      is processed after it. */
  lemma RoundProcesses(memory: nat -> bv8, r: Round, a: seq<Event>, b: seq<Event>)
    requires OneRound(memory, r, a, b)
    ensures Seen(memory, a).acked <= Seen(memory, b).processed
  {
    hide Seen, After, Actions, OneRound;
    RoundGrows(memory, r, a, b);
    ExactlyOnce(memory, a);
    assert b[..|a|] == a;
    TrafficGrows(memory, b, |a|);
    var t, d := Seen(memory, a), After(memory, a);
    if d.buffer.Waiting? {
      var k := FirstAction(b, |a|);
      WaitsUntil(memory, a, b[..k]);
      Prefix(memory, b, k);
      TrafficGrows(memory, b, k + 1);
    } else {
      assert t.processed + [] == t.processed;
    }
  }

  /** Packets alone do not change what waits, nor what was processed. */
  lemma WaitsUntil(memory: nat -> bv8, a: seq<Event>, b: seq<Event>)
    requires OnlyArrivals(a, b) && After(memory, a).buffer.Waiting?
    ensures After(memory, b).buffer == After(memory, a).buffer
    ensures Seen(memory, b).processed == Seen(memory, a).processed
  {
    hide Seen, After, OnlyArrivals;
    ArrivalsDrift(memory, a, b);
    ArrivalsProcessNothing(memory, a, b);
  }

  lemma {:induction false} ArrivalsProcessNothing(memory: nat -> bv8, a: seq<Event>, b: seq<Event>)
    requires OnlyArrivals(a, b)
    ensures Seen(memory, b).processed == Seen(memory, a).processed
    decreases |b|
  {
    hide After, AnswerTo, Endpoint;
    if |a| == |b| {
      assert a == b;
    } else {
      ArrivalsProcessNothing(memory, a, b[..|b| - 1]);
    }
  }
}
