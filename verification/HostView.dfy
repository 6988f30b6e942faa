/** What the host gets for what it sends, with packets and requests given by their fields, and
    numbers and identifiers as they go over the wire: which tokens are answered, how long a reply
    is, what the standard requests return, which address is in force, which reports arrive. */
module HostView {
  import opened Avr
  import opened Transfer
  import opened Device

  // ---------------------------------------------------------------- tokens

  lemma AddressByte(a: bv8, e: bv8)
    requires a < 128 && e < 16
    ensures Rol(a + 128 * (e % 2), 0) == 2 * a
  {
  }

  lemma AddressesDiffer(a: bv8, b: bv8)
    requires a < 128 && b < 128 && a != b
    ensures 2 * a != 2 * b
  {
  }

  lemma EndpointBits(a: bv8, e: bv8, c: bv8)
    requires a < 128 && e < 16 && c < 32
    ensures Rol(e / 2 + 8 * c, Top(a + 128 * (e % 2))) & 0xF == e
  {
  }

  /** An IN token as it goes over the wire: seven bits of address, four of endpoint, five of CRC.
      To the device's own address it is answered from the slot of its endpoint, unless a message is
      unprocessed; to another address not at all. */
  lemma InToken(d: State, a: bv8, e: bv8, c: bv8, b: bv8, stale: Stale)
    requires a < 128 && e < 16 && c < 32 && b < 128 && d.address == 2 * b
    ensures var answer := AnswerTo(d, [0x69, a + 128 * (e % 2), e / 2 + 8 * c], stale);
      if a != b then answer == Silence
      else if !d.buffer.Empty? then answer == Handshake(0x5A)
      else answer == if e != 0 then d.slot1 else d.slot0
  {
    hide Rol, Top;
    var packet := [0x69, a + 128 * (e % 2), e / 2 + 8 * c];
    assert Front(packet, stale, 0) == 0x69 && Front(packet, stale, 1) == a + 128 * (e % 2);
    assert Front(packet, stale, 2) == e / 2 + 8 * c;
    AddressByte(a, e);
    EndpointBits(a, e, c);
    if a != b {
      AddressesDiffer(a, b);
    }
  }

  /** A SETUP or OUT token, and the data packet behind it. To the device's own address the data is
      acknowledged and waits, unaltered, if the buffer is free, and is refused if it is not; to
      another address there is no answer, and nothing changes but the token. */
  lemma TokenThenData(d: State, pid: bv8, a: bv8, e: bv8, c: bv8, b: bv8, toggle: bv8, data: seq<bv8>,
                      crc: seq<bv8>, stale: Stale, stale': Stale)
    requires a < 128 && e < 16 && c < 32 && b < 128 && d.address == 2 * b
    requires (pid == 0x2D || pid == 0xE1) && (toggle == 0xC3 || toggle == 0x4B)
    requires 1 <= |data| <= 8 && |crc| == 2
    ensures var token, packet := [pid, a + 128 * (e % 2), e / 2 + 8 * c], [toggle] + data + crc;
      var d1 := Deliver(d, token, stale);
      var d2 := Deliver(d1, packet, stale');
      && AnswerTo(d, token, stale) == Silence
      && if a != b then AnswerTo(d1, packet, stale') == Silence && d2 == d.(token := 0)
         else if !d.buffer.Empty? then AnswerTo(d1, packet, stale') == Handshake(0x5A) && d2 == d.(token := pid)
         else
           && AnswerTo(d1, packet, stale') == Handshake(0xD2)
           && d2 == d.(token := pid, buffer := Waiting(Message(pid, data)))
  {
    hide Rol, Top, Endpoint;
    var token, packet := [pid, a + 128 * (e % 2), e / 2 + 8 * c], [toggle] + data + crc;
    assert Front(token, stale, 0) == pid && Front(token, stale, 1) == a + 128 * (e % 2);
    assert Front(packet, stale', 0) == toggle;
    AddressByte(a, e);
    if a != b {
      AddressesDiffer(a, b);
    }
    assert packet[1..|packet| - 2] == data;
  }

  // ---------------------------------------------------------------- requests

  lemma WLengthIs(request: seq<bv8>, n: nat)
    requires |request| == 8 && n < 0x1_0000
    requires request[6] as nat == n % 256 && request[7] as nat == n / 256
    ensures WLength(request) == n && Value(request[6]) == n % 256
  {
  }

  lemma KindBits(direction: bv8, kind: bv8, recipient: bv8)
    requires direction < 2 && kind < 4 && recipient < 32
    ensures (128 * direction + 32 * kind + recipient) & 0x60 == 0 <==> kind == 0
    ensures (128 * direction + 32 * kind + recipient) & 0x80 != 0 <==> direction == 1
  {
  }

  /** A request's first byte holds direction, type and recipient, its last two wLength, low byte
      first. */
  lemma RequestMeans(request: seq<bv8>, direction: bv8, kind: bv8, recipient: bv8, n: nat)
    requires |request| == 8 && direction < 2 && kind < 4 && recipient < 32
    requires request[0] == 128 * direction + 32 * kind + recipient
    requires request[6] as nat == n % 256 && request[7] as nat == n / 256
    ensures ForDriver(request) <==> kind == 0
    ensures ToHost(request) <==> direction == 1
    ensures WLength(request) == n && Value(request[6]) == n % 256
  {
    hide WLength;
    KindBits(direction, kind, recipient);
    WLengthIs(request, n);
  }

  lemma {:induction false} BytesAre(memory: nat -> bv8, at: nat, n: nat)
    ensures Bytes(memory, [], 0, Outside(at), n) == seq(n, i requires 0 <= i => memory(at + i))
    decreases n
  {
    if n > 0 {
      BytesAre(memory, at + 1, n - 1);
    }
  }

  lemma BlocksCarryAll(reply: seq<bv8>)
    ensures |Blocks(DATA0, reply)| == |reply| / 8 + 1
    ensures forall i :: 0 <= i < |reply| / 8 + 1 ==>
      && 8 * i <= |reply|
      && Blocks(DATA0, reply)[i] == Packet(if i % 2 == 0 then 0x4B else 0xC3, Eight(reply, i))
  {
    hide Packet, Blocks, Toggle, Eight;
    ToggleSwaps();
    forall i | 0 <= i < |reply| / 8 + 1
      ensures 8 * i <= |reply|
      ensures Blocks(DATA0, reply)[i] == Packet(if i % 2 == 0 then 0x4B else 0xC3, Eight(reply, i))
    {
      BlockIs(DATA0, reply, i);
    }
  }

  /** A descriptor, or the application's answer to a request of its own, of which there are `len`
      bytes and the host wants n: exactly the first bytes, as many as there are and are wanted. */
  lemma ReplyLimited(request: seq<bv8>, direction: bv8, kind: bv8, recipient: bv8, n: nat,
                     configuration: bv8, memory: nat -> bv8, len: nat, at: nat)
    requires |request| == 8 && direction < 2 && kind < 4 && recipient < 32
    requires request[0] == 128 * direction + 32 * kind + recipient && (kind != 0 || request[1] == 6)
    requires n < 0x1_0000 && request[6] as nat == n % 256 && request[7] as nat == n / 256
    requires len < 255
    ensures var packets := Promise(request, configuration, memory, Reply(len, at));
      var reply := seq(if len <= n then len else n, i requires 0 <= i => memory(at + i));
      CarriesReply(packets, reply) && packets == Blocks(DATA0, reply)
  {
    hide CarriesReply, Bytes, ForDriver, ToHost, WLength, FullReply, Blocks, Packet;
    RequestMeans(request, direction, kind, recipient, n);
    FullReplyIs(request, configuration, memory, len, at);
    var k := if len <= n then len else n;
    BytesAre(memory, at, len);
    BytesAre(memory, at, k);
    BytesPrefix(memory, [], 0, Outside(at), len, k);
    Fragmentation(seq(k, i requires 0 <= i => memory(at + i)));
  }

  /** Packet i of that answer has the next identifier and bytes 8i to 8i + 7, or as many as are
      left of them. */
  lemma PromisedBytes(request: seq<bv8>, direction: bv8, kind: bv8, recipient: bv8, n: nat,
                      configuration: bv8, memory: nat -> bv8, len: nat, at: nat)
    requires |request| == 8 && direction < 2 && kind < 4 && recipient < 32
    requires request[0] == 128 * direction + 32 * kind + recipient && (kind != 0 || request[1] == 6)
    requires n < 0x1_0000 && request[6] as nat == n % 256 && request[7] as nat == n / 256
    requires len < 255
    ensures var packets, k := Promise(request, configuration, memory, Reply(len, at)), if len <= n then len else n;
      && |packets| == k / 8 + 1
      && forall i :: 0 <= i <= k / 8 ==>
           && 8 * i <= k
           && packets[i] == Packet(if i % 2 == 0 then 0x4B else 0xC3,
                                   seq(if 8 * i + 8 <= k then 8 else k - 8 * i,
                                       j requires 0 <= j => memory(at + 8 * i + j)))
  {
    hide CarriesReply, Promise, Packet, Blocks;
    ReplyLimited(request, direction, kind, recipient, n, configuration, memory, len, at);
    BlocksOfMemory(memory, at, if len <= n then len else n);
  }

  lemma BlocksOfMemory(memory: nat -> bv8, at: nat, k: nat)
    ensures var packets := Blocks(DATA0, seq(k, j requires 0 <= j => memory(at + j)));
      && |packets| == k / 8 + 1
      && forall i :: 0 <= i <= k / 8 ==>
           && 8 * i <= k
           && packets[i] == Packet(if i % 2 == 0 then 0x4B else 0xC3,
                                   seq(if 8 * i + 8 <= k then 8 else k - 8 * i,
                                       j requires 0 <= j => memory(at + 8 * i + j)))
  {
    hide Packet, Blocks;
    BlocksCarryAll(seq(k, j requires 0 <= j => memory(at + j)));
    forall i | 0 <= i <= k / 8
      ensures 8 * i <= k
      ensures Eight(seq(k, j requires 0 <= j => memory(at + j)), i)
           == seq(if 8 * i + 8 <= k then 8 else k - 8 * i, j requires 0 <= j => memory(at + 8 * i + j))
    {
      SliceOfMemory(memory, at, k, 8 * i, if 8 * i + 8 <= k then 8 else k - 8 * i);
    }
  }

  lemma SliceOfMemory(memory: nat -> bv8, at: nat, k: nat, i: nat, n: nat)
    requires i + n <= k
    ensures seq(k, j requires 0 <= j => memory(at + j))[i..i + n] == seq(n, j requires 0 <= j => memory(at + i + j))
  {
  }

  lemma FullReplyIs(request: seq<bv8>, configuration: bv8, memory: nat -> bv8, len: nat, at: nat)
    requires |request| == 8 && (!ForDriver(request) || request[1] == 6)
    ensures FullReply(request, configuration, memory, Reply(len, at)) == Bytes(memory, [], 0, Outside(at), len)
  {
    hide Bytes, ForDriver;
  }

  /** A request of its own that the application takes over: to the device, nothing is sent yet; to
      the host, as many bytes as the low byte of wLength says, unless that is 255. */
  lemma TakenOver(request: seq<bv8>, direction: bv8, kind: bv8, recipient: bv8, n: nat,
                  configuration: bv8, memory: nat -> bv8, at: nat)
    requires |request| == 8 && direction < 2 && 0 < kind < 4 && recipient < 32
    requires request[0] == 128 * direction + 32 * kind + recipient
    requires n < 0x1_0000 && request[6] as nat == n % 256 && request[7] as nat == n / 256
    ensures var packets := Promise(request, configuration, memory, UserWrite(at));
      if direction == 1 && n % 256 != 255 then
        CarriesReply(packets, seq(n % 256, i requires 0 <= i => memory(at + i)))
      else packets == []
  {
    hide CarriesReply, Bytes, ForDriver, ToHost, WLength, Blocks, Value;
    RequestMeans(request, direction, kind, recipient, n);
    BytesAre(memory, at, n % 256);
    Fragmentation(Bytes(memory, [], 0, Outside(at), n % 256));
  }

  /** The standard requests that the driver answers by itself: GET_STATUS with two zero bytes,
      GET_CONFIGURATION with the configuration, GET_INTERFACE with a zero byte, each cut at
      wLength; all others but GET_DESCRIPTOR with an empty packet. */
  lemma StandardAnswers(request: seq<bv8>, direction: bv8, recipient: bv8, n: nat,
                        configuration: bv8, memory: nat -> bv8, outcome: Outcome)
    requires |request| == 8 && direction < 2 && recipient < 32
    requires request[0] == 128 * direction + recipient && request[1] != 6
    requires n < 0x1_0000 && request[6] as nat == n % 256 && request[7] as nat == n / 256
    ensures var code := request[1];
      var full := if code == 0 then [0, 0] else if code == 8 then [configuration] else if code == 10 then [0] else [];
      Promise(request, configuration, memory, outcome)
      == [Packet(0x4B, if |full| <= n then full else full[..n])]
  {
    hide Bytes, ForDriver, ToHost, WLength, Blocks, Packet, Toggle;
    RequestMeans(request, direction, 0, recipient, n);
    ToggleSwaps();
    var full := FullReply(request, configuration, memory, outcome);
    ShortBlock(if |full| <= n then full else full[..n]);
  }

  lemma ShortBlock(reply: seq<bv8>)
    requires |reply| < 8
    ensures Blocks(DATA0, reply) == [Packet(Toggle(DATA0), reply)]
  {
    hide Packet, Toggle;
  }

  // ---------------------------------------------------------------- over a run

  /** Event k is the processing of a standard request with this code. */
  predicate StandardAt(memory: nat -> bv8, log: seq<Event>, k: nat, code: bv8) {
    && SetupAt(memory, log, k)
    && var request := After(memory, log[..k]).buffer.message.data;
    request[0] & 0x60 == 0 && request[1] == code
  }

  lemma ConfigurationStep(memory: nat -> bv8, d: State, e: Event)
    requires !(e.Process? && d.buffer.Waiting? && SetsConfiguration(d.buffer.message))
    ensures Step(memory, d, e).plan.configuration == d.plan.configuration
  {
    hide Promise, Blocks, Rol, Packet, Endpoint, AnswerTo, Keeps, NextToken, Restarted, ForDriver;
  }

  lemma {:induction false} ConfigurationKept(memory: nat -> bv8, log: seq<Event>, n: nat, m: nat)
    requires n <= m <= |log| && forall k :: n <= k < m ==> !StandardAt(memory, log, k, 9)
    ensures After(memory, log[..m]).plan.configuration == After(memory, log[..n]).plan.configuration
    decreases m
  {
    hide After, Step;
    if n < m {
      ConfigurationKept(memory, log, n, m - 1);
      Prefix(memory, log, m - 1);
      assert !StandardAt(memory, log, m - 1, 9);
      ConfigurationStep(memory, After(memory, log[..m - 1]), log[m - 1]);
    }
  }

  /** GET_CONFIGURATION promises the byte that the last SET_CONFIGURATION before it carried. */
  lemma ConfigurationReported(memory: nat -> bv8, log: seq<Event>, k: nat, m: nat, n: nat)
    requires StandardAt(memory, log, k, 9) && StandardAt(memory, log, m, 8) && k < m
    requires forall j :: k < j < m ==> !StandardAt(memory, log, j, 9)
    requires var request := After(memory, log[..m]).buffer.message.data;
      n < 0x1_0000 && request[6] as nat == n % 256 && request[7] as nat == n / 256
    ensures var value := After(memory, log[..k]).buffer.message.data[2];
      PromisedAt(memory, log, m) == [Packet(0x4B, if n > 0 then [value] else [])]
  {
    hide After, Promise, Packet, StandardAt;
    StandardMeans(memory, log, k, 9);
    StandardMeans(memory, log, m, 8);
    Prefix(memory, log, k);
    AfterSetConfiguration(memory, After(memory, log[..k]), log[k]);
    ConfigurationKept(memory, log, k + 1, m);
    var d := After(memory, log[..m]);
    var request := d.buffer.message.data;
    FirstByte(request[0]);
    StandardAnswers(request, request[0] / 128, request[0] % 32, n, d.plan.configuration, memory, log[m].env.outcome);
  }

  lemma StandardMeans(memory: nat -> bv8, log: seq<Event>, k: nat, code: bv8)
    requires StandardAt(memory, log, k, code)
    ensures SetupAt(memory, log, k)
    ensures var m := After(memory, log[..k]).buffer.message;
      IsSetup(m) && m.data[0] & 0x60 == 0 && m.data[1] == code
  {
    hide After;
  }

  lemma AfterSetConfiguration(memory: nat -> bv8, d: State, e: Event)
    requires e.Process? && d.buffer.Waiting? && SetsConfiguration(d.buffer.message)
    ensures Step(memory, d, e).plan.configuration == d.buffer.message.data[2]
  {
    hide Promise, Restarted, ForDriver;
  }

  lemma FirstByte(b: bv8)
    requires b & 0x60 == 0
    ensures b / 128 < 2 && b % 32 < 32 && b == 128 * (b / 128) + b % 32
  {
  }

  /** After SET_ADDRESS with address a, and without a reset or another one, the address is as
      before until the first data packet goes out, and a from then on. */
  lemma AddressInForce(memory: nat -> bv8, log: seq<Event>, k: nat, a: bv8)
    requires StandardAt(memory, log, k, 5) && AllQuiescent(memory, log, k + 1)
    requires After(memory, log[..k]).buffer.message.data[2] == a < 128
    ensures After(memory, log).address
         == if |Seen(memory, log).bus| == |Seen(memory, log[..k]).bus| then After(memory, log[..k]).address else 2 * a
  {
    hide After, Seen, AllQuiescent, Rol, StandardAt;
    StandardMeans(memory, log, k, 5);
    Prefix(memory, log, k);
    AfterSetAddress(memory, Seen(memory, log[..k]), After(memory, log[..k]), log[k]);
    AddressSwitches(memory, log, k + 1);
    AddressByte(a, 0);
  }

  /** After SET_INTERFACE, and without another one, the first report carries DATA0 if and only if
      none waited. */
  lemma FirstAfterInterface(memory: nat -> bv8, log: seq<Event>, n: nat)
    requires StandardAt(memory, log, n, 11)
    requires forall k :: n < k < |log| ==> Steady(After(memory, log[..k]), log[k])
    ensures var reports := Reports(Seen(memory, log), After(memory, log));
      reports != [] ==> |reports[0]| > 0 && (reports[0][0] == 0xC3 <==> !After(memory, log[..n]).slot1.Data?)
  {
    hide After, Seen, Steady, StandardAt;
    StandardMeans(memory, log, n, 11);
    FirstReport(memory, log, n);
  }

  lemma AfterSetAddress(memory: nat -> bv8, t: Traffic, d: State, e: Event)
    requires e.Process? && d.buffer.Waiting? && SetsAddress(d.buffer.message)
    ensures Step(memory, d, e).plan.newAddress == d.buffer.message.data[2]
    ensures Step(memory, d, e).address == d.address && Noted(t, d, e).bus == t.bus
  {
    hide Promise, Restarted, ForDriver;
  }

  // ---------------------------------------------------------------- reports

  /** The reports queued so far. */
  function Queued(log: seq<Event>): seq<seq<bv8>> {
    if log == [] then []
    else Queued(log[..|log| - 1]) + if log[|log| - 1].Reported? then [log[|log| - 1].report] else []
  }

  lemma OneMoreQueued(log: seq<Event>, e: Event)
    ensures Queued(log + [e]) == Queued(log) + if e.Reported? then [e.report] else []
  {
    assert (log + [e])[..|log|] == log;
  }

  /** SET_INTERFACE is not processed, and every report is queued in a free slot with the other
      identifier. */
  predicate InTurn(d: State, e: Event) {
    Steady(d, e) && (e.Reported? ==> !d.slot1.Data?)
  }

  predicate Holds(packet: seq<bv8>, payload: seq<bv8>) {
    |packet| >= 3 && Payload(packet) == payload
  }

  /** b is a and then packets with these payloads. */
  predicate Extends(a: seq<seq<bv8>>, b: seq<seq<bv8>>, more: seq<seq<bv8>>) {
    && a <= b && |b| == |a| + |more|
    && forall i :: 0 <= i < |more| ==> Holds(b[|a| + i], more[i])
  }

  lemma OneDelivered(a: seq<seq<bv8>>, token: bv8, report: Report)
    ensures Extends(a, a + [Packet(token, report)], [report])
  {
    hide Packet;
  }

  lemma DeliverStep(memory: nat -> bv8, t: Traffic, d: State, e: Event)
    requires InTurn(d, e)
    ensures Extends(Reports(t, d), Reports(Noted(t, d, e), Step(memory, d, e)),
                    if e.Reported? then [e.report] else [])
  {
    hide Promise, Deliver, Heard, Blocks, Restarted, ForDriver, Toggle, Extends, Packet;
    ExtendsNothing(Reports(t, d));
    match e {
      case Arrives(arrival, stale) => ReportsArrival(t, d, arrival, stale);
      case Reported(report, toggled) =>
        OneDelivered(Reports(t, d), Toggle(d.plan.last1), report);
        assert t.sent1 + [] == t.sent1;
      case _ =>
    }
  }

  lemma ExtendsNothing(a: seq<seq<bv8>>)
    ensures Extends(a, a, [])
  {
  }

  lemma ExtendsMore(a: seq<seq<bv8>>, b: seq<seq<bv8>>, c: seq<seq<bv8>>, x: seq<seq<bv8>>, y: seq<seq<bv8>>)
    requires Extends(a, b, x) && Extends(b, c, y)
    ensures Extends(a, c, x + y)
  {
    hide Holds;
    forall i | 0 <= i < |x + y|
      ensures Holds(c[|a| + i], (x + y)[i])
    {
      if i < |x| {
        assert c[|a| + i] == b[|a| + i] && (x + y)[i] == x[i];
      } else {
        var k := i - |x|;
        assert c[|a| + i] == c[|b| + k] && (x + y)[i] == y[k] && Holds(c[|b| + k], y[k]);
      }
    }
  }

  /** Reports reach endpoint 1 complete, in order, and each once: what has gone out or waits there
      grows by exactly those queued. */
  lemma {:induction false} ReportsDelivered(memory: nat -> bv8, log: seq<Event>, n: nat)
    requires n <= |log| && forall k :: n <= k < |log| ==> InTurn(After(memory, log[..k]), log[k])
    ensures Queued(log[..n]) <= Queued(log)
    ensures Extends(Reports(Seen(memory, log[..n]), After(memory, log[..n])),
                    Reports(Seen(memory, log), After(memory, log)), Queued(log)[|Queued(log[..n])|..])
    decreases |log|
  {
    hide Reports, Step, Noted, InTurn, Extends, After, Seen;
    if n == |log| {
      assert log[..n] == log;
      ExtendsNothing(Reports(Seen(memory, log), After(memory, log)));
    } else {
      var before, e := log[..|log| - 1], log[|log| - 1];
      assert before[..n] == log[..n] && log == before + [e];
      forall k | n <= k < |before|
        ensures InTurn(After(memory, before[..k]), before[k])
      {
        assert before[..k] == log[..k];
      }
      ReportsDelivered(memory, before, n);
      OneMoreEvent(memory, before, e);
      OneMoreQueued(before, e);
      DeliverStep(memory, Seen(memory, before), After(memory, before), e);
      ExtendsMore(Reports(Seen(memory, log[..n]), After(memory, log[..n])),
                  Reports(Seen(memory, before), After(memory, before)),
                  Reports(Seen(memory, log), After(memory, log)),
                  Queued(before)[|Queued(log[..n])|..], if e.Reported? then [e.report] else []);
      assert Queued(log)[|Queued(log[..n])|..]
          == Queued(before)[|Queued(log[..n])|..] + if e.Reported? then [e.report] else [];
    }
  }
}
