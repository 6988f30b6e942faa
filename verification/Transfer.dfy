/** Data packets as the standard wants them (sections 8.5.3 and 8.6 of USB 2.0): how a reply
    is cut into packets of at most eight bytes with alternating identifiers. */
module Transfer {
  import opened Crc

  const SETUP: bv8 := 0x2D
  const OUT: bv8 := 0xE1
  const IN: bv8 := 0x69
  const DATA0: bv8 := 0xC3
  const DATA1: bv8 := 0x4B
  const ACK: nat := 0xD2
  const NAK: nat := 0x5A
  const STALL: nat := 0x1E
  const NO_MSG: nat := 255

  /** Exclusive or with DATA0 ^ DATA1. */
  function Toggle(token: bv8): bv8 {
    token ^ (DATA0 ^ DATA1)
  }

  lemma ToggleSwaps()
    ensures Toggle(DATA0) == DATA1 && Toggle(DATA1) == DATA0
  {
  }

  predicate IsToken(token: bv8) {
    token == DATA0 || token == DATA1
  }

  /** A data packet as it goes over the wire, without the sync byte. */
  function Packet(token: bv8, data: seq<bv8>): (r: seq<bv8>)
    ensures |r| == |data| + 3 && r[0] == token && r[1..|data| + 1] == data
  {
    [token] + data + CrcBytes(data)
  }

  function Payload(packet: seq<bv8>): seq<bv8>
    requires |packet| >= 3
  {
    packet[1..|packet| - 2]
  }

  /** Complete: a data identifier, at most eight bytes, and their CRC. */
  predicate WellFormed(packet: seq<bv8>) {
    && 3 <= |packet| <= 11
    && IsToken(packet[0])
    && packet[|packet| - 2..] == CrcBytes(Payload(packet))
  }

  lemma PacketWellFormed(token: bv8, data: seq<bv8>)
    requires IsToken(token) && |data| <= 8
    ensures WellFormed(Packet(token, data)) && Payload(Packet(token, data)) == data
  {
    hide CrcBytes;
  }

  lemma WellFormedIsPacket(packet: seq<bv8>)
    requires WellFormed(packet)
    ensures packet == Packet(packet[0], Payload(packet))
  {
    hide CrcBytes;
    assert packet == [packet[0]] + packet[1..|packet| - 2] + packet[|packet| - 2..];
  }

  // ---------------------------------------------------------------- cutting a reply

  /** The packets still to build when `token` was the last identifier used. */
  function Blocks(token: bv8, rest: seq<bv8>): (r: seq<seq<bv8>>)
    ensures |r| == |rest| / 8 + 1
    decreases |rest|
  {
    if |rest| < 8 then [Packet(Toggle(token), rest)]
    else [Packet(Toggle(token), rest[..8])] + Blocks(Toggle(token), rest[8..])
  }

  function Payloads(packets: seq<seq<bv8>>): seq<bv8>
    requires forall p :: p in packets ==> |p| >= 3
  {
    if packets == [] then [] else Payload(packets[0]) + Payloads(packets[1..])
  }

  /** Each packet's identifier is the other one of its predecessor's. */
  predicate Alternating(packets: seq<seq<bv8>>) {
    && (forall i :: 0 <= i < |packets| ==> |packets[i]| >= 3)
    && (forall i :: 0 < i < |packets| ==> packets[i][0] == Toggle(packets[i - 1][0]))
  }

  lemma {:induction false} BlocksWellFormed(token: bv8, rest: seq<bv8>)
    requires IsToken(token)
    ensures forall i :: 0 <= i < |Blocks(token, rest)| ==> WellFormed(Blocks(token, rest)[i])
    decreases |rest|
  {
    hide WellFormed, Packet, Payload;
    if |rest| < 8 {
      PacketWellFormed(Toggle(token), rest);
    } else {
      PacketWellFormed(Toggle(token), rest[..8]);
      BlocksWellFormed(Toggle(token), rest[8..]);
    }
  }

  lemma {:induction false} BlocksCarry(token: bv8, reply: seq<bv8>)
    requires IsToken(token)
    ensures forall p :: p in Blocks(token, reply) ==> |p| >= 3
    ensures Payloads(Blocks(token, reply)) == reply
    decreases |reply|
  {
    hide WellFormed, Packet, Payload, Toggle;
    var t, b := Toggle(token), Blocks(token, reply);
    ToggleIsToken(token);
    if |reply| < 8 {
      PacketWellFormed(t, reply);
      assert Payloads(b[1..]) == [];
    } else {
      PacketWellFormed(t, reply[..8]);
      BlocksCarry(t, reply[8..]);
      assert b[1..] == Blocks(t, reply[8..]);
      assert reply == reply[..8] + reply[8..];
    }
  }

  lemma {:induction false} BlockSizes(token: bv8, reply: seq<bv8>)
    requires IsToken(token)
    ensures var b := Blocks(token, reply);
      && (forall i :: 0 <= i < |b| ==> |b[i]| >= 3)
      && (forall i :: 0 <= i < |b| - 1 ==> |Payload(b[i])| == 8)
      && |Payload(b[|b| - 1])| < 8
    decreases |reply|
  {
    hide WellFormed, Packet, Payload, Toggle;
    ToggleIsToken(token);
    var t, b := Toggle(token), Blocks(token, reply);
    if |reply| < 8 {
      PacketWellFormed(t, reply);
    } else {
      PacketWellFormed(t, reply[..8]);
      BlockSizes(t, reply[8..]);
    }
  }

  lemma {:induction false} BlocksAlternate(token: bv8, reply: seq<bv8>)
    ensures Alternating(Blocks(token, reply)) && Blocks(token, reply)[0][0] == Toggle(token)
    decreases |reply|
  {
    hide Toggle, CrcBytes;
    if |reply| >= 8 {
      BlocksAlternate(Toggle(token), reply[8..]);
    }
  }

  lemma BlocksStep(token: bv8, rest: seq<bv8>)
    ensures var n := if |rest| < 8 then |rest| else 8;
      && Blocks(token, rest)[0] == Packet(Toggle(token), rest[..n])
      && Blocks(token, rest)[1..] == if n < 8 then [] else Blocks(Toggle(token), rest[n..])
  {
    hide Packet, Toggle;
    if |rest| < 8 {
      assert rest[..|rest|] == rest;
      assert Blocks(token, rest) == [Packet(Toggle(token), rest)];
    } else {
      var tail := Blocks(Toggle(token), rest[8..]);
      assert Blocks(token, rest) == [Packet(Toggle(token), rest[..8])] + tail;
      assert ([Packet(Toggle(token), rest[..8])] + tail)[1..] == tail;
    }
  }

  lemma ToggleIsToken(token: bv8)
    requires IsToken(token)
    ensures IsToken(Toggle(token)) && Toggle(token) != token && Toggle(Toggle(token)) == token
  {
  }

  /** The packets carry the reply, in order and complete; all are full except the last, which
      never is; their identifiers alternate from DATA1. */
  predicate CarriesReply(packets: seq<seq<bv8>>, reply: seq<bv8>) {
    && packets != []
    && (forall i :: 0 <= i < |packets| ==> WellFormed(packets[i]))
    && Payloads(packets) == reply
    && (forall i :: 0 <= i < |packets| - 1 ==> |Payload(packets[i])| == 8)
    && |Payload(packets[|packets| - 1])| < 8
    && packets[0][0] == DATA1 && Alternating(packets)
  }

  /** A control-in reply cut into blocks of eight. */
  lemma Fragmentation(reply: seq<bv8>)
    ensures CarriesReply(Blocks(DATA0, reply), reply)
  {
    hide Packet, Payload, Blocks, Payloads, Alternating;
    ToggleSwaps();
    BlocksWellFormed(DATA0, reply);
    BlocksCarry(DATA0, reply);
    BlockSizes(DATA0, reply);
    BlocksAlternate(DATA0, reply);
  }

  /** Bytes 8i to 8i + 7, or as many as there are. */
  function Eight(reply: seq<bv8>, i: nat): seq<bv8>
    requires 8 * i <= |reply|
  {
    reply[8 * i..if 8 * i + 8 <= |reply| then 8 * i + 8 else |reply|]
  }

  lemma EightLater(reply: seq<bv8>, i: nat)
    requires i > 0 && 8 * i <= |reply|
    ensures Eight(reply[8..], i - 1) == Eight(reply, i)
  {
    var e := if 8 * i + 8 <= |reply| then 8 * i + 8 else |reply|;
    DropSlice(reply, 8, 8 * (i - 1), e - 8);
  }

  /** Packet i of a reply: the identifiers take turns, and it has the next eight bytes, or as many
      as there are. */
  lemma {:induction false} BlockIs(token: bv8, reply: seq<bv8>, i: nat)
    requires IsToken(token) && 8 * i <= |reply|
    ensures i < |Blocks(token, reply)|
    ensures Blocks(token, reply)[i] == Packet(if i % 2 == 0 then Toggle(token) else token, Eight(reply, i))
    decreases i
  {
    hide Packet, Toggle, Eight, Blocks;
    BlocksStep(token, reply);
    if i == 0 {
      FirstEight(reply);
    } else {
      ToggleIsToken(token);
      BlockIs(Toggle(token), reply[8..], i - 1);
      EightLater(reply, i);
    }
  }

  lemma FirstEight(reply: seq<bv8>)
    ensures Eight(reply, 0) == reply[..if |reply| < 8 then |reply| else 8]
  {
  }

  lemma DropSlice(s: seq<bv8>, d: nat, a: nat, b: nat)
    requires a <= b && d + b <= |s|
    ensures s[d..][a..b] == s[d + a..d + b]
  {
  }
}
