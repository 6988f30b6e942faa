/** Transmitter and receiver wired together: what goes in at one end of the cable comes
    out at the other, register code at both ends. */
module Loopback {
  import opened Wire
  import opened WireReceive
  import opened Transmitters
  import opened Receivers

  lemma IdlePort(usbout: bv8)
    requires usbout & LINE == 0
    ensures (usbout | STATE_J) & LINE == STATE_J
  {
  }

  /** A packet of up to eleven bytes sent and received at 20 MHz. */
  method Loopback20(mem: array<bv8>, y: nat, cnt: nat, usbout: bv8, x2: bv8, carry: bv8,
                    buf: array<bv8>, y0: nat)
      returns (ok: bool, count: nat)
    requires 1 <= cnt <= 255 && y + cnt <= mem.Length && carry <= 1 && usbout & LINE == 0
    requires y0 + BUFSIZE <= buf.Length && buf != mem
    modifies buf
    ensures ok <==> cnt - 1 <= BUFSIZE
    ensures ok ==> count == cnt - 1 && buf[y0..y0 + count] == mem[y..y + cnt - 1]
  {
    hide PacketLine, Run20, Bits;
    IdlePort(usbout);
    var trace, _ := Transmit20(mem, y, cnt, usbout, x2, carry);
    ghost var packet := mem[y..y + cnt - 1];
    RoundTrip20(packet, usbout | STATE_J);
    ok, count := Receive20(trace[8..], buf, y0);
    if ok {
      BytesDetermined(buf[y0..y0 + count], packet);
    }
  }

  /** A packet that starts with a packet identifier, sent and received at 16.5 MHz. */
  method Loopback165(mem: array<bv8>, y: nat, cnt: nat, usbout: bv8, x2: bv8, carry: bv8,
                     buf: array<bv8>, y0: nat)
      returns (ok: bool, count: nat)
    requires 2 <= cnt <= 12 && y + cnt <= mem.Length && carry <= 1 && usbout & LINE == 0
    requires IsPid(mem[y])
    requires y0 + BUFSIZE <= buf.Length && buf != mem
    modifies buf
    ensures ok && count == cnt - 1 && buf[y0..y0 + count] == mem[y..y + cnt - 1]
  {
    hide PacketLine, Run165, Bits;
    IdlePort(usbout);
    PidHasClearLowBit(mem[y]);
    var trace, _ := Transmit165(mem, y, cnt, usbout, x2, carry);
    ghost var packet := mem[y..y + cnt - 1];
    RoundTrip165(packet, usbout | STATE_J);
    ok, count := Receive165(trace[8..], buf, y0);
    BytesDetermined(buf[y0..y0 + count], packet);
  }
}
