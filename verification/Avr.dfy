/** The 8-bit arithmetic of the AVR core that the firmware leans on. Registers that hold
    bit patterns are bv8; registers that count are naturals below 256 whose wrap-around is
    written out. */
module Avr {

  /** eor */
  function Eor(a: bv8, b: bv8): bv8 {
    a ^ b
  }

  /** lsl and rol: shift left, the carry (0 or 1) entering at bit 0. */
  function Rol(b: bv8, carry: bv8): bv8 {
    (b << 1) | carry
  }

  /** lsr and ror: shift right, the carry (0 or 1) entering at bit 7. */
  function Ror(b: bv8, carry: bv8): bv8 {
    (b >> 1) | (carry << 7)
  }

  /** The carry left by lsl and rol. */
  function Top(b: bv8): bv8 {
    b >> 7
  }

  /** The carry left by lsr and ror. */
  function Low(b: bv8): bv8 {
    b & 1
  }

  /** subi, dec on a counter register. */
  function Sub8(a: nat, k: nat): nat
    requires a < 256 && k < 256
  {
    if k <= a then a - k else a + 256 - k
  }

  /** inc, subi with a negative constant. */
  function Add8(a: nat, k: nat): nat
    requires a < 256 && k < 256
  {
    if a + k < 256 then a + k else a + k - 256
  }

  function Value(b: bv8): (n: nat)
    ensures n < 256
  {
    b as nat
  }

  function BitOf(b: bv8, i: nat): bool
    requires i < 8
  {
    if i == 0 then b & 0x01 != 0
    else if i == 1 then b & 0x02 != 0
    else if i == 2 then b & 0x04 != 0
    else if i == 3 then b & 0x08 != 0
    else if i == 4 then b & 0x10 != 0
    else if i == 5 then b & 0x20 != 0
    else if i == 6 then b & 0x40 != 0
    else b & 0x80 != 0
  }
}
