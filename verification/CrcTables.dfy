/** The 512 table bytes of the table-driven CRC receiver, one literal for each line of the
    listing, its first byte in the highest place. */
module CrcTables {

  /** Lines 0 to 31 of the low byte table. */
  function LowLine(n: bv8): bv64 {
    match n
    case 0 => 0x00C1814001C08041
    case 1 => 0x01C0804100C18140
    case 2 => 0x01C0804100C18140
    case 3 => 0x00C1814001C08041
    case 4 => 0x01C0804100C18140
    case 5 => 0x00C1814001C08041
    case 6 => 0x00C1814001C08041
    case 7 => 0x01C0804100C18140
    case 8 => 0x01C0804100C18140
    case 9 => 0x00C1814001C08041
    case 10 => 0x00C1814001C08041
    case 11 => 0x01C0804100C18140
    case 12 => 0x00C1814001C08041
    case 13 => 0x01C0804100C18140
    case 14 => 0x01C0804100C18140
    case 15 => 0x00C1814001C08041
    case 16 => 0x01C0804100C18140
    case 17 => 0x00C1814001C08041
    case 18 => 0x00C1814001C08041
    case 19 => 0x01C0804100C18140
    case 20 => 0x00C1814001C08041
    case 21 => 0x01C0804100C18140
    case 22 => 0x01C0804100C18140
    case 23 => 0x00C1814001C08041
    case 24 => 0x00C1814001C08041
    case 25 => 0x01C0804100C18140
    case 26 => 0x01C0804100C18140
    case 27 => 0x00C1814001C08041
    case 28 => 0x01C0804100C18140
    case 29 => 0x00C1814001C08041
    case 30 => 0x00C1814001C08041
    case _ => 0x01C0804100C18140
  }

  /** Lines 0 to 31 of the high byte table. */
  function HighLine(n: bv8): bv64 {
    match n
    case 0 => 0x00C0C101C30302C2
    case 1 => 0xC60607C705C5C404
    case 2 => 0xCC0C0DCD0FCFCE0E
    case 3 => 0x0ACACB0BC90908C8
    case 4 => 0xD81819D91BDBDA1A
    case 5 => 0x1EDEDF1FDD1D1CDC
    case 6 => 0x14D4D515D71716D6
    case 7 => 0xD21213D311D1D010
    case 8 => 0xF03031F133F3F232
    case 9 => 0x36F6F737F53534F4
    case 10 => 0x3CFCFD3DFF3F3EFE
    case 11 => 0xFA3A3BFB39F9F838
    case 12 => 0x28E8E929EB2B2AEA
    case 13 => 0xEE2E2FEF2DEDEC2C
    case 14 => 0xE42425E527E7E626
    case 15 => 0x22E2E323E12120E0
    case 16 => 0xA06061A163A3A262
    case 17 => 0x66A6A767A56564A4
    case 18 => 0x6CACAD6DAF6F6EAE
    case 19 => 0xAA6A6BAB69A9A868
    case 20 => 0x78B8B979BB7B7ABA
    case 21 => 0xBE7E7FBF7DBDBC7C
    case 22 => 0xB47475B577B7B676
    case 23 => 0x72B2B373B17170B0
    case 24 => 0x5090915193535292
    case 25 => 0x9656579755959454
    case 26 => 0x9C5C5D9D5F9F9E5E
    case 27 => 0x5A9A9B5B99595898
    case 28 => 0x884849894B8B8A4A
    case 29 => 0x4E8E8F4F8D4D4C8C
    case 30 => 0x4484854587474686
    case _ => 0x8242438341818040
  }

  /** Byte x % 8 of a line. */
  function LineByte(line: bv64, x: bv8): bv8 {
    var k: bv6 := (x & 7) as bv6;
    ((line >> (56 - 8 * k)) & 0xFF) as bv8
  }

  /** lpm from the low byte table. */
  function TableLow(x: bv8): bv8 {
    LineByte(LowLine(x >> 3), x)
  }

  /** lpm from the high byte table. */
  function TableHigh(x: bv8): bv8 {
    LineByte(HighLine(x >> 3), x)
  }

  /** 1 when the number of ones in x is odd. */
  function Parity(x: bv8): bv8 {
    (x ^ (x >> 1) ^ (x >> 2) ^ (x >> 3) ^ (x >> 4) ^ (x >> 5) ^ (x >> 6) ^ (x >> 7)) & 1
  }

  /** The low byte of x << 6 ^ x << 7 ^ (0xC001 when the parity is odd). */
  function LowEntry(x: bv8): bv8 {
    (x << 6) ^ (x << 7) ^ Parity(x)
  }

  /** The high byte of the same. */
  function HighEntry(x: bv8): bv8 {
    (x >> 2) ^ (x >> 1) ^ ((0 - Parity(x)) & 0xC0)
  }

  lemma LowListing(x: bv8)
    ensures TableLow(x) == LowEntry(x)
  {
  }

  lemma HighListingLower(x: bv8)
    requires x < 0x80
    ensures TableHigh(x) == HighEntry(x)
  {
  }

  lemma HighListingUpper(x: bv8)
    requires 0x80 <= x < 0xC0
    ensures TableHigh(x) == HighEntry(x)
  {
  }

  lemma HighListingTop(x: bv8)
    requires 0xC0 <= x
    ensures TableHigh(x) == HighEntry(x)
  {
  }

  /** The whole listing is the parity formula: all 512 bytes. */
  lemma Listing(x: bv8)
    ensures TableLow(x) == LowEntry(x) && TableHigh(x) == HighEntry(x)
  {
    hide TableLow, TableHigh, LowEntry, HighEntry;
    LowListing(x);
    if x < 0x80 {
      HighListingLower(x);
    } else if x < 0xC0 {
      HighListingUpper(x);
    } else {
      HighListingTop(x);
    }
  }
}
