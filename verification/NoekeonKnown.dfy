/** A published test vector of NOEKEON in direct mode: the cipher's answer to one block and one key,
    on words and, through the register code, on the bytes in memory. */
module NoekeonKnown {
  import opened Noekeon
  import opened NoekeonAvr


  const KNOWN_KEY: Block := Block(0xB1656851, 0x699E29FA, 0x24B70148, 0x503D2DFC)
  const KNOWN_PLAIN: Block := Block(0x2A78421B, 0x87C7D092, 0x4F26113F, 0x1D1349B2)

  /** The non-linear layer with its rotations written as shifts. */
  lemma NonLinearByShifts(s: Block, g: Block)
    requires g == Gamma(Block(s.w0, (s.w1 << 1) | (s.w1 >> 31), (s.w2 << 5) | (s.w2 >> 27),
                              (s.w3 << 2) | (s.w3 >> 30)))
    ensures NonLinear(s) == Block(g.w0, (g.w1 >> 1) | (g.w1 << 31), (g.w2 >> 5) | (g.w2 << 27),
                                  (g.w3 >> 2) | (g.w3 << 30))
  {
    RotationDistances(s.w1);
    RotationDistances(s.w2);
    RotationDistances(s.w3);
    RotationDistances(g.w1);
    RotationDistances(g.w2);
    RotationDistances(g.w3);
    hide RotateLeft, RotateRight, Gamma;
  }

  /** One more round, from known values. */
  lemma OneMoreRound(s: Block, i: nat, before: Block, rc: bv8, linear: Block, after: Block)
    requires EncryptRounds(s, KNOWN_KEY, i) == before && ConstAt(i) == rc
    requires EncryptLinear(before, KNOWN_KEY, rc) == linear && NonLinear(linear) == after
    ensures EncryptRounds(s, KNOWN_KEY, i + 1) == after && ConstAt(i + 1) == NextConst(rc)
  {
    hide EncryptLinear, NonLinear, NextConst;
  }

  lemma BeforeRounds()
    ensures EncryptRounds(KNOWN_PLAIN, KNOWN_KEY, 0) == KNOWN_PLAIN && ConstAt(0) == FIRST_CONST
  {
  }

  lemma KnownRounds4()
    ensures EncryptRounds(KNOWN_PLAIN, KNOWN_KEY, 4) == Block(0xDDEEB73B, 0x7109CEA8, 0x70F5ACF5, 0x7C2D1806)
    ensures ConstAt(4) == 0xD8
  {
    hide RotateLeft, RotateRight, NonLinear, EncryptRounds, ConstAt;
    BeforeRounds();
    NonLinearByShifts(Block(0x6954E6D2, 0x713150FA, 0x99D8DC6F, 0xD246CDDC),
                      Block(0x0F9B172B, 0xC6AF617D, 0x5FD03C5A, 0x4B566722));
    OneMoreRound(KNOWN_PLAIN, 0, Block(0x2A78421B, 0x87C7D092, 0x4F26113F, 0x1D1349B2), 0x80,
                 Block(0x6954E6D2, 0x713150FA, 0x99D8DC6F, 0xD246CDDC),
                 Block(0x0F9B172B, 0xE357B0BE, 0xD2FE81E2, 0x92D599C8));
    NonLinearByShifts(Block(0xA7BA0374, 0xE0E7B8DD, 0xEF0DFCBF, 0xA8C695AD),
                      Block(0x7A155E8F, 0xDD4F3CB9, 0xF91F8A3D, 0x663512CD));
    OneMoreRound(KNOWN_PLAIN, 1, Block(0x0F9B172B, 0xE357B0BE, 0xD2FE81E2, 0x92D599C8), 0x1B,
                 Block(0xA7BA0374, 0xE0E7B8DD, 0xEF0DFCBF, 0xA8C695AD),
                 Block(0x7A155E8F, 0xEEA79E5C, 0xEFC8FC51, 0x598D44B3));
    NonLinearByShifts(Block(0x25A98851, 0x27D32079, 0x25A643A0, 0xA95AFE90),
                      Block(0xA05BFB0A, 0xCF7471E9, 0x3538075C, 0x2129C851));
    OneMoreRound(KNOWN_PLAIN, 2, Block(0x7A155E8F, 0xEEA79E5C, 0xEFC8FC51, 0x598D44B3), 0x36,
                 Block(0x25A98851, 0x27D32079, 0x25A643A0, 0xA95AFE90),
                 Block(0xA05BFB0A, 0xE7BA38F4, 0xE1A9C03A, 0x484A7214));
    NonLinearByShifts(Block(0x32B56809, 0x61AC8428, 0xE6953A4C, 0xF7FFCACE),
                      Block(0xDDEEB73B, 0xE2139D50, 0x1EB59EAE, 0xF0B46019));
    OneMoreRound(KNOWN_PLAIN, 3, Block(0xA05BFB0A, 0xE7BA38F4, 0xE1A9C03A, 0x484A7214), 0x6C,
                 Block(0x32B56809, 0x61AC8428, 0xE6953A4C, 0xF7FFCACE),
                 Block(0xDDEEB73B, 0x7109CEA8, 0x70F5ACF5, 0x7C2D1806));
  }

  lemma KnownRounds8()
    ensures EncryptRounds(KNOWN_PLAIN, KNOWN_KEY, 8) == Block(0xE6A1CBA2, 0xAC2086EE, 0x8DB788B1, 0xE79E3C94)
    ensures ConstAt(8) == 0x2F
  {
    hide RotateLeft, RotateRight, NonLinear, EncryptRounds, ConstAt;
    KnownRounds4();
    NonLinearByShifts(Block(0x77EA22FC, 0xB83AF1F2, 0x4F2350F3, 0x8CBD235A),
                      Block(0x0A948D0B, 0x39614C71, 0xB86030EF, 0x178A209D));
    OneMoreRound(KNOWN_PLAIN, 4, Block(0xDDEEB73B, 0x7109CEA8, 0x70F5ACF5, 0x7C2D1806), 0xD8,
                 Block(0x77EA22FC, 0xB83AF1F2, 0x4F2350F3, 0x8CBD235A),
                 Block(0x0A948D0B, 0x9CB0A638, 0x7DC30187, 0x45E28827));
    NonLinearByShifts(Block(0xB3CA2722, 0xF282731E, 0x514FC21C, 0x12735907),
                      Block(0x48CD585C, 0x1F02FC49, 0x81F93CE0, 0x92CA652A));
    OneMoreRound(KNOWN_PLAIN, 5, Block(0x0A948D0B, 0x9CB0A638, 0x7DC30187, 0x45E28827), 0xAB,
                 Block(0xB3CA2722, 0xF282731E, 0x514FC21C, 0x12735907),
                 Block(0x48CD585C, 0x8F817E24, 0x040FC9E7, 0xA4B2994A));
    NonLinearByShifts(Block(0x13C92BD9, 0x9E00F2F5, 0xCAD9D336, 0x8C90119D),
                      Block(0xAA445636, 0x9C84DC40, 0xDA371354, 0x0BC94F10));
    OneMoreRound(KNOWN_PLAIN, 6, Block(0x48CD585C, 0x8F817E24, 0x040FC9E7, 0xA4B2994A), 0x4D,
                 Block(0x13C92BD9, 0x9E00F2F5, 0xCAD9D336, 0x8C90119D),
                 Block(0xAA445636, 0x4E426E20, 0xA6D1B89A, 0x02F253C4));
    NonLinearByShifts(Block(0x9F7EF653, 0x88AB0A0E, 0x0639717C, 0xFDB833EC),
                      Block(0xE6A1CBA2, 0x58410DDD, 0xB6F11631, 0x9E78F253));
    OneMoreRound(KNOWN_PLAIN, 7, Block(0xAA445636, 0x4E426E20, 0xA6D1B89A, 0x02F253C4), 0x9A,
                 Block(0x9F7EF653, 0x88AB0A0E, 0x0639717C, 0xFDB833EC),
                 Block(0xE6A1CBA2, 0xAC2086EE, 0x8DB788B1, 0xE79E3C94));
  }

  lemma KnownRounds12()
    ensures EncryptRounds(KNOWN_PLAIN, KNOWN_KEY, 12) == Block(0x7F5BEAA6, 0x8CD0935D, 0xC43E15FB, 0xBEA2F719)
    ensures ConstAt(12) == 0xC6
  {
    hide RotateLeft, RotateRight, NonLinear, EncryptRounds, ConstAt;
    KnownRounds8();
    NonLinearByShifts(Block(0x44157C6C, 0x8480C600, 0xBAD15649, 0xF69D787C),
                      Block(0xFAF4E3F3, 0x3FA1931B, 0xE0CB46A0, 0x4C15F46D));
    OneMoreRound(KNOWN_PLAIN, 8, Block(0xE6A1CBA2, 0xAC2086EE, 0x8DB788B1, 0xE79E3C94), 0x2F,
                 Block(0x44157C6C, 0x8480C600, 0xBAD15649, 0xF69D787C),
                 Block(0xFAF4E3F3, 0x9FD0C98D, 0x07065A35, 0x53057D1B));
    NonLinearByShifts(Block(0x58A2DD29, 0x61F833AB, 0x30820DA8, 0x948E833B),
                      Block(0x365E28EE, 0xED642617, 0x74ED6480, 0x58E2F82F));
    OneMoreRound(KNOWN_PLAIN, 9, Block(0xFAF4E3F3, 0x9FD0C98D, 0x07065A35, 0x53057D1B), 0x5E,
                 Block(0x58A2DD29, 0x61F833AB, 0x30820DA8, 0x948E833B),
                 Block(0x365E28EE, 0xF6B2130B, 0x03A76B24, 0xD638BE0B));
    NonLinearByShifts(Block(0xB1A2C6B5, 0x25A3F6F1, 0x1189ECDA, 0x3C8A5FF7),
                      Block(0xF62D3B5E, 0x0CCD5DC3, 0x343646AA, 0xB0A74FF7));
    OneMoreRound(KNOWN_PLAIN, 10, Block(0x365E28EE, 0xF6B2130B, 0x03A76B24, 0xD638BE0B), 0xBC,
                 Block(0xB1A2C6B5, 0x25A3F6F1, 0x1189ECDA, 0x3C8A5FF7),
                 Block(0xF62D3B5E, 0x8666AEE1, 0x51A1B235, 0xEC29D3FD));
    NonLinearByShifts(Block(0xE28EDC5C, 0xCC5A8A3D, 0xD0D03C4D, 0x9FB6F327),
                      Block(0x7F5BEAA6, 0x19A126BB, 0x87C2BF78, 0xFA8BDC66));
    OneMoreRound(KNOWN_PLAIN, 11, Block(0xF62D3B5E, 0x8666AEE1, 0x51A1B235, 0xEC29D3FD), 0x63,
                 Block(0xE28EDC5C, 0xCC5A8A3D, 0xD0D03C4D, 0x9FB6F327),
                 Block(0x7F5BEAA6, 0x8CD0935D, 0xC43E15FB, 0xBEA2F719));
  }

  lemma KnownRounds16()
    ensures EncryptRounds(KNOWN_PLAIN, KNOWN_KEY, 16) == Block(0x8553CBB4, 0x40BF5A78, 0x0E4007AA, 0xBE2E6B5D)
    ensures ConstAt(16) == 0xD4
  {
    hide RotateLeft, RotateRight, NonLinear, EncryptRounds, ConstAt;
    KnownRounds12();
    NonLinearByShifts(Block(0x56847118, 0xA06FBB78, 0x7833E79A, 0xABBEDB3A),
                      Block(0xAF7B0EEB, 0x11F86243, 0xEF80EA1D, 0x56D80359));
    OneMoreRound(KNOWN_PLAIN, 12, Block(0x7F5BEAA6, 0x8CD0935D, 0xC43E15FB, 0xBEA2F719), 0xC6,
                 Block(0x56847118, 0xA06FBB78, 0x7833E79A, 0xABBEDB3A),
                 Block(0xAF7B0EEB, 0x88FC3121, 0xEF7C0750, 0x55B600D6));
    NonLinearByShifts(Block(0xE2264B0D, 0x8A2C3ABE, 0x37F32B38, 0x6EC50F4F),
                      Block(0xBFD4BCB0, 0x1CCAA5CD, 0xA7C5818F, 0xF6662E09));
    OneMoreRound(KNOWN_PLAIN, 13, Block(0xAF7B0EEB, 0x88FC3121, 0xEF7C0750, 0x55B600D6), 0x97,
                 Block(0xE2264B0D, 0x8A2C3ABE, 0x37F32B38, 0x6EC50F4F),
                 Block(0xBFD4BCB0, 0x8E6552E6, 0x7D3E2C0C, 0x7D998B82));
    NonLinearByShifts(Block(0xF9F934A1, 0x464388C7, 0xAEC1CD31, 0x8C1C55A5),
                      Block(0x32704E56, 0x07071BDC, 0x12B1DCC0, 0x71F834A5));
    OneMoreRound(KNOWN_PLAIN, 14, Block(0xBFD4BCB0, 0x8E6552E6, 0x7D3E2C0C, 0x7D998B82), 0x35,
                 Block(0xF9F934A1, 0x464388C7, 0xAEC1CD31, 0x8C1C55A5),
                 Block(0x32704E56, 0x03838DEE, 0x00958EE6, 0x5C7E0D29));
    NonLinearByShifts(Block(0x7AA93D4E, 0x670A5B3C, 0xDD9E948D, 0x0154DFFD),
                      Block(0x8553CBB4, 0x817EB4F0, 0xC800F541, 0xF8B9AD76));
    OneMoreRound(KNOWN_PLAIN, 15, Block(0x32704E56, 0x03838DEE, 0x00958EE6, 0x5C7E0D29), 0x6A,
                 Block(0x7AA93D4E, 0x670A5B3C, 0xDD9E948D, 0x0154DFFD),
                 Block(0x8553CBB4, 0x40BF5A78, 0x0E4007AA, 0xBE2E6B5D));
  }

  /** The third of the test vectors published with the cipher, for direct mode. */
  lemma KnownAnswer()
    ensures Encrypt(Block(0x2A78421B, 0x87C7D092, 0x4F26113F, 0x1D1349B2),
                    Block(0xB1656851, 0x699E29FA, 0x24B70148, 0x503D2DFC))
         == Block(0xE2F687E0, 0x7B75660F, 0xFC372233, 0xBC47532C)
  {
    hide EncryptRounds, ConstAt;
    KnownRounds16();
  }

  const PLAIN_BYTES: seq<bv8> :=
    [0x1B, 0x42, 0x78, 0x2A, 0x92, 0xD0, 0xC7, 0x87,
     0x3F, 0x11, 0x26, 0x4F, 0xB2, 0x49, 0x13, 0x1D]
  const KEY_BYTES: seq<bv8> :=
    [0x51, 0x68, 0x65, 0xB1, 0xFA, 0x29, 0x9E, 0x69,
     0x48, 0x01, 0xB7, 0x24, 0xFC, 0x2D, 0x3D, 0x50]
  const CIPHER_BYTES: seq<bv8> :=
    [0xE0, 0x87, 0xF6, 0xE2, 0x0F, 0x66, 0x75, 0x7B,
     0x33, 0x22, 0x37, 0xFC, 0x2C, 0x53, 0x47, 0xBC]

  lemma PlainBytes(m: seq<bv8>)
    requires |m| == 32 && m == PLAIN_BYTES + KEY_BYTES
    ensures BlockAt(m, 0) == KNOWN_PLAIN && BlockAt(m, 16) == KNOWN_KEY
  {
  }

  lemma CipherBytes(m: seq<bv8>)
    requires |m| == 32 && m == CIPHER_BYTES + KEY_BYTES
    ensures BlockAt(m, 0) == Block(0xE2F687E0, 0x7B75660F, 0xFC372233, 0xBC47532C)
    ensures BlockAt(m, 16) == KNOWN_KEY
  {
  }

  /** The bytes in memory, encrypted in place. */
  method EncryptKnown(mem: array<bv8>)
    requires mem.Length == 32 && mem[..] == PLAIN_BYTES + KEY_BYTES
    modifies mem
    ensures mem[..] == CIPHER_BYTES + KEY_BYTES
  {
    hide BlockAt, Encrypt, BlockBytes;
    ghost var after := CIPHER_BYTES + KEY_BYTES;
    PlainBytes(mem[..]);
    CipherBytes(after);
    KnownAnswer();
    assert mem[16..] == mem[..][16..] == KEY_BYTES;
    EncryptInPlace(mem);
    assert mem[..][16..] == mem[16..] && after[16..] == KEY_BYTES;
    BlockDetermines(mem[..], after);
  }

  /** And decrypted. */
  method DecryptKnown(mem: array<bv8>)
    requires mem.Length == 32 && mem[..] == CIPHER_BYTES + KEY_BYTES
    modifies mem
    ensures mem[..] == PLAIN_BYTES + KEY_BYTES
  {
    hide BlockAt, Encrypt, Decrypt, BlockBytes;
    ghost var after := PLAIN_BYTES + KEY_BYTES;
    PlainBytes(after);
    CipherBytes(mem[..]);
    KnownAnswer();
    DecryptAfterEncrypt(KNOWN_PLAIN, KNOWN_KEY);
    assert mem[16..] == mem[..][16..] == KEY_BYTES;
    DecryptInPlace(mem);
    assert mem[..][16..] == mem[16..] && after[16..] == KEY_BYTES;
    BlockDetermines(mem[..], after);
  }
}
