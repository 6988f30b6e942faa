/** NOEKEON in direct mode, on 32-bit words: the mathematical cipher that the
    register-level code of noekeon.S computes, and the proof that its two directions
    undo each other. */
module Noekeon {

  /** Four 32-bit words: a cipher state or a key. */
  datatype Block = Block(w0: bv32, w1: bv32, w2: bv32, w3: bv32)

  const FIRST_CONST: bv8 := 0x80
  const LAST_CONST: bv8 := 0xD4
  const ROUNDS: nat := 16

  // ------------------------------------------------------------- word operations

  function Xor(a: bv32, b: bv32): bv32 {
    a ^ b
  }

  function And(a: bv32, b: bv32): bv32 {
    a & b
  }

  function Nor(a: bv32, b: bv32): bv32 {
    !(a | b)
  }

  function LeftOne(w: bv32): bv32 {
    (w << 1) | (w >> 31)
  }

  function RightOne(w: bv32): bv32 {
    (w >> 1) | (w << 31)
  }

  function RotateLeft(w: bv32, n: nat): bv32 {
    if n == 0 then w else LeftOne(RotateLeft(w, n - 1))
  }

  function RotateRight(w: bv32, n: nat): bv32 {
    if n == 0 then w else RightOne(RotateRight(w, n - 1))
  }

  lemma XorCancels(a: bv32, t: bv32)
    ensures Xor(Xor(a, t), t) == a
  {
  }

  lemma OneInverse(w: bv32)
    ensures RightOne(LeftOne(w)) == w
    ensures LeftOne(RightOne(w)) == w
  {
  }

  lemma {:induction false} RightCommutes(w: bv32, n: nat)
    ensures RotateRight(LeftOne(w), n) == LeftOne(RotateRight(w, n))
    ensures RotateLeft(RightOne(w), n) == RightOne(RotateLeft(w, n))
  {
    if n > 0 {
      RightCommutes(w, n - 1);
      OneInverse(RotateRight(w, n - 1));
      OneInverse(RotateLeft(w, n - 1));
    }
  }

  lemma {:induction false} RotationsInverse(w: bv32, n: nat)
    ensures RotateRight(RotateLeft(w, n), n) == w
    ensures RotateLeft(RotateRight(w, n), n) == w
  {
    if n > 0 {
      RotationsInverse(w, n - 1);
      RightCommutes(RotateLeft(w, n - 1), n - 1);
      RightCommutes(RotateRight(w, n - 1), n - 1);
      OneInverse(w);
    }
  }

  lemma LeftOneRepeated(w: bv32)
    ensures LeftOne(LeftOne(w)) == (w << 2) | (w >> 30)
    ensures LeftOne(LeftOne(LeftOne((w << 2) | (w >> 30)))) == (w << 5) | (w >> 27)
  {
  }

  lemma RightOneRepeated(w: bv32)
    ensures RightOne(RightOne(w)) == (w >> 2) | (w << 30)
    ensures RightOne(RightOne(RightOne((w >> 2) | (w << 30)))) == (w >> 5) | (w << 27)
  {
  }

  lemma RotateUnrolled(w: bv32)
    ensures RotateLeft(w, 1) == LeftOne(w) && RotateRight(w, 1) == RightOne(w)
    ensures RotateLeft(w, 2) == LeftOne(LeftOne(w)) && RotateRight(w, 2) == RightOne(RightOne(w))
    ensures RotateLeft(w, 5) == LeftOne(LeftOne(LeftOne(RotateLeft(w, 2))))
    ensures RotateRight(w, 5) == RightOne(RightOne(RightOne(RotateRight(w, 2))))
  {
    hide LeftOne, RightOne;
    assert RotateLeft(w, 3) == LeftOne(RotateLeft(w, 2));
    assert RotateRight(w, 3) == RightOne(RotateRight(w, 2));
  }

  /** Repeating the one-bit rotation gives the usual two-shift rotation, for the three
      distances the cipher uses. */
  lemma RotationDistances(w: bv32)
    ensures RotateLeft(w, 1) == (w << 1) | (w >> 31) && RotateRight(w, 1) == (w >> 1) | (w << 31)
    ensures RotateLeft(w, 2) == (w << 2) | (w >> 30) && RotateRight(w, 2) == (w >> 2) | (w << 30)
    ensures RotateLeft(w, 5) == (w << 5) | (w >> 27) && RotateRight(w, 5) == (w >> 5) | (w << 27)
  {
    RotateUnrolled(w);
    LeftOneRepeated(w);
    RightOneRepeated(w);
    hide RotateLeft, RotateRight;
  }

  // ---------------------------------------------------------------- linear layer

  function LeftEight(w: bv32): bv32 {
    (w << 8) | (w >> 24)
  }

  function RightEight(w: bv32): bv32 {
    (w >> 8) | (w << 24)
  }

  /** t xor (t >>> 8) xor (t <<< 8) */
  function Mix(t: bv32): bv32 {
    Xor(Xor(t, RightEight(t)), LeftEight(t))
  }

  /** Xors t into words 1 and 3. */
  function XorOdd(s: Block, t: bv32): Block {
    Block(s.w0, Xor(s.w1, t), s.w2, Xor(s.w3, t))
  }

  /** Xors t into words 0 and 2. */
  function XorEven(s: Block, t: bv32): Block {
    Block(Xor(s.w0, t), s.w1, Xor(s.w2, t), s.w3)
  }

  /** Words 0 and 2 are mixed into words 1 and 3. */
  function ThetaEven(s: Block): Block {
    XorOdd(s, Mix(Xor(s.w0, s.w2)))
  }

  /** Words 1 and 3 are mixed into words 0 and 2. */
  function ThetaOdd(s: Block): Block {
    XorEven(s, Mix(Xor(s.w1, s.w3)))
  }

  function AddKey(s: Block, k: Block): Block {
    Block(Xor(s.w0, k.w0), Xor(s.w1, k.w1), Xor(s.w2, k.w2), Xor(s.w3, k.w3))
  }

  function Theta(s: Block, k: Block): Block {
    ThetaOdd(AddKey(ThetaEven(s), k))
  }

  function ThetaInverse(s: Block, k: Block): Block {
    ThetaEven(AddKey(ThetaOdd(s), k))
  }

  function AddConst(s: Block, rc: bv8): Block {
    Block(Xor(s.w0, rc as bv32), s.w1, s.w2, s.w3)
  }

  lemma XorOddCancels(s: Block, t: bv32)
    ensures XorOdd(XorOdd(s, t), t) == s
  {
    XorCancels(s.w1, t);
    XorCancels(s.w3, t);
  }

  lemma XorEvenCancels(s: Block, t: bv32)
    ensures XorEven(XorEven(s, t), t) == s
  {
    XorCancels(s.w0, t);
    XorCancels(s.w2, t);
  }

  lemma ThetaEvenSelfInverse(s: Block)
    ensures ThetaEven(ThetaEven(s)) == s
  {
    XorOddCancels(s, Mix(Xor(s.w0, s.w2)));
  }

  lemma ThetaOddSelfInverse(s: Block)
    ensures ThetaOdd(ThetaOdd(s)) == s
  {
    XorEvenCancels(s, Mix(Xor(s.w1, s.w3)));
  }

  lemma AddKeySelfInverse(s: Block, k: Block)
    ensures AddKey(AddKey(s, k), k) == s
  {
    XorCancels(s.w0, k.w0);
    XorCancels(s.w1, k.w1);
    XorCancels(s.w2, k.w2);
    XorCancels(s.w3, k.w3);
  }

  lemma AddConstSelfInverse(s: Block, rc: bv8)
    ensures AddConst(AddConst(s, rc), rc) == s
  {
    XorCancels(s.w0, rc as bv32);
  }

  /** The decryption layout of theta (odd part, key, even part) undoes the encryption
      layout (even part, key, odd part) under the same key, and conversely. */
  lemma ThetaInverts(s: Block, k: Block)
    ensures ThetaInverse(Theta(s, k), k) == s
    ensures Theta(ThetaInverse(s, k), k) == s
  {
    ThetaOddSelfInverse(AddKey(ThetaEven(s), k));
    AddKeySelfInverse(ThetaEven(s), k);
    ThetaEvenSelfInverse(s);
    ThetaEvenSelfInverse(AddKey(ThetaOdd(s), k));
    AddKeySelfInverse(ThetaOdd(s), k);
    ThetaOddSelfInverse(s);
  }

  // ------------------------------------------------------------- non-linear layer

  function Pi1(s: Block): Block {
    Block(s.w0, RotateLeft(s.w1, 1), RotateLeft(s.w2, 5), RotateLeft(s.w3, 2))
  }

  function Pi2(s: Block): Block {
    Block(s.w0, RotateRight(s.w1, 1), RotateRight(s.w2, 5), RotateRight(s.w3, 2))
  }

  function GammaStep(s: Block): Block {
    var w1 := Xor(s.w1, Nor(s.w3, s.w2));
    Block(Xor(s.w0, And(s.w2, w1)), w1, s.w2, s.w3)
  }

  function Xor3(a: bv32, b: bv32, c: bv32): bv32 {
    a ^ b ^ c
  }

  function GammaSwap(s: Block): Block {
    Block(s.w3, s.w1, Xor(s.w2, Xor3(s.w3, s.w1, s.w0)), s.w0)
  }

  function Gamma(s: Block): Block {
    GammaStep(GammaSwap(GammaStep(s)))
  }

  lemma MaskedXorCancels(b: bv32, c: bv32, d: bv32)
    ensures And(c, Xor(b, Nor(d, c))) == And(c, b)
  {
  }

  lemma GammaStepSelfInverse(s: Block)
    ensures GammaStep(GammaStep(s)) == s
  {
    XorCancels(s.w1, Nor(s.w3, s.w2));
    MaskedXorCancels(s.w1, s.w2, s.w3);
    XorCancels(s.w0, And(s.w2, s.w1));
  }

  lemma XorReverses(a: bv32, b: bv32, c: bv32)
    ensures Xor3(a, b, c) == Xor3(c, b, a)
  {
  }

  lemma GammaSwapSelfInverse(s: Block)
    ensures GammaSwap(GammaSwap(s)) == s
  {
    hide Xor, Xor3;
    XorReverses(s.w0, s.w1, s.w3);
    XorCancels(s.w2, Xor3(s.w3, s.w1, s.w0));
  }

  lemma GammaSelfInverse(s: Block)
    ensures Gamma(Gamma(s)) == s
  {
    var x := GammaStep(s);
    GammaStepSelfInverse(GammaSwap(x));
    GammaSwapSelfInverse(x);
    GammaStepSelfInverse(s);
  }

  lemma PiInverts(s: Block)
    ensures Pi2(Pi1(s)) == s
    ensures Pi1(Pi2(s)) == s
  {
    RotationsInverse(s.w1, 1);
    RotationsInverse(s.w2, 5);
    RotationsInverse(s.w3, 2);
  }

  /** Rotate, substitute, rotate back: the part of a round shared by both directions. */
  function NonLinear(s: Block): Block {
    Pi2(Gamma(Pi1(s)))
  }

  lemma NonLinearSelfInverse(s: Block)
    ensures NonLinear(NonLinear(s)) == s
  {
    PiInverts(Gamma(Pi1(s)));
    GammaSelfInverse(Pi1(s));
    PiInverts(s);
  }

  // -------------------------------------------------------------- round constants

  /** Multiplication by x in GF(2^8). */
  function NextConst(rc: bv8): bv8 {
    if rc & 0x80 != 0 then (rc << 1) ^ 0x1B else rc << 1
  }

  /** Division by x in GF(2^8). */
  function PreviousConst(rc: bv8): bv8 {
    if rc & 1 != 0 then (rc >> 1) ^ 0x8D else rc >> 1
  }

  lemma ConstUpdatesInverse(rc: bv8)
    ensures PreviousConst(NextConst(rc)) == rc
    ensures NextConst(PreviousConst(rc)) == rc
  {
  }

  /** The constant of encryption round i. */
  function ConstAt(i: nat): bv8 {
    if i == 0 then FIRST_CONST else NextConst(ConstAt(i - 1))
  }

  /** The constant register of decryption after i updates. */
  function ConstBack(i: nat): bv8 {
    if i == 0 then LAST_CONST else PreviousConst(ConstBack(i - 1))
  }

  lemma LastConst()
    ensures ConstAt(ROUNDS) == LAST_CONST
  {
    assert ConstAt(2) == 0x36;
    assert ConstAt(4) == 0xD8;
    assert ConstAt(6) == 0x4D;
    assert ConstAt(8) == 0x2F;
    assert ConstAt(10) == 0xBC;
    assert ConstAt(12) == 0xC6;
    assert ConstAt(14) == 0x35;
  }

  /** The decryption register walks the encryption constants backwards. */
  lemma {:induction false} ConstBackwards(i: nat)
    requires i <= ROUNDS
    ensures ConstBack(i) == ConstAt(ROUNDS - i)
  {
    if i == 0 {
      LastConst();
    } else {
      ConstBackwards(i - 1);
      ConstUpdatesInverse(ConstAt(ROUNDS - i));
    }
  }

  // ----------------------------------------------------------------------- cipher

  function EncryptLinear(s: Block, k: Block, rc: bv8): Block {
    Theta(AddConst(s, rc), k)
  }

  function DecryptLinear(s: Block, k: Block, rc: bv8): Block {
    AddConst(ThetaInverse(s, k), rc)
  }

  /** The state after i encryption rounds. */
  function EncryptRounds(s: Block, k: Block, i: nat): Block {
    if i == 0 then s
    else NonLinear(EncryptLinear(EncryptRounds(s, k, i - 1), k, ConstAt(i - 1)))
  }

  /** The state after i decryption rounds. */
  function DecryptRounds(s: Block, k: Block, i: nat): Block {
    if i == 0 then s
    else NonLinear(DecryptLinear(DecryptRounds(s, k, i - 1), k, ConstBack(i - 1)))
  }

  function Encrypt(s: Block, k: Block): Block {
    EncryptLinear(EncryptRounds(s, k, ROUNDS), k, ConstAt(ROUNDS))
  }

  function Decrypt(s: Block, k: Block): Block {
    DecryptLinear(DecryptRounds(s, k, ROUNDS), k, ConstBack(ROUNDS))
  }

  lemma LinearInverse(s: Block, k: Block, rc: bv8)
    ensures DecryptLinear(EncryptLinear(s, k, rc), k, rc) == s
    ensures EncryptLinear(DecryptLinear(s, k, rc), k, rc) == s
  {
    ThetaInverts(AddConst(s, rc), k);
    AddConstSelfInverse(s, rc);
    AddConstSelfInverse(ThetaInverse(s, k), rc);
    ThetaInverts(s, k);
  }

  /** Peeling one round: whatever was rotated and substituted just before a linear layer
      comes back when that layer is undone. */
  lemma RoundUndone(y: Block, k: Block, rc: bv8)
    ensures NonLinear(DecryptLinear(EncryptLinear(NonLinear(y), k, rc), k, rc)) == y
    ensures NonLinear(EncryptLinear(DecryptLinear(NonLinear(y), k, rc), k, rc)) == y
  {
    LinearInverse(NonLinear(y), k, rc);
    NonLinearSelfInverse(y);
  }

  lemma DecryptStepsBack(c: Block, s: Block, k: Block, i: nat)
    requires i < ROUNDS
    requires DecryptRounds(c, k, i)
          == EncryptLinear(EncryptRounds(s, k, ROUNDS - i), k, ConstAt(ROUNDS - i))
    ensures DecryptRounds(c, k, i + 1)
         == EncryptLinear(EncryptRounds(s, k, ROUNDS - i - 1), k, ConstAt(ROUNDS - i - 1))
  {
    hide NonLinear, EncryptLinear, DecryptLinear;
    var j := ROUNDS - i;
    ConstBackwards(i);
    RoundUndone(EncryptLinear(EncryptRounds(s, k, j - 1), k, ConstAt(j - 1)), k, ConstAt(j));
  }

  /** Decryption round i of a ciphertext stands where encryption round 16 - i stood,
      seen just after its linear layer. */
  lemma {:induction false} DecryptRetraces(s: Block, k: Block, i: nat)
    requires i <= ROUNDS
    ensures DecryptRounds(Encrypt(s, k), k, i)
         == EncryptLinear(EncryptRounds(s, k, ROUNDS - i), k, ConstAt(ROUNDS - i))
  {
    hide NonLinear, EncryptLinear, DecryptLinear;
    if i > 0 {
      DecryptRetraces(s, k, i - 1);
      DecryptStepsBack(Encrypt(s, k), s, k, i - 1);
    }
  }

  lemma DecryptAfterEncrypt(s: Block, k: Block)
    ensures Decrypt(Encrypt(s, k), k) == s
  {
    hide NonLinear, EncryptLinear, DecryptLinear;
    DecryptRetraces(s, k, ROUNDS);
    ConstBackwards(ROUNDS);
    LinearInverse(s, k, FIRST_CONST);
  }

  lemma EncryptStepsBack(c: Block, s: Block, k: Block, i: nat)
    requires i < ROUNDS
    requires EncryptRounds(c, k, i)
          == DecryptLinear(DecryptRounds(s, k, ROUNDS - i), k, ConstBack(ROUNDS - i))
    ensures EncryptRounds(c, k, i + 1)
         == DecryptLinear(DecryptRounds(s, k, ROUNDS - i - 1), k, ConstBack(ROUNDS - i - 1))
  {
    hide NonLinear, EncryptLinear, DecryptLinear;
    var j := ROUNDS - i;
    ConstBackwards(j);
    RoundUndone(DecryptLinear(DecryptRounds(s, k, j - 1), k, ConstBack(j - 1)), k, ConstBack(j));
  }

  /** Encryption round i of a decrypted block stands where decryption round 16 - i stood,
      seen just after its linear layer. */
  lemma {:induction false} EncryptRetraces(s: Block, k: Block, i: nat)
    requires i <= ROUNDS
    ensures EncryptRounds(Decrypt(s, k), k, i)
         == DecryptLinear(DecryptRounds(s, k, ROUNDS - i), k, ConstBack(ROUNDS - i))
  {
    hide NonLinear, EncryptLinear, DecryptLinear;
    if i > 0 {
      EncryptRetraces(s, k, i - 1);
      EncryptStepsBack(Decrypt(s, k), s, k, i - 1);
    }
  }

  lemma EncryptAfterDecrypt(s: Block, k: Block)
    ensures Encrypt(Decrypt(s, k), k) == s
  {
    hide NonLinear, EncryptLinear, DecryptLinear;
    EncryptRetraces(s, k, ROUNDS);
    LastConst();
    LinearInverse(s, k, LAST_CONST);
  }
}
