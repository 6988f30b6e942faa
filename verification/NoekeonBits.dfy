/** A round of NOEKEON bit by bit, without words: how the linear layer mixes the bits of four
    rows, and the table that four of them go through. The word-level round of module Noekeon is
    proved to be this one, so that a statement about bits says all there is to say. */
module NoekeonBits {
  import opened Avr
  import opened Noekeon

  /** Bit j of row w. */
  type Rows = (nat, nat) -> bool

  /** The four-bit table, lowest row first. */
  const TABLE: seq<nat> := [7, 10, 2, 12, 4, 8, 15, 0, 5, 9, 1, 14, 3, 13, 11, 6]

  /** The bits of rows `from` and from + 2 at one place, added. */
  function Pair(x: Rows, from: nat, j: nat): bool {
    x(from, j % 32) != x(from + 2, j % 32)
  }

  /** Two rows flow into the other two: each bit gets the sums at its own place and eight places
      up and down. */
  function Flow(x: Rows, from: nat): Rows {
    (w: nat, j: nat) =>
      if w % 2 == from then x(w, j)
      else x(w, j) != (Pair(x, from, j) != (Pair(x, from, j + 8) != Pair(x, from, j + 24)))
  }

  function Added(x: Rows, k: Rows): Rows {
    (w: nat, j: nat) => x(w, j) != k(w, j)
  }

  /** A constant goes into the first eight bits of row 0. */
  function ConstAdded(x: Rows, rc: bv8): Rows {
    (w: nat, j: nat) => if w == 0 && j < 8 then x(w, j) != BitOf(rc, j) else x(w, j)
  }

  function One(b: bool): nat {
    if b then 1 else 0
  }

  /** The four bits that meet at place i: rows 1, 2 and 3 are shifted by 1, 5 and 2. */
  function Nibble(x: Rows, i: nat): (n: nat)
    ensures n < 16
  {
    One(x(0, i % 32)) + 2 * One(x(1, (i + 31) % 32)) + 4 * One(x(2, (i + 27) % 32)) + 8 * One(x(3, (i + 30) % 32))
  }

  /** Everywhere the four bits of y are those of x through the table. */
  predicate Substituted(x: Rows, y: Rows) {
    forall i :: 0 <= i < 32 ==> Nibble(y, i) == TABLE[Nibble(x, i)]
  }

  predicate SameRows(x: Rows, y: Rows) {
    forall w, j :: 0 <= w < 4 && 0 <= j < 32 ==> x(w, j) == y(w, j)
  }

  function EncryptionMixes(x: Rows, k: Rows, rc: bv8): Rows {
    Flow(Added(Flow(ConstAdded(x, rc), 0), k), 1)
  }

  function DecryptionMixes(x: Rows, k: Rows, rc: bv8): Rows {
    ConstAdded(Flow(Added(Flow(x, 1), k), 0), rc)
  }

  // ---------------------------------------------------------------- bits of words

  /** Bit j of a word, counted on round the word. */
  function Bit(w: bv32, j: nat): bool {
    RotateRight(w, j) & 1 != 0
  }

  function Row(s: Block, w: nat): bv32 {
    if w == 0 then s.w0 else if w == 1 then s.w1 else if w == 2 then s.w2 else s.w3
  }

  function RowsOf(s: Block): Rows {
    (w: nat, j: nat) => Bit(Row(s, w), j)
  }

  lemma RowsAt(s: Block, w: nat, j: nat)
    ensures RowsOf(s)(w, j) == Bit(Row(s, w), j)
  {
    hide Bit, Row;
  }

  lemma {:induction false} RotateAdd(w: bv32, m: nat, n: nat)
    ensures RotateRight(RotateRight(w, m), n) == RotateRight(w, m + n)
  {
    if n > 0 {
      RotateAdd(w, m, n - 1);
    }
  }

  lemma EightOnes(w: bv32)
    ensures RightOne(RightOne(RightOne(RightOne(w)))) == (w >> 4) | (w << 28)
    ensures RightOne(RightOne(RightOne(RightOne((w >> 4) | (w << 28))))) == RightEight(w)
  {
  }

  lemma RotateEight(w: bv32)
    ensures RotateRight(w, 8) == RightEight(w)
  {
    hide RightOne, RightEight;
    EightOnes(w);
    RotateFour(w);
    RotateFour(RotateRight(w, 4));
    RotateAdd(w, 4, 4);
  }

  lemma RotateFour(w: bv32)
    ensures RotateRight(w, 4) == RightOne(RightOne(RightOne(RightOne(w))))
  {
    hide RightOne;
    assert RotateRight(w, 1) == RightOne(w);
    assert RotateRight(w, 2) == RightOne(RightOne(w));
    assert RotateRight(w, 3) == RightOne(RightOne(RightOne(w)));
  }

  lemma FourEights(w: bv32)
    ensures RightEight(RightEight(RightEight(RightEight(w)))) == w
    ensures RightEight(RightEight(RightEight(w))) == LeftEight(w)
  {
  }

  /** All the way round; and eight to the left is twenty-four to the right. */
  lemma RotateFull(w: bv32)
    ensures RotateRight(w, 32) == w && RotateRight(w, 24) == LeftEight(w)
  {
    hide RightEight, LeftEight, RotateRight;
    FourEights(w);
    RotateEight(w);
    RotateEight(RotateRight(w, 8));
    RotateAdd(w, 8, 8);
    RotateEight(RotateRight(w, 16));
    RotateAdd(w, 16, 8);
    RotateEight(RotateRight(w, 24));
    RotateAdd(w, 24, 8);
  }

  lemma LeftIsRight(w: bv32, n: nat)
    requires n <= 32
    ensures RotateLeft(w, n) == RotateRight(w, 32 - n)
  {
    hide RotateLeft, RotateRight;
    RotationsInverse(w, n);
    RotateAdd(RotateLeft(w, n), n, 32 - n);
    RotateFull(RotateLeft(w, n));
  }

  lemma BitRound(w: bv32, j: nat)
    ensures Bit(w, j + 32) == Bit(w, j)
  {
    hide RotateRight;
    RotateAdd(w, 32, j);
    RotateFull(w);
  }

  lemma {:induction false} BitModulo(w: bv32, j: nat)
    ensures Bit(w, j % 32) == Bit(w, j)
  {
    hide Bit;
    if j >= 32 {
      BitModulo(w, j - 32);
      BitRound(w, j - 32);
      assert (j - 32) % 32 == j % 32;
    }
  }

  lemma BitRotated(w: bv32, n: nat, j: nat)
    ensures Bit(RotateRight(w, n), j) == Bit(w, n + j)
    ensures n <= 32 ==> Bit(RotateLeft(w, n), j) == Bit(w, 32 - n + j)
  {
    hide RotateRight, RotateLeft;
    RotateAdd(w, n, j);
    if n <= 32 {
      LeftIsRight(w, n);
      RotateAdd(w, 32 - n, j);
    }
  }

  lemma RightOneXor(a: bv32, b: bv32)
    ensures RightOne(Xor(a, b)) == Xor(RightOne(a), RightOne(b))
  {
  }

  lemma RightOneAnd(a: bv32, b: bv32)
    ensures RightOne(And(a, b)) == And(RightOne(a), RightOne(b))
  {
  }

  lemma RightOneNor(a: bv32, b: bv32)
    ensures RightOne(Nor(a, b)) == Nor(RightOne(a), RightOne(b))
  {
  }

  lemma {:induction false} RotateSpreads(a: bv32, b: bv32, j: nat)
    ensures RotateRight(Xor(a, b), j) == Xor(RotateRight(a, j), RotateRight(b, j))
    ensures RotateRight(And(a, b), j) == And(RotateRight(a, j), RotateRight(b, j))
    ensures RotateRight(Nor(a, b), j) == Nor(RotateRight(a, j), RotateRight(b, j))
  {
    hide Xor, And, Nor, RightOne;
    if j > 0 {
      RotateSpreads(a, b, j - 1);
      RightOneXor(RotateRight(a, j - 1), RotateRight(b, j - 1));
      RightOneAnd(RotateRight(a, j - 1), RotateRight(b, j - 1));
      RightOneNor(RotateRight(a, j - 1), RotateRight(b, j - 1));
    }
  }

  lemma LowBits(a: bv32, b: bv32)
    ensures (Xor(a, b) & 1 != 0) <==> ((a & 1 != 0) != (b & 1 != 0))
    ensures (And(a, b) & 1 != 0) <==> (a & 1 != 0) && (b & 1 != 0)
    ensures (Nor(a, b) & 1 != 0) <==> !(a & 1 != 0) && !(b & 1 != 0)
  {
  }

  lemma BitwiseAt(a: bv32, b: bv32, j: nat)
    ensures Bit(Xor(a, b), j) <==> Bit(a, j) != Bit(b, j)
    ensures Bit(And(a, b), j) <==> Bit(a, j) && Bit(b, j)
    ensures Bit(Nor(a, b), j) <==> !Bit(a, j) && !Bit(b, j)
  {
    hide Xor, And, Nor, RotateRight;
    RotateSpreads(a, b, j);
    LowBits(RotateRight(a, j), RotateRight(b, j));
  }

  // ---------------------------------------------------------------- the linear layer

  lemma MixAt(t: bv32, j: nat)
    ensures Bit(Mix(t), j) <==> Bit(t, j) != (Bit(t, j + 8) != Bit(t, j + 24))
  {
    hide Bit, Xor, RightEight, LeftEight, RotateRight;
    BitwiseAt(Xor(t, RightEight(t)), LeftEight(t), j);
    BitwiseAt(t, RightEight(t), j);
    RotateEight(t);
    BitRotated(t, 8, j);
    RotateFull(t);
    BitRotated(t, 24, j);
  }

  lemma PairAt(a: bv32, b: bv32, j: nat)
    ensures Bit(Xor(a, b), j) <==> Bit(a, j % 32) != Bit(b, j % 32)
  {
    hide Bit, Xor;
    BitwiseAt(a, b, j);
    BitModulo(a, j);
    BitModulo(b, j);
  }

  lemma FlowedAt(w: bv32, a: bv32, b: bv32, j: nat)
    ensures Bit(Xor(w, Mix(Xor(a, b))), j) <==>
      Bit(w, j) != ((Bit(a, j % 32) != Bit(b, j % 32))
                    != ((Bit(a, (j + 8) % 32) != Bit(b, (j + 8) % 32))
                        != (Bit(a, (j + 24) % 32) != Bit(b, (j + 24) % 32))))
  {
    hide Bit, Xor, Mix;
    BitwiseAt(w, Mix(Xor(a, b)), j);
    MixAt(Xor(a, b), j);
    PairAt(a, b, j);
    PairAt(a, b, j + 8);
    PairAt(a, b, j + 24);
  }

  lemma ThetaFlows(s: Block)
    ensures SameRows(RowsOf(ThetaEven(s)), Flow(RowsOf(s), 0))
    ensures SameRows(RowsOf(ThetaOdd(s)), Flow(RowsOf(s), 1))
  {
    hide Bit, Row, ThetaEven, ThetaOdd;
    forall w, j | 0 <= w < 4 && 0 <= j < 32
      ensures RowsOf(ThetaEven(s))(w, j) == Flow(RowsOf(s), 0)(w, j)
      ensures RowsOf(ThetaOdd(s))(w, j) == Flow(RowsOf(s), 1)(w, j)
    {
      ThetaAt(s, w, j);
      FlowAt(s, 0, w, j);
      FlowAt(s, 1, w, j);
    }
  }

  lemma FlowAt(s: Block, from: nat, w: nat, j: nat)
    requires from < 2
    ensures Flow(RowsOf(s), from)(w, j) == FlowBit(s, from, w, j)
  {
    hide Bit, Row;
    var x := RowsOf(s);
    assert x(w, j) == Bit(Row(s, w), j);
    assert Pair(x, from, j) == (Bit(Row(s, from), j % 32) != Bit(Row(s, from + 2), j % 32));
    assert Pair(x, from, j + 8) == (Bit(Row(s, from), (j + 8) % 32) != Bit(Row(s, from + 2), (j + 8) % 32));
    assert Pair(x, from, j + 24) == (Bit(Row(s, from), (j + 24) % 32) != Bit(Row(s, from + 2), (j + 24) % 32));
  }

  /** One bit after rows `from` and from + 2 have flowed into the others. */
  function FlowBit(s: Block, from: nat, w: nat, j: nat): bool {
    if w % 2 == from then Bit(Row(s, w), j)
    else
      Bit(Row(s, w), j) != ((Bit(Row(s, from), j % 32) != Bit(Row(s, from + 2), j % 32))
        != ((Bit(Row(s, from), (j + 8) % 32) != Bit(Row(s, from + 2), (j + 8) % 32))
            != (Bit(Row(s, from), (j + 24) % 32) != Bit(Row(s, from + 2), (j + 24) % 32))))
  }

  lemma ThetaAt(s: Block, w: nat, j: nat)
    requires w < 4
    ensures Bit(Row(ThetaEven(s), w), j) == FlowBit(s, 0, w, j)
    ensures Bit(Row(ThetaOdd(s), w), j) == FlowBit(s, 1, w, j)
  {
    hide Bit, Xor, Mix;
    if w == 0 {
      FlowedAt(s.w0, s.w1, s.w3, j);
    } else if w == 1 {
      FlowedAt(s.w1, s.w0, s.w2, j);
    } else if w == 2 {
      FlowedAt(s.w2, s.w1, s.w3, j);
    } else {
      FlowedAt(s.w3, s.w0, s.w2, j);
    }
  }

  lemma KeyAt(s: Block, k: Block)
    ensures SameRows(RowsOf(AddKey(s, k)), Added(RowsOf(s), RowsOf(k)))
  {
    hide Bit, Row, Xor, AddKey;
    forall w, j | 0 <= w < 4 && 0 <= j < 32
      ensures RowsOf(AddKey(s, k))(w, j) == Added(RowsOf(s), RowsOf(k))(w, j)
    {
      RowAdded(s, k, w);
      BitwiseAt(Row(s, w), Row(k, w), j);
    }
  }

  lemma RowAdded(s: Block, k: Block, w: nat)
    requires w < 4
    ensures Row(AddKey(s, k), w) == Xor(Row(s, w), Row(k, w))
  {
    hide Xor;
  }

  lemma FlowSame(x: Rows, y: Rows, from: nat)
    requires SameRows(x, y) && from < 2
    ensures SameRows(Flow(x, from), Flow(y, from))
  {
  }

  lemma RowsTransitive(x: Rows, y: Rows, z: Rows)
    requires SameRows(x, y) && SameRows(y, z)
    ensures SameRows(x, z)
  {
  }

  // ---------------------------------------------------------------- the table

  lemma GammaStepAt(s: Block, j: nat)
    ensures var t := GammaStep(s);
      && (Bit(t.w1, j) <==> Bit(s.w1, j) != (!Bit(s.w3, j) && !Bit(s.w2, j)))
      && (Bit(t.w0, j) <==> Bit(s.w0, j) != (Bit(s.w2, j) && Bit(t.w1, j)))
      && t.w2 == s.w2 && t.w3 == s.w3
  {
    hide Bit, Xor, And, Nor;
    var t := GammaStep(s);
    BitwiseAt(s.w1, Nor(s.w3, s.w2), j);
    BitwiseAt(s.w3, s.w2, j);
    BitwiseAt(s.w0, And(s.w2, t.w1), j);
    BitwiseAt(s.w2, t.w1, j);
  }

  lemma Xor3IsXor(a: bv32, b: bv32, c: bv32)
    ensures Xor3(a, b, c) == Xor(Xor(a, b), c)
  {
    assert Xor(Xor(a, b), c) == (a ^ b) ^ c;
  }

  lemma GammaSwapAt(s: Block, j: nat)
    ensures var t := GammaSwap(s);
      && (Bit(t.w2, j) <==> Bit(s.w2, j) != ((Bit(s.w3, j) != Bit(s.w1, j)) != Bit(s.w0, j)))
      && t.w0 == s.w3 && t.w1 == s.w1 && t.w3 == s.w0
  {
    hide Bit, Xor, Xor3;
    Xor3IsXor(s.w3, s.w1, s.w0);
    BitwiseAt(s.w2, Xor(Xor(s.w3, s.w1), s.w0), j);
    BitwiseAt(Xor(s.w3, s.w1), s.w0, j);
    BitwiseAt(s.w3, s.w1, j);
  }

  function Four(a: bool, b: bool, c: bool, d: bool): (n: nat)
    ensures n < 16
  {
    One(a) + 2 * One(b) + 4 * One(c) + 8 * One(d)
  }

  /** Gamma takes the four bits at one place through the table. */
  lemma GammaAt(s: Block, j: nat)
    ensures var t := Gamma(s);
      Four(Bit(t.w0, j), Bit(t.w1, j), Bit(t.w2, j), Bit(t.w3, j))
      == TABLE[Four(Bit(s.w0, j), Bit(s.w1, j), Bit(s.w2, j), Bit(s.w3, j))]
  {
    hide Bit, GammaStep, GammaSwap;
    GammaStepAt(s, j);
    GammaSwapAt(GammaStep(s), j);
    GammaStepAt(GammaSwap(GammaStep(s)), j);
  }

  lemma NibbleOf(s: Block, i: nat)
    requires i < 32
    ensures Nibble(RowsOf(s), i) == Four(Bit(s.w0, i), Bit(s.w1, i + 31), Bit(s.w2, i + 27), Bit(s.w3, i + 30))
  {
    hide Bit, RowsOf;
    RowsAt(s, 0, i % 32);
    RowsAt(s, 1, (i + 31) % 32);
    RowsAt(s, 2, (i + 27) % 32);
    RowsAt(s, 3, (i + 30) % 32);
    BitModulo(s.w1, i + 31);
    BitModulo(s.w2, i + 27);
    BitModulo(s.w3, i + 30);
  }

  /** The non-linear layer substitutes everywhere. */
  lemma NonLinearSubstitutes(s: Block)
    ensures Substituted(RowsOf(s), RowsOf(NonLinear(s)))
  {
    hide Bit, Gamma, Four, RotateLeft, RotateRight, Nibble;
    var p := Pi1(s);
    var g := Gamma(p);
    forall i | 0 <= i < 32
      ensures Nibble(RowsOf(NonLinear(s)), i) == TABLE[Nibble(RowsOf(s), i)]
    {
      GammaAt(p, i);
      NibbleOf(s, i);
      NibbleOf(NonLinear(s), i);
      BitRotated(s.w1, 1, i);
      BitRotated(s.w2, 5, i);
      BitRotated(s.w3, 2, i);
      BitRotated(g.w1, 1, i + 31);
      BitRotated(g.w2, 5, i + 27);
      BitRotated(g.w3, 2, i + 30);
      BitRound(g.w1, i);
      BitRound(g.w2, i);
      BitRound(g.w3, i);
    }
  }

  // ---------------------------------------------------------------- whole rounds

  lemma SubstitutedSame(x: Rows, x': Rows, y: Rows, y': Rows)
    requires SameRows(x, x') && SameRows(y, y') && Substituted(x, y)
    ensures Substituted(x', y')
  {
    forall i | 0 <= i < 32
      ensures Nibble(y', i) == TABLE[Nibble(x', i)]
    {
      assert Nibble(x', i) == Nibble(x, i) && Nibble(y', i) == Nibble(y, i);
    }
  }

  lemma AddedSame(x: Rows, y: Rows, k: Rows, k': Rows)
    requires SameRows(x, y) && SameRows(k, k')
    ensures SameRows(Added(x, k), Added(y, k'))
  {
  }

  lemma ConstSame(x: Rows, y: Rows, rc: bv8)
    requires SameRows(x, y)
    ensures SameRows(ConstAdded(x, rc), ConstAdded(y, rc))
  {
  }

  /** The rows of the state and key of a round, given any way, and the word-level linear layers. */
  lemma EncryptLinearMixes(x: Rows, k: Rows, s: Block, key: Block, rc: bv8)
    requires SameRows(x, RowsOf(s)) && SameRows(k, RowsOf(key))
    requires SameRows(RowsOf(AddConst(s, rc)), ConstAdded(RowsOf(s), rc))
    ensures SameRows(EncryptionMixes(x, k, rc), RowsOf(EncryptLinear(s, key, rc)))
  {
    hide RowsOf, Flow, Added, ConstAdded, SameRows, ThetaEven, ThetaOdd, AddKey, AddConst;
    var a := AddConst(s, rc);
    var b := ThetaEven(a);
    var c := AddKey(b, key);
    ConstSame(x, RowsOf(s), rc);
    Turn(RowsOf(a), ConstAdded(RowsOf(s), rc));
    RowsTransitive(ConstAdded(x, rc), ConstAdded(RowsOf(s), rc), RowsOf(a));
    ThenFlow(ConstAdded(x, rc), a, 0);
    ThenKey(Flow(ConstAdded(x, rc), 0), b, k, key);
    ThenFlow(Added(Flow(ConstAdded(x, rc), 0), k), c, 1);
  }

  lemma DecryptLinearMixes(x: Rows, k: Rows, s: Block, key: Block, rc: bv8)
    requires SameRows(x, RowsOf(s)) && SameRows(k, RowsOf(key))
    requires var t := ThetaInverse(s, key); SameRows(RowsOf(AddConst(t, rc)), ConstAdded(RowsOf(t), rc))
    ensures SameRows(DecryptionMixes(x, k, rc), RowsOf(DecryptLinear(s, key, rc)))
  {
    hide RowsOf, Flow, Added, ConstAdded, SameRows, ThetaEven, ThetaOdd, AddKey, AddConst;
    var b := ThetaOdd(s);
    var c := AddKey(b, key);
    var d := ThetaEven(c);
    ThenFlow(x, s, 1);
    ThenKey(Flow(x, 1), b, k, key);
    ThenFlow(Added(Flow(x, 1), k), c, 0);
    ConstSame(Flow(Added(Flow(x, 1), k), 0), RowsOf(d), rc);
    Turn(RowsOf(AddConst(d, rc)), ConstAdded(RowsOf(d), rc));
    RowsTransitive(DecryptionMixes(x, k, rc), ConstAdded(RowsOf(d), rc), RowsOf(AddConst(d, rc)));
  }

  lemma Turn(x: Rows, y: Rows)
    requires SameRows(x, y)
    ensures SameRows(y, x)
  {
  }

  lemma ThenFlow(x: Rows, s: Block, from: nat)
    requires SameRows(x, RowsOf(s)) && from < 2
    ensures SameRows(Flow(x, from), RowsOf(if from == 0 then ThetaEven(s) else ThetaOdd(s)))
  {
    hide RowsOf, Flow, SameRows, ThetaEven, ThetaOdd;
    FlowSame(x, RowsOf(s), from);
    ThetaFlows(s);
    var t := if from == 0 then ThetaEven(s) else ThetaOdd(s);
    Turn(RowsOf(t), Flow(RowsOf(s), from));
    RowsTransitive(Flow(x, from), Flow(RowsOf(s), from), RowsOf(t));
  }

  lemma ThenKey(x: Rows, s: Block, k: Rows, key: Block)
    requires SameRows(x, RowsOf(s)) && SameRows(k, RowsOf(key))
    ensures SameRows(Added(x, k), RowsOf(AddKey(s, key)))
  {
    hide RowsOf, Added, SameRows, AddKey;
    AddedSame(x, RowsOf(s), k, RowsOf(key));
    KeyAt(s, key);
    Turn(RowsOf(AddKey(s, key)), Added(RowsOf(s), RowsOf(key)));
    RowsTransitive(Added(x, k), Added(RowsOf(s), RowsOf(key)), RowsOf(AddKey(s, key)));
  }
}
