/** A record is a list of fields, each ended by NUL. Playback counts through it in eight bits,
    so what it sees is the record's first 256 bytes, over and over. */
module Fields {

  /** Byte i as playback sees it. */
  function Seen(plain: seq<bv8>, i: nat): bv8
    requires |plain| == 256
  {
    plain[i % 256]
  }

  /** How many of the first q bytes seen are NUL. */
  function Nuls(plain: seq<bv8>, q: nat): (n: nat)
    requires |plain| == 256
    ensures n <= q
  {
    if q == 0 then 0 else Nuls(plain, q - 1) + if Seen(plain, q - 1) == 0 then 1 else 0
  }

  /** The characters of the first q bytes seen that belong to fields from a on. */
  function Typed(plain: seq<bv8>, a: nat, q: nat): (r: seq<bv8>)
    requires |plain| == 256
    ensures 0 !in r
  {
    if q == 0 then []
    else
      var c := Seen(plain, q - 1);
      Typed(plain, a, q - 1) + if c != 0 && Nuls(plain, q - 1) >= a then [c] else []
  }

  /** The b'th NUL is the last of the first e bytes. */
  predicate EndsAt(plain: seq<bv8>, b: nat, e: nat)
    requires |plain| == 256
  {
    Nuls(plain, e) == b && (e > 0 ==> Nuls(plain, e - 1) < b)
  }

  lemma {:induction false} NulsGrow(plain: seq<bv8>, p: nat, q: nat)
    requires |plain| == 256 && p <= q
    ensures Nuls(plain, p) <= Nuls(plain, q)
    decreases q
  {
    if p < q {
      NulsGrow(plain, p, q - 1);
    }
  }

  // ---------------------------------------------------------------- when playback ends

  /** Without a NUL in the first 256 bytes, none is ever seen. */
  lemma {:induction false} NoneEver(plain: seq<bv8>, q: nat)
    requires |plain| == 256 && 0 !in plain
    ensures Nuls(plain, q) == 0
  {
    if q > 0 {
      NoneEver(plain, q - 1);
      assert Seen(plain, q - 1) in plain;
    }
  }

  lemma NextNul(plain: seq<bv8>, q: nat, i: nat) returns (e: nat)
    requires |plain| == 256 && i < 256 && plain[i] == 0
    ensures q < e && Nuls(plain, e) > Nuls(plain, q)
  {
    e := 256 * (q + 1) + i + 1;
    assert Seen(plain, e - 1) == plain[i] by {
      assert (256 * (q + 1) + i) % 256 == i;
    }
    NulsGrow(plain, q, e - 1);
  }

  /** With one, every number of NULs is reached. */
  lemma {:induction false} EveryEnd(plain: seq<bv8>, b: nat, i: nat) returns (e: nat)
    requires |plain| == 256 && i < 256 && plain[i] == 0
    ensures EndsAt(plain, b, e)
  {
    if b == 0 {
      e := 0;
    } else {
      var d := EveryEnd(plain, b - 1, i);
      var far := NextNul(plain, d, i);
      e := d + 1;
      while Nuls(plain, e) < b
        invariant d < e && Nuls(plain, e - 1) == b - 1
        invariant Nuls(plain, far) >= b
        invariant e <= far
        decreases far - e
      {
        if e == far {
          NulsGrow(plain, far, e);
        }
        e := e + 1;
      }
    }
  }

  /** Playback up to field b ends exactly when b is 0 or a NUL is among the first 256 bytes. */
  lemma EndsExactly(plain: seq<bv8>, b: nat)
    requires |plain| == 256
    ensures (exists e :: EndsAt(plain, b, e)) <==> (b == 0 || 0 in plain)
  {
    if b == 0 {
      assert EndsAt(plain, 0, 0);
    } else if 0 in plain {
      var i :| 0 <= i < 256 && plain[i] == 0;
      var e := EveryEnd(plain, b, i);
    } else {
      forall e: nat
        ensures !EndsAt(plain, b, e)
      {
        NoneEver(plain, e);
      }
    }
  }

  lemma EndUnique(plain: seq<bv8>, b: nat, e: nat, q: nat)
    requires |plain| == 256 && EndsAt(plain, b, e)
    ensures q < e ==> Nuls(plain, q) < b
    ensures q >= e ==> Nuls(plain, q) >= b
  {
    if q < e {
      NulsGrow(plain, q, e - 1);
    } else {
      NulsGrow(plain, e, q);
    }
  }

  // ---------------------------------------------------------------- fields

  predicate GoodFields(fields: seq<seq<bv8>>) {
    forall i :: 0 <= i < |fields| ==> 0 !in fields[i]
  }

  function Encoded(fields: seq<seq<bv8>>): seq<bv8> {
    if fields == [] then [] else Encoded(fields[..|fields| - 1]) + fields[|fields| - 1] + [0]
  }

  function Join(fields: seq<seq<bv8>>): seq<bv8> {
    if fields == [] then [] else Join(fields[..|fields| - 1]) + fields[|fields| - 1]
  }

  lemma OneMore(plain: seq<bv8>, a: nat, q: nat, c: bv8)
    requires |plain| == 256 && Seen(plain, q) == c
    ensures Nuls(plain, q + 1) == Nuls(plain, q) + if c == 0 then 1 else 0
    ensures Typed(plain, a, q + 1) == Typed(plain, a, q) + if c != 0 && Nuls(plain, q) >= a then [c] else []
  {
  }

  /** A run of characters without NUL. */
  lemma {:induction false} InRun(plain: seq<bv8>, a: nat, q: nat, run: seq<bv8>, j: nat)
    requires |plain| == 256 && j <= |run| && 0 !in run
    requires forall k :: 0 <= k < |run| ==> Seen(plain, q + k) == run[k]
    ensures Nuls(plain, q + j) == Nuls(plain, q)
    ensures Typed(plain, a, q + j) == Typed(plain, a, q) + if Nuls(plain, q) >= a then run[..j] else []
  {
    hide Nuls, Typed, Seen;
    if j > 0 {
      InRun(plain, a, q, run, j - 1);
      var c := run[j - 1];
      assert Seen(plain, q + (j - 1)) == c;
      OneMore(plain, a, q + (j - 1), c);
      assert run[..j] == run[..j - 1] + [c];
    }
  }

  /** One field, j characters of it. */
  lemma InField(plain: seq<bv8>, a: nat, q: nat, field: seq<bv8>, j: nat)
    requires |plain| == 256 && j <= |field| && q + |field| <= 256 && plain[q..q + |field|] == field && 0 !in field
    ensures Nuls(plain, q + j) == Nuls(plain, q)
    ensures Typed(plain, a, q + j) == Typed(plain, a, q) + if Nuls(plain, q) >= a then field[..j] else []
  {
    hide Nuls, Typed;
    forall k | 0 <= k < |field|
      ensures Seen(plain, q + k) == field[k]
    {
      assert plain[q + k] == plain[q..q + |field|][k];
    }
    InRun(plain, a, q, field, j);
  }

  /** A field and its NUL. */
  lemma WholeField(plain: seq<bv8>, a: nat, q: nat, field: seq<bv8>)
    requires |plain| == 256 && 0 !in field && q + |field| + 1 <= 256
    requires plain[q..q + |field| + 1] == field + [0]
    ensures Nuls(plain, q + |field|) == Nuls(plain, q)
    ensures Nuls(plain, q + |field| + 1) == Nuls(plain, q) + 1
    ensures Typed(plain, a, q + |field| + 1) == Typed(plain, a, q) + if Nuls(plain, q) >= a then field else []
  {
    hide Nuls, Typed;
    var n := |field|;
    var whole := plain[q..q + n + 1];
    assert plain[q..q + n] == whole[..n];
    assert (field + [0])[..n] == field;
    assert plain[q + n] == whole[n];
    InField(plain, a, q, field, n);
    assert field[..n] == field;
    OneMore(plain, a, q + n, 0);
  }

  lemma LastField(plain: seq<bv8>, fields: seq<seq<bv8>>)
    requires |plain| == 256 && fields != [] && |Encoded(fields)| <= 256
    requires plain[..|Encoded(fields)|] == Encoded(fields)
    ensures var first, last := fields[..|fields| - 1], fields[|fields| - 1];
      var q := |Encoded(first)|;
      && |Encoded(fields)| == q + |last| + 1
      && plain[..q] == Encoded(first) && plain[q..q + |last| + 1] == last + [0]
  {
    var first, last := fields[..|fields| - 1], fields[|fields| - 1];
    var q, e := |Encoded(first)|, |Encoded(fields)|;
    assert Encoded(fields) == Encoded(first) + (last + [0]);
    assert plain[..q] == plain[..e][..q];
    assert plain[q..e] == plain[..e][q..];
  }

  lemma JoinLast(fields: seq<seq<bv8>>, a: nat)
    ensures var n := |fields| - 1;
      a <= n ==> Join(fields[a..]) == Join(fields[..n][a..]) + fields[n]
    ensures Join(fields[|fields|..]) == []
  {
    var n := |fields| - 1;
    if a <= n {
      assert fields[a..][..n - a] == fields[..n][a..];
    }
  }

  /** The NULs take a byte each. */
  lemma {:induction false} JoinFits(fields: seq<seq<bv8>>, a: nat)
    requires a <= |fields|
    ensures |Join(fields[a..])| + |fields| <= |Encoded(fields)|
    decreases |fields|
  {
    hide Encoded, Join;
    var n := |fields| - 1;
    JoinLast(fields, a);
    if fields == [] {
      assert fields[a..] == [];
    } else if a <= n {
      JoinFits(fields[..n], a);
      EncodedLast(fields);
    } else {
      JoinFits(fields[..n], n);
      EncodedLast(fields);
    }
  }

  lemma EncodedLast(fields: seq<seq<bv8>>)
    requires fields != []
    ensures var n := |fields| - 1; |Encoded(fields)| == |Encoded(fields[..n])| + |fields[n]| + 1
  {
  }

  lemma NoFields(plain: seq<bv8>, a: nat)
    requires |plain| == 256
    ensures Encoded([]) == [] == Join([]) && Typed(plain, a, 0) == [] && EndsAt(plain, 0, 0)
  {
  }

  /** While the fields up to b, NULs included, take no more than 256 bytes, the b'th NUL ends
      field b - 1, and the characters are exactly those of fields a to b - 1, in order. */
  lemma {:induction false} TypesFields(plain: seq<bv8>, fields: seq<seq<bv8>>, a: nat)
    requires |plain| == 256 && GoodFields(fields) && |Encoded(fields)| <= 256
    requires plain[..|Encoded(fields)|] == Encoded(fields)
    ensures EndsAt(plain, |fields|, |Encoded(fields)|)
    ensures Typed(plain, a, |Encoded(fields)|) == if a <= |fields| then Join(fields[a..]) else []
    decreases |fields|
  {
    hide Nuls, Typed, Encoded, Join;
    if fields == [] {
      NoFields(plain, a);
    } else {
      var first, last := fields[..|fields| - 1], fields[|fields| - 1];
      LastField(plain, fields);
      TypesFields(plain, first, a);
      WholeField(plain, a, |Encoded(first)|, last);
      JoinLast(fields, a);
    }
  }

  /** Beyond 256 bytes it is no longer so: the last NUL is not among the bytes seen before they
      repeat, so playback goes on from the start of the record, or never ends. */
  lemma {:induction false} LongRecordRepeats(plain: seq<bv8>, fields: seq<seq<bv8>>, e: nat)
    requires |plain| == 256 && GoodFields(fields) && |Encoded(fields)| > 256
    requires plain == Encoded(fields)[..256]
    ensures Nuls(plain, 256) < |fields|
    ensures EndsAt(plain, |fields|, e) ==> e > 256
    decreases |fields|
  {
    var n := |fields| - 1;
    var first, last := fields[..n], fields[n];
    var q := |Encoded(first)|;
    assert Encoded(fields) == Encoded(first) + (last + [0]);
    if q > 256 {
      assert plain == Encoded(first)[..256];
      LongRecordRepeats(plain, first, e);
    } else {
      FirstFields(plain, first, last);
    }
    EndsLater(plain, |fields|, e);
  }

  lemma FirstFields(plain: seq<bv8>, first: seq<seq<bv8>>, last: seq<bv8>)
    requires |plain| == 256 && GoodFields(first) && 0 !in last
    requires |Encoded(first)| <= 256 <= |Encoded(first)| + |last|
    requires plain == (Encoded(first) + (last + [0]))[..256]
    ensures Nuls(plain, 256) == |first|
  {
    hide Nuls, Typed, Encoded;
    var q := |Encoded(first)|;
    var part := last[..256 - q];
    CutAt(plain, Encoded(first), last);
    TypesFields(plain, first, 0);
    EndMeans(plain, |first|, q);
    InField(plain, 0, q, part, |part|);
  }

  lemma CutAt(plain: seq<bv8>, x: seq<bv8>, y: seq<bv8>)
    requires |plain| == 256 && |x| <= 256 <= |x| + |y| && plain == (x + (y + [0]))[..256]
    ensures plain[..|x|] == x && plain[|x|..256] == y[..256 - |x|]
  {
  }

  lemma EndMeans(plain: seq<bv8>, b: nat, e: nat)
    requires |plain| == 256 && EndsAt(plain, b, e)
    ensures Nuls(plain, e) == b
  {
  }

  lemma EndsLater(plain: seq<bv8>, b: nat, e: nat)
    requires |plain| == 256 && Nuls(plain, 256) < b
    ensures EndsAt(plain, b, e) ==> e > 256
  {
    if e <= 256 {
      NulsGrow(plain, e, 256);
    }
  }

  // ---------------------------------------------------------------- blocks

  /** How many characters of a block, from `at` on, come before a NUL or its end. */
  function TextLength(block: seq<bv8>, at: nat): (n: nat)
    requires at <= |block|
    ensures at + n <= |block| && (at + n < |block| ==> block[at + n] == 0)
    ensures forall k :: at <= k < at + n ==> block[k] != 0
    decreases |block| - at
  {
    if at == |block| || block[at] == 0 then 0 else 1 + TextLength(block, at + 1)
  }

  /** Where playback is after the text at q and the NUL behind it, if the block holds one. */
  function AfterText(block: seq<bv8>, q: nat): (r: nat)
    requires |block| == 16
    ensures q < r <= q - q % 16 + 16
  {
    var n := TextLength(block, q % 16);
    q + n + if n < 16 - q % 16 then 1 else 0
  }

  /** Where the block begins that holds byte q as playback sees it. */
  function BlockStart(q: nat): (s: nat)
    ensures s + 16 <= 256 && s + q % 16 == q % 256
  {
    BlockArithmetic(q);
    q % 256 - q % 16
  }

  lemma BlockArithmetic(q: nat)
    ensures q % 256 % 16 == q % 16 && q % 16 <= q % 256 && q % 256 - q % 16 <= 240
  {
    assert q == 16 * (16 * (q / 256)) + q % 256;
    assert q % 256 == 16 * (q % 256 / 16) + q % 256 % 16;
  }

  predicate HoldsBlock(plain: seq<bv8>, q: nat, block: seq<bv8>)
    requires |plain| == 256
  {
    block == plain[BlockStart(q)..BlockStart(q) + 16]
  }

  lemma SeenInBlock(plain: seq<bv8>, q: nat, block: seq<bv8>, k: nat)
    requires |plain| == 256 && |block| == 16 && q % 16 + k < 16 && HoldsBlock(plain, q, block)
    ensures Seen(plain, q + k) == block[q % 16 + k]
  {
    var s := BlockStart(q);
    InBlock(q, k);
    assert plain[s..s + 16][q % 16 + k] == plain[s + (q % 16 + k)];
  }

  lemma InBlock(q: nat, k: nat)
    requires q % 16 + k < 16
    ensures (q + k) % 256 == BlockStart(q) + (q % 16 + k)
  {
    hide BlockStart;
    assert q == 256 * (q / 256) + q % 256;
    assert q + k == 256 * (q / 256) + (q % 256 + k);
  }

  /** One call of CRD_apply: it types the rest of a field that the block holds. */
  lemma TypesText(plain: seq<bv8>, a: nat, q: nat, block: seq<bv8>)
    requires |plain| == 256 && |block| == 16 && HoldsBlock(plain, q, block)
    ensures var at, n, r := q % 16, TextLength(block, q % 16), AfterText(block, q);
      && Nuls(plain, r - 1) == Nuls(plain, q)
      && Nuls(plain, r) == Nuls(plain, q) + (if n < 16 - at then 1 else 0)
      && Typed(plain, a, r) == Typed(plain, a, q) + (if Nuls(plain, q) >= a then block[at..at + n] else [])
  {
    hide Nuls, Typed, Seen, HoldsBlock;
    var at, n := q % 16, TextLength(block, q % 16);
    var text := block[at..at + n];
    forall k | 0 <= k < n
      ensures Seen(plain, q + k) == text[k]
    {
      SeenInBlock(plain, q, block, k);
    }
    InRun(plain, a, q, text, n);
    assert text[..n] == text;
    if n < 16 - at {
      SeenInBlock(plain, q, block, n);
      OneMore(plain, a, q + n, 0);
    } else {
      InRun(plain, a, q, text, n - 1);
    }
  }

  // ---------------------------------------------------------------- NULs typed

  /** CRD_apply is called at byte i: where a block begins, and behind a NUL. */
  predicate StartsCall(plain: seq<bv8>, i: nat)
    requires |plain| == 256
  {
    i % 16 == 0 || (i > 0 && Seen(plain, i - 1) == 0)
  }

  /** That call has no text to type: a field to skip, or nothing before the next NUL. It queues
      a NUL instead. */
  predicate Blank(plain: seq<bv8>, a: nat, i: nat)
    requires |plain| == 256
  {
    StartsCall(plain, i) && (Nuls(plain, i) < a || Seen(plain, i) == 0)
  }

  /** How many calls before byte q queue a NUL. */
  function Blanks(plain: seq<bv8>, a: nat, q: nat): (n: nat)
    requires |plain| == 256
    ensures n <= q
  {
    if q == 0 then 0 else Blanks(plain, a, q - 1) + if Blank(plain, a, q - 1) then 1 else 0
  }

  lemma {:induction false} NoBlanks(plain: seq<bv8>, a: nat, q: nat, r: nat)
    requires |plain| == 256 && q <= r
    requires forall i :: q <= i < r ==> !Blank(plain, a, i)
    ensures Blanks(plain, a, r) == Blanks(plain, a, q)
    decreases r
  {
    hide Blank;
    if q < r {
      NoBlanks(plain, a, q, r - 1);
    }
  }

  lemma InsideBlock(q: nat, i: nat)
    requires q < i < q - q % 16 + 16
    ensures i % 16 == q % 16 + (i - q)
  {
    assert i == 16 * (q / 16) + (q % 16 + (i - q));
  }

  /** One call of CRD_apply: it queues a NUL exactly if it has no text to type. */
  lemma BlanksText(plain: seq<bv8>, a: nat, q: nat, block: seq<bv8>)
    requires |plain| == 256 && |block| == 16 && HoldsBlock(plain, q, block) && StartsCall(plain, q)
    ensures var at, n, r := q % 16, TextLength(block, q % 16), AfterText(block, q);
      && Blanks(plain, a, r) == Blanks(plain, a, q) + (if Nuls(plain, q) >= a && n != 0 then 0 else 1)
      && StartsCall(plain, r)
  {
    hide Nuls, Blanks, HoldsBlock, Seen;
    var at, n, r := q % 16, TextLength(block, q % 16), AfterText(block, q);
    SeenInBlock(plain, q, block, 0);
    forall i | q < i < r
      ensures !Blank(plain, a, i)
    {
      InsideBlock(q, i);
      SeenInBlock(plain, q, block, i - 1 - q);
    }
    NoBlanks(plain, a, q + 1, r);
    BlanksNext(plain, a, q);
    if n < 16 - at {
      SeenInBlock(plain, q, block, n);
    } else {
      BlockEnds(q);
    }
  }

  lemma BlanksNext(plain: seq<bv8>, a: nat, q: nat)
    requires |plain| == 256
    ensures Blanks(plain, a, q + 1) == Blanks(plain, a, q) + if Blank(plain, a, q) then 1 else 0
  {
  }

  lemma BlockEnds(q: nat)
    ensures (q + (16 - q % 16)) % 16 == 0
  {
    assert q + (16 - q % 16) == 16 * (q / 16 + 1);
  }

  /** Every field has characters and none ends at the end of a block. */
  predicate Snug(fields: seq<seq<bv8>>) {
    forall j :: 0 <= j < |fields| ==> SnugAt(fields, j)
  }

  predicate SnugAt(fields: seq<seq<bv8>>, j: nat)
    requires j < |fields|
  {
    fields[j] != [] && |Encoded(fields[..j + 1])| % 16 != 1
  }

  /** No NUL is typed if and only if nothing is skipped and the fields are snug. */
  lemma {:induction false} NoBlankFields(plain: seq<bv8>, fields: seq<seq<bv8>>, a: nat)
    requires |plain| == 256 && GoodFields(fields) && |Encoded(fields)| <= 256
    requires plain[..|Encoded(fields)|] == Encoded(fields)
    ensures fields != [] ==> (Blanks(plain, a, |Encoded(fields)|) == 0 <==> a == 0 && Snug(fields))
    decreases |fields|
  {
    hide Nuls, Blanks, Encoded, Seen;
    if fields != [] {
      var n := |fields| - 1;
      var first, last := fields[..n], fields[n];
      LastField(plain, fields);
      var q := |Encoded(first)|;
      NoBlankFields(plain, first, a);
      SnugLast(fields);
      if a > 0 {
        FirstBlank(plain, a, |Encoded(fields)|);
      } else {
        if first == [] {
          NothingBefore(plain);
        }
        BehindNul(plain, first);
        FieldBlanks(plain, q, last);
      }
    }
  }

  lemma NothingBefore(plain: seq<bv8>)
    requires |plain| == 256
    ensures |Encoded([])| == 0 && Blanks(plain, 0, 0) == 0 && Snug([])
  {
  }

  lemma SnugLast(fields: seq<seq<bv8>>)
    requires fields != []
    ensures var n := |fields| - 1;
      Snug(fields) <==> Snug(fields[..n]) && fields[n] != [] && |Encoded(fields)| % 16 != 1
  {
    hide SnugAt;
    var n := |fields| - 1;
    var first := fields[..n];
    SnugAtLast(fields);
    forall j | 0 <= j < n
      ensures SnugAt(first, j) == SnugAt(fields, j)
    {
      SnugAtSame(fields, n, j);
    }
  }

  lemma SnugAtLast(fields: seq<seq<bv8>>)
    requires fields != []
    ensures var n := |fields| - 1;
      SnugAt(fields, n) <==> fields[n] != [] && |Encoded(fields)| % 16 != 1
  {
    assert fields[..|fields| - 1 + 1] == fields;
  }

  lemma SnugAtSame(fields: seq<seq<bv8>>, n: nat, j: nat)
    requires j < n <= |fields|
    ensures SnugAt(fields[..n], j) == SnugAt(fields, j)
  {
    assert fields[..n][..j + 1] == fields[..j + 1];
  }

  lemma {:induction false} FirstBlank(plain: seq<bv8>, a: nat, q: nat)
    requires |plain| == 256 && a > 0 && q > 0
    ensures Blanks(plain, a, q) >= 1
  {
    if q > 1 {
      FirstBlank(plain, a, q - 1);
    } else {
      assert Blank(plain, a, 0);
    }
  }

  /** A field starts with a call, and behind a NUL if it is not the first. */
  lemma BehindNul(plain: seq<bv8>, first: seq<seq<bv8>>)
    requires |plain| == 256 && |Encoded(first)| < 256 && plain[..|Encoded(first)|] == Encoded(first)
    ensures StartsCall(plain, |Encoded(first)|)
  {
    var q := |Encoded(first)|;
    if first != [] {
      assert plain[..q][q - 1] == 0;
    }
  }

  /** In a field that is typed, only its NUL can be blank: if it starts a call. */
  lemma FieldBlanks(plain: seq<bv8>, q: nat, field: seq<bv8>)
    requires |plain| == 256 && 0 !in field && q + |field| + 1 <= 256
    requires plain[q..q + |field| + 1] == field + [0] && StartsCall(plain, q)
    ensures Blanks(plain, 0, q + |field| + 1)
         == Blanks(plain, 0, q) + if field == [] || (q + |field|) % 16 == 0 then 1 else 0
  {
    hide Blanks, Nuls, Seen;
    var e := q + |field|;
    FieldSeen(plain, q, field);
    NoBlanks(plain, 0, q, e);
    BlanksNext(plain, 0, e);
  }

  lemma FieldSeen(plain: seq<bv8>, q: nat, field: seq<bv8>)
    requires |plain| == 256 && 0 !in field && q + |field| + 1 <= 256
    requires plain[q..q + |field| + 1] == field + [0]
    ensures forall i :: q <= i < q + |field| ==> Seen(plain, i) != 0
    ensures Seen(plain, q + |field|) == 0
  {
    var e := q + |field|;
    var run := plain[q..e + 1];
    assert plain[e] == run[|field|];
    forall i | q <= i < e
      ensures Seen(plain, i) != 0
    {
      assert plain[i] == run[i - q] == field[i - q];
    }
  }
}
