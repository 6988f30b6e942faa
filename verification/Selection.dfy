/** Choosing a credential. The store is a list of records linked by offsets: a name ended by
    NUL, the offset of the next record, and the encrypted fields. Going forward follows one
    link; going back follows links until one leads to the record where it began. */
module Selection {
  import opened Avr
  import opened Flash

  // ---------------------------------------------------------------- records

  predicate NulAt(cells: seq<bv8>, a: nat, k: nat)
    requires 0 < |cells| <= 0x1_0000
  {
    CellAt(cells, a + k) == 0
  }

  /** How many bytes from address a on come before a NUL, the first n being known not to. */
  function NameLength(cells: seq<bv8>, a: nat, n: nat): (r: nat)
    requires 0 < |cells| <= 0x1_0000 && n <= 0x1_0000
    ensures n <= r <= 0x1_0000
    ensures forall k :: n <= k < r ==> !NulAt(cells, a, k)
    ensures r < 0x1_0000 ==> NulAt(cells, a, r)
    decreases 0x1_0000 - n
  {
    if n == 0x1_0000 || NulAt(cells, a, n) then n else NameLength(cells, a, n + 1)
  }

  /** Somewhere in the memory there is a NUL. */
  ghost predicate HasNul(cells: seq<bv8>) {
    0 < |cells| <= 0x1_0000 && 0 in cells
  }

  lemma NulFound(cells: seq<bv8>, a: nat)
    requires HasNul(cells)
    ensures NameLength(cells, a, 0) < 0x1_0000
  {
    var j :| 0 <= j < |cells| && cells[j] == 0;
    var k := (j + 0x1_0000 - a % 0x1_0000) % 0x1_0000;
    ReachesCell(cells, a, j, k);
    assert NulAt(cells, a, k);
  }

  /** Sixteen-bit addresses reach every cell from everywhere. */
  lemma ReachesCell(cells: seq<bv8>, a: nat, j: nat, k: nat)
    requires 0 < |cells| <= 0x1_0000 && j < |cells| && k == (j + 0x1_0000 - a % 0x1_0000) % 0x1_0000
    ensures CellAt(cells, a + k) == cells[j]
  {
    var q := a / 0x1_0000;
    assert a == 0x1_0000 * q + a % 0x1_0000;
    assert (a + k) % 0x1_0000 == j;
  }

  /** The address behind the name at a. */
  function EndOfName(cells: seq<bv8>, a: nat): (r: nat)
    requires 0 < |cells| <= 0x1_0000
    ensures r < 0x1_0000
  {
    Wrap(a + NameLength(cells, a, 0) + 1)
  }

  /** The link of the record at offset c. */
  function NextOf(cells: seq<bv8>, base: nat, c: nat): (r: nat)
    requires 0 < |cells| <= 0x1_0000
    ensures r < 0x1_0000
  {
    var e := EndOfName(cells, Wrap(c + base));
    Value(CellAt(cells, e)) + 256 * Value(CellAt(cells, e + 1))
  }

  /** A name, a NUL, and a link, low byte first, at offset c. */
  predicate HoldsRecord(cells: seq<bv8>, base: nat, c: nat, text: seq<bv8>, link: nat) {
    var a, n := base + c, |text|;
    && a + n + 3 <= |cells| <= 0x1_0000 && link < 0x1_0000
    && cells[a..a + n] == text && 0 !in text && cells[a + n] == 0
    && cells[a + n + 1] as nat == link % 256 && cells[a + n + 2] as nat == link / 256
  }

  lemma RecordParts(cells: seq<bv8>, base: nat, c: nat, text: seq<bv8>, link: nat)
    requires HoldsRecord(cells, base, c, text, link)
    ensures var a, n := base + c, |text|;
      && a + n + 3 <= |cells| <= 0x1_0000 && cells[a..a + n] == text && 0 !in text && cells[a + n] == 0
      && Value(cells[a + n + 1]) + 256 * Value(cells[a + n + 2]) == link
  {
  }

  lemma {:induction false} NameIs(cells: seq<bv8>, a: nat, text: seq<bv8>, n: nat)
    requires n <= |text| && a + |text| < |cells| <= 0x1_0000
    requires cells[a..a + |text|] == text && 0 !in text && cells[a + |text|] == 0
    ensures NameLength(cells, a, n) == |text|
    decreases |text| - n
  {
    hide CellAt;
    if n < |text| {
      assert cells[a + n] == text[n];
      NameIs(cells, a, text, n + 1);
    }
  }

  /** The record there has this link, and its fields follow. */
  lemma RecordMeans(cells: seq<bv8>, base: nat, c: nat, text: seq<bv8>, link: nat)
    requires HoldsRecord(cells, base, c, text, link)
    ensures Wrap(c + base) == base + c && EndOfName(cells, base + c) == base + c + |text| + 1
    ensures NextOf(cells, base, c) == link
  {
    hide HoldsRecord, NameLength, CellAt, Value;
    RecordParts(cells, base, c, text, link);
    NameIs(cells, base + c, text, 0);
  }

  /** n links from c. */
  function Walk(cells: seq<bv8>, base: nat, c: nat, n: nat): nat
    requires 0 < |cells| <= 0x1_0000
  {
    if n == 0 then c else NextOf(cells, base, Walk(cells, base, c, n - 1))
  }

  lemma {:induction false} WalkAdd(cells: seq<bv8>, base: nat, c: nat, m: nat, n: nat)
    requires 0 < |cells| <= 0x1_0000
    ensures Walk(cells, base, c, m + n) == Walk(cells, base, Walk(cells, base, c, m), n)
  {
    hide NextOf;
    if n > 0 {
      WalkAdd(cells, base, c, m, n - 1);
    }
  }

  /** The ring through c: the least number of links that lead back to it. */
  ghost predicate IsPeriod(cells: seq<bv8>, base: nat, c: nat, p: nat)
    requires 0 < |cells| <= 0x1_0000
  {
    && p > 0 && Walk(cells, base, c, p) == c
    && forall k :: 0 < k < p ==> Walk(cells, base, c, k) != c
  }

  ghost predicate OnRing(cells: seq<bv8>, base: nat, c: nat)
    requires 0 < |cells| <= 0x1_0000
  {
    exists n: nat :: n > 0 && Walk(cells, base, c, n) == c
  }

  lemma PeriodOf(cells: seq<bv8>, base: nat, c: nat) returns (p: nat)
    requires 0 < |cells| <= 0x1_0000 && OnRing(cells, base, c)
    ensures IsPeriod(cells, base, c, p)
  {
    hide NextOf;
    var n: nat :| n > 0 && Walk(cells, base, c, n) == c;
    p := 1;
    while Walk(cells, base, c, p) != c
      invariant 0 < p <= n
      invariant forall k :: 0 < k < p ==> Walk(cells, base, c, k) != c
      decreases n - p
    {
      p := p + 1;
    }
  }

  /** What crd_previous selects. It never loads the record it began with, so with that record
      linked to itself it falls back on the record at offset 0. */
  function Previous(cells: seq<bv8>, base: nat, c: nat, p: nat): nat
    requires 0 < |cells| <= 0x1_0000 && p > 0
  {
    if p == 1 then 0 else Walk(cells, base, c, p - 1)
  }

  /** The store holds these records, each linked to the next one, and the last one to the first. */
  predicate HoldsRing(cells: seq<bv8>, base: nat, offsets: seq<nat>, names: seq<seq<bv8>>) {
    && |offsets| == |names| > 0
    && (forall i, j :: 0 <= i < j < |offsets| ==> offsets[i] != offsets[j])
    && forall i :: 0 <= i < |offsets| ==>
         HoldsRecord(cells, base, offsets[i], names[i], NextInRing(offsets, i))
  }

  function NextInRing(offsets: seq<nat>, i: nat): nat
    requires i < |offsets|
  {
    if i + 1 < |offsets| then offsets[i + 1] else offsets[0]
  }

  lemma RingLink(cells: seq<bv8>, base: nat, offsets: seq<nat>, names: seq<seq<bv8>>, i: nat)
    requires HoldsRing(cells, base, offsets, names) && i < |offsets|
    ensures 0 < |cells| <= 0x1_0000
    ensures NextOf(cells, base, offsets[i]) == if i + 1 < |offsets| then offsets[i + 1] else offsets[0]
  {
    hide HoldsRecord, NextOf;
    var link := NextInRing(offsets, i);
    RecordParts(cells, base, offsets[i], names[i], link);
    RecordMeans(cells, base, offsets[i], names[i], link);
  }

  lemma {:induction false} RingWalk(cells: seq<bv8>, base: nat, offsets: seq<nat>, names: seq<seq<bv8>>,
                                    i: nat, k: nat)
    requires 0 < |cells| <= 0x1_0000 && HoldsRing(cells, base, offsets, names) && i < |offsets| && k <= |offsets|
    ensures Walk(cells, base, offsets[i], k)
         == offsets[if i + k < |offsets| then i + k else i + k - |offsets|]
  {
    hide HoldsRing, NextOf;
    if k > 0 {
      RingWalk(cells, base, offsets, names, i, k - 1);
      var j := if i + (k - 1) < |offsets| then i + (k - 1) else i + (k - 1) - |offsets|;
      RingLink(cells, base, offsets, names, j);
    }
  }

  lemma RingReturns(cells: seq<bv8>, base: nat, offsets: seq<nat>, names: seq<seq<bv8>>, i: nat, k: nat)
    requires 0 < |cells| <= 0x1_0000 && HoldsRing(cells, base, offsets, names) && i < |offsets|
    requires 0 < k <= |offsets|
    ensures Walk(cells, base, offsets[i], k) == offsets[i] <==> k == |offsets|
  {
    hide HoldsRecord, Walk, NextInRing;
    RingWalk(cells, base, offsets, names, i, k);
    var j := if i + k < |offsets| then i + k else i + k - |offsets|;
    assert j < i || i < j || k == |offsets|;
  }

  /** Such a ring has as many links as records, and going back leads to the record before. */
  lemma RingIsPeriod(cells: seq<bv8>, base: nat, offsets: seq<nat>, names: seq<seq<bv8>>, i: nat)
    requires 0 < |cells| <= 0x1_0000 && HoldsRing(cells, base, offsets, names) && i < |offsets|
    ensures IsPeriod(cells, base, offsets[i], |offsets|)
    ensures |offsets| > 1 ==>
      Previous(cells, base, offsets[i], |offsets|) == offsets[if i > 0 then i - 1 else |offsets| - 1]
  {
    hide HoldsRing, Walk, NextOf;
    forall k | 0 < k <= |offsets|
      ensures Walk(cells, base, offsets[i], k) == offsets[i] <==> k == |offsets|
    {
      RingReturns(cells, base, offsets, names, i, k);
    }
    if |offsets| > 1 {
      RingWalk(cells, base, offsets, names, i, |offsets| - 1);
    }
  }

  /** The link to c in its ring comes from exactly one record. */
  lemma {:induction false} OnePredecessor(cells: seq<bv8>, base: nat, c: nat, p: nat, j: nat)
    requires 0 < |cells| <= 0x1_0000 && IsPeriod(cells, base, c, p)
    requires NextOf(cells, base, Walk(cells, base, c, j)) == c
    ensures Walk(cells, base, c, j) == Walk(cells, base, c, p - 1)
    decreases j
  {
    hide NextOf;
    assert Walk(cells, base, c, j + 1) == c;
    if j >= p {
      WalkAdd(cells, base, c, p, j - p);
      OnePredecessor(cells, base, c, p, j - p);
    }
  }

  /** The predecessor lies on the ring and links to c, unless c is a lone record elsewhere
      than at offset 0. */
  lemma PreviousLinks(cells: seq<bv8>, base: nat, c: nat, p: nat)
    requires 0 < |cells| <= 0x1_0000 && IsPeriod(cells, base, c, p)
    ensures p > 1 || c == 0 ==> NextOf(cells, base, Previous(cells, base, c, p)) == c
    ensures p > 1 || c == 0 ==> Previous(cells, base, c, p) == Walk(cells, base, c, p - 1)
    ensures p == 1 ==> NextOf(cells, base, c) == c
  {
    hide NextOf;
    assert Walk(cells, base, c, p) == NextOf(cells, base, Walk(cells, base, c, p - 1));
  }

  /** A ring through offset 0 is never of that kind. */
  lemma RingWithZero(cells: seq<bv8>, base: nat, c: nat, p: nat, k: nat)
    requires 0 < |cells| <= 0x1_0000 && IsPeriod(cells, base, c, p) && Walk(cells, base, c, k) == 0
    ensures p > 1 || c == 0
  {
    if p == 1 {
      LoneRecord(cells, base, c, k);
    }
  }

  lemma {:induction false} LoneRecord(cells: seq<bv8>, base: nat, c: nat, k: nat)
    requires 0 < |cells| <= 0x1_0000 && Walk(cells, base, c, 1) == c
    ensures Walk(cells, base, c, k) == c
  {
    hide NextOf;
    if k > 0 {
      LoneRecord(cells, base, c, k - 1);
      assert Walk(cells, base, c, 0) == c;
    }
  }

  /** The next record is on the same ring, as far round. */
  lemma NextOnRing(cells: seq<bv8>, base: nat, c: nat, p: nat)
    requires 0 < |cells| <= 0x1_0000 && IsPeriod(cells, base, c, p)
    ensures var d := NextOf(cells, base, c);
      OnRing(cells, base, d) && Walk(cells, base, d, p - 1) == c
  {
    hide NextOf;
    var d := NextOf(cells, base, c);
    assert Walk(cells, base, c, 0) == c;
    assert Walk(cells, base, c, 1) == d;
    WalkAdd(cells, base, c, 1, p - 1);
    WalkAdd(cells, base, c, 1, p);
    WalkAdd(cells, base, c, p, 1);
    assert Walk(cells, base, d, p) == d;
  }

  /** Going back from the next record returns to c, with the same exception. */
  lemma PreviousOfNext(cells: seq<bv8>, base: nat, c: nat, p: nat, p': nat)
    requires 0 < |cells| <= 0x1_0000 && IsPeriod(cells, base, c, p)
    requires IsPeriod(cells, base, NextOf(cells, base, c), p')
    ensures Previous(cells, base, NextOf(cells, base, c), p') == if p > 1 || c == 0 then c else 0
  {
    hide NextOf, IsPeriod;
    var d := NextOf(cells, base, c);
    PeriodMeans(cells, base, c, p);
    PeriodMeans(cells, base, d, p');
    NextOnRing(cells, base, c, p);
    OnePredecessor(cells, base, d, p', p - 1);
    if p' == 1 {
      LoneRecord(cells, base, d, p - 1);
      assert Walk(cells, base, c, 0) == c;
      assert Walk(cells, base, c, 1) == c;
    } else {
      assert Walk(cells, base, c, 0) == c;
      assert p == 1 ==> d == c;
    }
  }

  lemma PeriodMeans(cells: seq<bv8>, base: nat, c: nat, p: nat)
    requires 0 < |cells| <= 0x1_0000 && IsPeriod(cells, base, c, p)
    ensures p > 0 && Walk(cells, base, c, p) == c
    ensures forall k :: 0 < k < p ==> Walk(cells, base, c, k) != c
  {
  }

  // ---------------------------------------------------------------- crd.c

  class Selector {
    const flash: Memory
    const base: nat           // address of the credential store
    var name: nat             // the current credential's name,
    var next: nat             // the offset of the one after it,
    var encrypt: nat          // and its encrypted fields

    ghost predicate Valid()
      reads flash.cells, flash.buffer
    {
      flash.Valid() && base < 0x1_0000 && HasNul(flash.cells[..])
    }

    /** The current credential is the one at offset c. */
    ghost predicate Current(c: nat)
      requires 0 < flash.cells.Length <= 0x1_0000
      reads this, flash.cells
    {
      && c < 0x1_0000 && name == Wrap(c + base) && next == NextOf(flash.cells[..], base, c)
      && encrypt == Wrap(EndOfName(flash.cells[..], name) + 2)
    }

    constructor (flash: Memory, base: nat)
      requires flash.Valid() && base < 0x1_0000 && HasNul(flash.cells[..])
      ensures Valid() && this.flash == flash && this.base == base
    {
      this.flash, this.base := flash, base;
      name, next, encrypt := 0, 0, 0;
    }

    /** The address behind the next NUL. */
    method CrdFindEos(offset: nat) returns (off: nat)
      requires Valid() && offset < 0x1_0000
      ensures off == EndOfName(flash.cells[..], offset)
    {
      hide CellAt, NameLength, HasNul;
      ghost var cells, n := flash.cells[..], 0;
      NulFound(cells, offset);
      off := offset;
      while CellAt(flash.cells[..], off) != 0
        invariant off == Wrap(offset + n) && n <= NameLength(cells, offset, 0) < 0x1_0000
        decreases NameLength(cells, offset, 0) - n
      {
        NotYet(cells, offset, n);
        off := Wrap(off + 1);
        n := n + 1;
      }
      NotYet(cells, offset, n);
      off := Wrap(off + 1);
    }

    static lemma NotYet(cells: seq<bv8>, a: nat, n: nat)
      requires 0 < |cells| <= 0x1_0000 && n <= NameLength(cells, a, 0) < 0x1_0000
      ensures CellAt(cells, Wrap(a + n)) == 0 <==> n == NameLength(cells, a, 0)
      ensures Wrap(Wrap(a + n) + 1) == Wrap(a + n + 1)
    {
      hide NameLength, CellAt, Wrap;
      assert n < NameLength(cells, a, 0) ==> !NulAt(cells, a, n);
      WrapTwice(a + n);
      SameCell(cells, a + n);
    }

    static lemma WrapTwice(x: nat)
      ensures Wrap(Wrap(x) + 1) == Wrap(x + 1)
    {
      assert x == 0x1_0000 * (x / 0x1_0000) + Wrap(x);
      assert x + 1 == 0x1_0000 * (x / 0x1_0000) + (Wrap(x) + 1);
    }

    static lemma SameCell(cells: seq<bv8>, x: nat)
      requires 0 < |cells| <= 0x1_0000
      ensures CellAt(cells, Wrap(x)) == CellAt(cells, x)
    {
      hide Repeat;
      assert Wrap(Wrap(x)) == Wrap(x);
    }

    method CrdLoadCredential(cred: nat)
      requires Valid() && cred < 0x1_0000
      modifies this
      ensures Current(cred)
    {
      hide CellAt, EndOfName, HasNul;
      var offset := Wrap(cred + base);
      name := offset;
      offset := CrdFindEos(offset);
      next := Value(CellAt(flash.cells[..], offset)) + 256 * Value(CellAt(flash.cells[..], offset + 1));
      encrypt := Wrap(offset + 2);
    }

    method CrdNext(ghost c: nat)
      requires Valid() && Current(c)
      modifies this
      ensures Current(NextOf(flash.cells[..], base, c))
    {
      hide NextOf, EndOfName, HasNul;
      CrdLoadCredential(next);
    }

    /** The search for the predecessor ends because the way round the ring gets shorter. */
    method CrdPrevious(ghost c: nat, ghost p: nat)
      requires Valid() && Current(c) && IsPeriod(flash.cells[..], base, c, p)
      modifies this
      ensures Current(Previous(flash.cells[..], base, c, p))
    {
      hide NextOf, EndOfName, HasNul, IsPeriod;
      ghost var cells, k := flash.cells[..], 0;
      PeriodMeans(cells, base, c, p);
      var currentcred := Wrap(name + 0x1_0000 - base);
      SameOffset(c, base);
      var lastcred := 0;
      while next != currentcred
        invariant k < p && Current(Walk(cells, base, c, k)) && currentcred == c
        invariant lastcred == if k == 0 then 0 else Walk(cells, base, c, k)
        decreases p - k
      {
        lastcred := next;
        k := k + 1;
        CrdLoadCredential(next);
      }
      assert Walk(cells, base, c, k + 1) == c;
      CrdLoadCredential(lastcred);
    }

    /** A record that the store holds at an offset is what is loaded from there. */
    method LoadRecord(cred: nat, ghost text: seq<bv8>, ghost link: nat)
      requires Valid() && base + cred + |text| + 3 <= flash.cells.Length && link < 0x1_0000
      requires 0 !in text && flash.cells[base + cred..base + cred + |text|] == text
      requires flash.cells[base + cred + |text|] == 0
      requires flash.cells[base + cred + |text| + 1] as nat == link % 256
      requires flash.cells[base + cred + |text| + 2] as nat == link / 256
      modifies this
      ensures Current(cred)
      ensures name == base + cred && next == link && encrypt == Wrap(base + cred + |text| + 3)
    {
      hide NextOf, EndOfName, HasNul, Wrap;
      assert flash.cells[..][base + cred..base + cred + |text|] == flash.cells[base + cred..base + cred + |text|];
      RecordMeans(flash.cells[..], base, cred, text, link);
      CrdLoadCredential(cred);
    }

    /** From record i of a ring in the store, forward to the next one and back to the one before. */
    method NextRecord(ghost offsets: seq<nat>, ghost names: seq<seq<bv8>>, ghost i: nat)
      requires Valid() && HoldsRing(flash.cells[..], base, offsets, names) && i < |offsets| && Current(offsets[i])
      modifies this
      ensures Current(offsets[if i + 1 < |offsets| then i + 1 else 0])
    {
      hide HoldsRing, NextOf, EndOfName, HasNul, Wrap;
      RingLink(flash.cells[..], base, offsets, names, i);
      CrdNext(offsets[i]);
    }

    method PreviousRecord(ghost offsets: seq<nat>, ghost names: seq<seq<bv8>>, ghost i: nat)
      requires Valid() && HoldsRing(flash.cells[..], base, offsets, names) && i < |offsets| && Current(offsets[i])
      modifies this
      ensures |offsets| > 1 ==> Current(offsets[if i > 0 then i - 1 else |offsets| - 1])
      ensures |offsets| == 1 ==> Current(0)
    {
      hide HoldsRing, NextOf, EndOfName, HasNul, Wrap, IsPeriod;
      RingIsPeriod(flash.cells[..], base, offsets, names, i);
      CrdPrevious(offsets[i], |offsets|);
    }

    static lemma SameOffset(c: nat, base: nat)
      requires c < 0x1_0000 && base < 0x1_0000
      ensures Wrap(Wrap(c + base) + 0x1_0000 - base) == c
    {
    }

    /** Forward and back, on a ring through offset 0. */
    method NextThenPrevious(ghost c: nat, ghost p: nat, ghost zero: nat)
      requires Valid() && Current(c) && IsPeriod(flash.cells[..], base, c, p)
      requires Walk(flash.cells[..], base, c, zero) == 0
      modifies this
      ensures Current(c)
    {
      hide NextOf, EndOfName, HasNul, IsPeriod, OnRing;
      ghost var cells := flash.cells[..];
      CrdNext(c);
      NextOnRing(cells, base, c, p);
      ghost var p' := PeriodOf(cells, base, NextOf(cells, base, c));
      CrdPrevious(NextOf(cells, base, c), p');
      RingWithZero(cells, base, c, p, zero);
      PreviousOfNext(cells, base, c, p, p');
    }

    /** Back and forward. */
    method PreviousThenNext(ghost c: nat, ghost p: nat, ghost zero: nat)
      requires Valid() && Current(c) && IsPeriod(flash.cells[..], base, c, p)
      requires Walk(flash.cells[..], base, c, zero) == 0
      modifies this
      ensures Current(c)
    {
      hide NextOf, EndOfName, HasNul, IsPeriod;
      CrdPrevious(c, p);
      RingWithZero(flash.cells[..], base, c, p, zero);
      PreviousLinks(flash.cells[..], base, c, p);
      PeriodMeans(flash.cells[..], base, c, p);
      CrdNext(Previous(flash.cells[..], base, c, p));
    }
  }
}
