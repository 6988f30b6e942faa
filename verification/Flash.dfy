/** Self-programming of the flash memory: page erase, page buffer, page write, and the update
    of a byte range that need not be page aligned. Addresses are 16 bits; the memory repeats
    beyond its length. */
module Flash {

  const PAGE: nat := 64

  datatype Operation = Erase(page: nat) | Write(page: nat)

  /** The memory repeats beyond its length. */
  function Repeat(address: nat, length: nat): (r: nat)
    requires length > 0
    ensures r < length && (address < length ==> r == address)
  {
    address % length
  }

  /** Sixteen-bit addition. */
  function Wrap(n: nat): (r: nat)
    ensures r < 0x1_0000 && (n < 0x1_0000 ==> r == n)
  {
    n % 0x1_0000
  }

  /** A byte of a memory that repeats beyond its length, by a sixteen-bit address. */
  function CellAt(cells: seq<bv8>, address: nat): (b: bv8)
    requires 0 < |cells| <= 0x1_0000
    ensures address < |cells| ==> b == cells[address]
  {
    cells[Repeat(Wrap(address), |cells|)]
  }

  /** Eight bytes of a memory that repeats beyond its length. */
  function Chunk(cells: seq<bv8>, address: nat): (r: seq<bv8>)
    requires 0 < |cells| <= 0x1_0000
    ensures |r| == 8
    ensures forall i :: 0 <= i < 8 && address + i < |cells| ==> r[i] == cells[address + i]
  {
    var r := seq(8, i requires 0 <= i => CellAt(cells, address + i));
    assert forall i :: 0 <= i < 8 ==> r[i] == CellAt(cells, address + i);
    r
  }

  /** A range of memory replaced. */
  function Splice(memory: seq<bv8>, start: nat, bytes: seq<bv8>): (r: seq<bv8>)
    requires start + |bytes| <= |memory|
    ensures |r| == |memory|
  {
    memory[..start] + bytes + memory[start + |bytes|..]
  }

  /** The bytes where they belong, and every other one as it was. */
  lemma SpliceExactly(memory: seq<bv8>, start: nat, bytes: seq<bv8>, r: seq<bv8>)
    requires start + |bytes| <= |memory|
    ensures (r == Splice(memory, start, bytes) <==>
              && |r| == |memory|
              && (forall k :: 0 <= k < |bytes| ==> r[start + k] == bytes[k])
              && forall k :: 0 <= k < |memory| && !(start <= k < start + |bytes|) ==> r[k] == memory[k])
  {
    var s := Splice(memory, start, bytes);
    if |r| == |memory| && (forall k :: 0 <= k < |bytes| ==> r[start + k] == bytes[k])
       && forall k :: 0 <= k < |memory| && !(start <= k < start + |bytes|) ==> r[k] == memory[k] {
      forall k | 0 <= k < |memory|
        ensures r[k] == s[k]
      {
        if start <= k < start + |bytes| {
          assert r[start + (k - start)] == bytes[k - start];
        }
      }
    }
  }

  function PageOf(a: nat): (p: nat)
    ensures p <= a
  {
    a - a % PAGE
  }

  /** The part of [start, start + size) on its first page. */
  function FirstStep(start: nat, size: nat): (n: nat)
    ensures n <= size && (size > 0 ==> n > 0) && n <= PAGE
  {
    if size <= PAGE - start % PAGE then size else PAGE - start % PAGE
  }

  lemma FirstPage(start: nat, size: nat, a: nat)
    requires start <= a < start + FirstStep(start, size)
    ensures PageOf(a) == PageOf(start)
  {
  }

  lemma NextPage(start: nat, size: nat)
    requires FirstStep(start, size) < size
    ensures PageOf(start + FirstStep(start, size)) == PageOf(start) + PAGE
  {
  }

  /** The pages a range touches, in order. */
  function Pages(start: nat, size: nat): seq<nat>
    decreases size
  {
    if size == 0 then []
    else [PageOf(start)] + Pages(start + FirstStep(start, size), size - FirstStep(start, size))
  }

  /** Erase, then write, page by page. */
  function Cycles(pages: seq<nat>): seq<Operation> {
    if pages == [] then [] else [Erase(pages[0]), Write(pages[0])] + Cycles(pages[1..])
  }

  /** Every page of the range is listed, and listed once. */
  lemma {:induction false} PagesAreTouched(start: nat, size: nat, a: nat)
    requires start <= a < start + size
    ensures PageOf(a) in Pages(start, size)
    decreases size
  {
    hide PageOf, FirstStep;
    var n := FirstStep(start, size);
    if a < start + n {
      FirstPage(start, size, a);
    } else {
      PagesAreTouched(start + n, size - n, a);
    }
  }

  predicate Ascending(from: nat, pages: seq<nat>) {
    && (forall i :: 0 <= i < |pages| ==> from <= pages[i])
    && (forall i, j :: 0 <= i < j < |pages| ==> pages[i] < pages[j])
  }

  lemma AscendingCons(from: nat, next: nat, pages: seq<nat>)
    requires from < next && Ascending(next, pages)
    ensures Ascending(from, [from] + pages)
  {
    var p := [from] + pages;
    assert forall i :: 0 < i < |p| ==> p[i] == pages[i - 1];
  }

  lemma {:induction false} PagesInOrder(start: nat, size: nat)
    ensures Ascending(PageOf(start), Pages(start, size))
    decreases size
  {
    hide PageOf, FirstStep;
    var n := FirstStep(start, size);
    if 0 < n < size {
      NextPage(start, size);
      PagesInOrder(start + n, size - n);
      AscendingCons(PageOf(start), PageOf(start + n), Pages(start + n, size - n));
    } else if n > 0 {
      assert Pages(start + n, 0) == [];
    }
  }

  lemma PageFits(page: nat, length: nat)
    requires page % PAGE == 0 && length % PAGE == 0 && length > 0
    ensures page % length + PAGE <= length && (page % length) % PAGE == 0
    ensures page < length ==> page % length == page
  {
    Division(page, length);
    InUnits(page, length, page % length, page / length, page / PAGE, length / PAGE);
  }

  lemma Division(x: nat, y: nat)
    requires y > 0
    ensures x == (x / y) * y + x % y && x % y < y && (x < y ==> x % y == x)
  {
  }

  lemma InUnits(x: nat, y: nat, r: nat, q: nat, a: nat, b: nat)
    requires x == q * y + r && r < y && x == PAGE * a && y == PAGE * b
    ensures r + PAGE <= y && r % PAGE == 0
  {
    Multiple(q, b);
    Rounds(r, a - q * b, b);
  }

  lemma Multiple(q: nat, b: nat)
    ensures q * (PAGE * b) == PAGE * (q * b)
  {
  }

  lemma Rounds(r: nat, k: int, b: nat)
    requires r == PAGE * k && r < PAGE * b
    ensures r + PAGE <= PAGE * b && r % PAGE == 0
  {
    assert k < b;
  }

  class Memory {
    const cells: array<bv8>    // flash
    const buffer: array<bv8>   // temporary page buffer
    ghost var log: seq<Operation>

    ghost predicate Valid()
      reads buffer
    {
      && cells.Length > 0 && cells.Length % PAGE == 0 && cells.Length <= 0x1_0000
      && buffer.Length == PAGE && cells != buffer
      && forall k :: 0 <= k < PAGE ==> buffer[k] == 0xFF
    }

    /** boot_page_erase: all ones. */
    method ErasePage(byteaddr: nat)
      requires Valid() && byteaddr % PAGE == 0
      modifies cells, `log
      ensures Valid() && log == old(log) + [Erase(byteaddr)]
      ensures var page := byteaddr % cells.Length;
        && page + PAGE <= cells.Length
        && cells[..page] == old(cells[..page]) && cells[page + PAGE..] == old(cells[page + PAGE..])
        && forall k :: page <= k < page + PAGE ==> cells[k] == 0xFF
    {
      PageFits(byteaddr, cells.Length);
      var page := byteaddr % cells.Length;
      forall k | page <= k < page + PAGE {
        cells[k] := 0xFF;
      }
      log := log + [Erase(byteaddr)];
    }

    /** boot_page_write: programming can only clear bits, and the page buffer is used up. */
    method WritePage(byteaddr: nat)
      requires cells.Length > 0 && cells.Length % PAGE == 0 && cells.Length <= 0x1_0000
      requires buffer.Length == PAGE && cells != buffer && byteaddr % PAGE == 0
      modifies cells, buffer, `log
      ensures Valid() && log == old(log) + [Write(byteaddr)]
      ensures var page := byteaddr % cells.Length;
        && page + PAGE <= cells.Length
        && cells[..page] == old(cells[..page]) && cells[page + PAGE..] == old(cells[page + PAGE..])
        && forall k :: 0 <= k < PAGE ==> cells[page + k] == Programmed(old(cells[page + k]), old(buffer[k]))
    {
      hide Programmed;
      PageFits(byteaddr, cells.Length);
      ProgramCells(byteaddr % cells.Length);
      forall k | 0 <= k < PAGE {
        buffer[k] := 0xFF;
      }
      log := log + [Write(byteaddr)];
    }

    method ProgramCells(page: nat)
      requires page + PAGE <= cells.Length && buffer.Length == PAGE && cells != buffer
      modifies cells
      ensures cells[..page] == old(cells[..page]) && cells[page + PAGE..] == old(cells[page + PAGE..])
      ensures forall k :: 0 <= k < PAGE ==> cells[page + k] == Programmed(old(cells[page + k]), buffer[k])
    {
      hide Programmed;
      forall k | page <= k < page + PAGE {
        cells[k] := Programmed(cells[k], buffer[k - page]);
      }
    }

    /** Fill the page buffer a little-endian word at a time. A word of the buffer takes a value
        once; filling it again would only clear more bits. */
    method LoadPage(bytes: array<bv8>)
      requires Valid() && bytes.Length >= PAGE && bytes != buffer
      modifies buffer
      ensures buffer[..] == bytes[..PAGE]
    {
      hide Word, LowByte, HighByte, Programmed;
      var i := 0;
      while i < PAGE
        invariant i <= PAGE && i % 2 == 0
        invariant forall k :: 0 <= k < i ==> buffer[k] == bytes[k]
        invariant forall k :: i <= k < PAGE ==> buffer[k] == 0xFF
      {
        var w := Word(bytes[i], bytes[i + 1]);
        WordBytes(bytes[i], bytes[i + 1]);
        ProgramErased(bytes[i]);
        ProgramErased(bytes[i + 1]);
        buffer[i] := Programmed(buffer[i], LowByte(w));
        buffer[i + 1] := Programmed(buffer[i + 1], HighByte(w));
        i := i + 2;
      }
    }

    /** The merge loop; it does nothing when `to` does not exceed `from`. */
    static method Merge(page: array<bv8>, bytes: array<bv8>, p: nat, from: nat, to: nat)
      requires page.Length == PAGE && from <= PAGE && to <= PAGE && page != bytes
      requires p <= bytes.Length && (from < to ==> p + (to - from) <= bytes.Length)
      modifies page
      ensures page[..] == Splice(old(page[..]), from, if from < to then bytes[p..p + (to - from)] else [])
    {
      var j := from;
      while j < to
        invariant from <= j && (from < to ==> j <= to) && (from >= to ==> j == from)
        invariant page[..from] == old(page[..from]) && page[j..] == old(page[j..])
        invariant page[from..j] == bytes[p..p + (j - from)]
      {
        page[j] := bytes[p + (j - from)];
        j := j + 1;
      }
    }

    /** Filling the page buffer and writing it to an erased page programs exactly the bytes. */
    method ProgramPage(bytes: array<bv8>, aligned: nat)
      requires Valid() && aligned % PAGE == 0 && bytes.Length == PAGE && bytes != cells && bytes != buffer
      requires var page := aligned % cells.Length;
        page + PAGE <= cells.Length && forall k :: page <= k < page + PAGE ==> cells[k] == 0xFF
      modifies cells, buffer, `log
      ensures Valid() && log == old(log) + [Write(aligned)]
      ensures var page := aligned % cells.Length;
        cells[..] == old(cells[..page]) + bytes[..] + old(cells[page + PAGE..])
    {
      hide Programmed;
      var page := aligned % cells.Length;
      LoadPage(bytes);
      WritePage(aligned);
      forall k | 0 <= k < PAGE
        ensures cells[page + k] == bytes[k]
      {
        ProgramErased(bytes[k]);
      }
    }

    /** One page: copy it out, erase it, merge the new bytes, program it again. */
    method UpdatePage(bytes: array<bv8>, p: nat, aligned: nat, from: nat, to: nat)
      requires Valid() && aligned % PAGE == 0 && from <= PAGE && to <= PAGE
      requires p <= bytes.Length && (from < to ==> p + (to - from) <= bytes.Length)
      requires bytes != cells && bytes != buffer
      modifies cells, buffer, `log
      ensures Valid() && log == old(log) + [Erase(aligned), Write(aligned)]
      ensures var page := aligned % cells.Length;
        && page + PAGE <= cells.Length
        && cells[..] == Splice(old(cells[..]), page + from, if from < to then bytes[p..p + (to - from)] else [])
    {
      hide Splice;
      PageFits(aligned, cells.Length);
      var page := aligned % cells.Length;
      var tempBuff := new bv8[PAGE](k requires 0 <= k < PAGE reads cells => cells[page + k]);
      ghost var memory, added := cells[..], if from < to then bytes[p..p + (to - from)] else [];
      assert tempBuff[..] == memory[page..page + PAGE];
      ErasePage(aligned);
      Merge(tempBuff, bytes, p, from, to);
      ProgramPage(tempBuff, aligned);
      SpliceInPage(memory, page, from, added);
    }

    /** Where one turn of the loop of FLS_write works, and where the next one starts. */
    static method Bounds(startaddr: nat, size: nat, i: nat) returns (aligned: nat, from: nat, to: nat, next: nat)
      requires startaddr < 0x1_0000 && i < size < 0x1_0000
      ensures aligned % PAGE == 0 && from < PAGE && to <= PAGE && next == NextIndex(startaddr, size, i)
      ensures from < to ==> to - from <= size - i
      ensures startaddr + i < 0x1_0000 ==> aligned + from == startaddr + i && aligned == PageOf(startaddr + i)
      ensures (InStep(startaddr, size, i) && !Skips(startaddr, size) ==>
                && to == from + FirstStep(startaddr + i, size - i) && next == i + (to - from)
                && (next == size || (startaddr + next) % PAGE == 0))
      ensures InStep(startaddr, size, i) && Skips(startaddr, size) ==> to <= from && size <= next
    {
      hide FirstStep, PageOf, Skips, InStep;
      var address := (startaddr + i) % 0x1_0000;
      from := address % PAGE;
      aligned := address - from;
      var totalBytesPending := (size - i) % 256;
      to := (from + totalBytesPending) % 256;
      EndInRange(from, size - i);
      if to > PAGE {
        to := PAGE;
      }
      WhereItWorks(startaddr + i, address, from);
      next := (i + 0x1_0000 + to - from) % 0x1_0000;
      if InStep(startaddr, size, i) {
        StepArithmetic(startaddr, size, i, address, from, to);
        if to == PAGE {
          PageEnd(startaddr + i, from);
        }
      }
    }

    /** One turn of the loop of FLS_write. */
    method WriteStep(buff: array<bv8>, startaddr: nat, size: nat, i: nat) returns (next: nat)
      requires Valid() && startaddr < 0x1_0000 && i < size < 0x1_0000
      requires size <= buff.Length && buff != cells && buff != buffer
      modifies cells, buffer, `log
      ensures Valid() && next == NextIndex(startaddr, size, i)
      ensures (InStep(startaddr, size, i) && !Skips(startaddr, size) ==>
                && next == i + FirstStep(startaddr + i, size - i)
                && (next == size || (startaddr + next) % PAGE == 0))
      ensures (InStep(startaddr, size, i) && !Skips(startaddr, size) && startaddr + size <= cells.Length ==>
                && cells[..] == Splice(old(cells[..]), startaddr + i, buff[i..next])
                && log == old(log) + [Erase(PageOf(startaddr + i)), Write(PageOf(startaddr + i))])
      ensures (InStep(startaddr, size, i) && Skips(startaddr, size) ==>
                cells[..] == old(cells[..]) && size <= next)
    {
      hide FirstStep, PageOf, Splice, Skips, NextIndex, InStep;
      var alignedStartAddr, eraseBuffStart, eraseBuffEnd;
      alignedStartAddr, eraseBuffStart, eraseBuffEnd, next := Bounds(startaddr, size, i);
      SpliceNothing(cells[..], alignedStartAddr % cells.Length + eraseBuffStart);
      PageFits(alignedStartAddr, cells.Length);
      UpdatePage(buff, i, alignedStartAddr, eraseBuffStart, eraseBuffEnd);
    }

    /** The first n turns of the loop, or as many as it takes: where they leave its variable.
        Beyond 255 bytes and without the wrap, the loop goes on after any number of them. */
    method Turns(buff: array<bv8>, startaddr: nat, size: nat, n: nat) returns (i: nat)
      requires Valid() && startaddr < 0x1_0000 && size < 0x1_0000
      requires size <= buff.Length && buff != cells && buff != buffer
      modifies cells, buffer, `log
      ensures Valid() && i == IndexAfter(startaddr, size, n)
      ensures !Returns(startaddr, size) ==> i < size
    {
      hide NextIndex;
      i := 0;
      for k := 0 to n
        invariant Valid() && i == IndexAfter(startaddr, size, k)
      {
        if i < size {
          i := WriteStep(buff, startaddr, size, i);
        }
      }
      if !Returns(startaddr, size) {
        NeverReturns(startaddr, size, n);
      }
    }

    /** FLS_write. Two of its variables are eight bits wide: the bytes pending, and the end of
        the range on the page. For a size of up to 255 the range is written and nothing else
        changes, each page erased once, exactly when its end, counted from its first page, fits
        them. When the sum wraps, nothing is written. */
    method FlsWrite(buff: array<bv8>, startaddr: nat, size: nat)
      requires Valid() && startaddr < 0x1_0000 && size < 0x1_0000 && Returns(startaddr, size)
      requires size <= buff.Length && buff != cells && buff != buffer
      modifies cells, buffer, `log
      ensures Valid()
      ensures (!Skips(startaddr, size) && startaddr + size <= cells.Length ==>
                && cells[..] == Splice(old(cells[..]), startaddr, buff[..size])
                && log == old(log) + Cycles(Pages(startaddr, size)))
      ensures Skips(startaddr, size) ==> cells[..] == old(cells[..])
    {
      hide FirstStep, PageOf, Pages, Cycles, Splice, Skips, NextIndex;
      ghost var memory := cells[..];
      SpliceNothing(memory, startaddr);
      var i := 0;
      while i < size
        invariant Valid()
        invariant i == 0 || i >= size || (!Skips(startaddr, size) && (startaddr + i) % PAGE == 0)
        invariant Skips(startaddr, size) ==> cells[..] == memory
        invariant !Skips(startaddr, size) ==> i <= size
        invariant (!Skips(startaddr, size) && startaddr + size <= cells.Length ==>
                    && cells[..] == Splice(memory, startaddr, buff[..i])
                    && old(log) + Cycles(Pages(startaddr, size)) == log + Cycles(Pages(startaddr + i, size - i)))
        decreases if i < size then size - i else 0
      {
        ghost var n := FirstStep(startaddr + i, size - i);
        if startaddr + size <= cells.Length {
          ghost var bytes := buff[..size];
          assert bytes[..i] == buff[..i] && bytes[i..i + n] == buff[i..i + n] && bytes[..i + n] == buff[..i + n];
          SpliceMore(memory, startaddr, bytes, i, n);
          CyclesStep(startaddr + i, size - i);
        }
        i := WriteStep(buff, startaddr, size, i);
      }
      CyclesDone(startaddr + size);
    }
  }

  /** The end of the range on its first page, as the eight-bit sum has it, wraps. */
  predicate Skips(startaddr: nat, size: nat) {
    startaddr % PAGE + size % 256 > 255
  }

  predicate Returns(startaddr: nat, size: nat) {
    size <= 255 || Skips(startaddr, size)
  }

  /** Where the loop stands between two turns of a call that returns. */
  predicate InStep(startaddr: nat, size: nat, i: nat) {
    Returns(startaddr, size) && (i == 0 || (!Skips(startaddr, size) && (startaddr + i) % PAGE == 0))
  }

  /** The loop variable of FLS_write after one turn. */
  function NextIndex(startaddr: nat, size: nat, i: nat): (next: nat)
    requires i < size < 0x1_0000
  {
    var from := (startaddr + i) % 0x1_0000 % PAGE;
    var end := (from + (size - i) % 256) % 256;
    (i + 0x1_0000 + (if end > PAGE then PAGE else end) - from) % 0x1_0000
  }

  /** The loop variable after n turns, if the loop takes that many. */
  function IndexAfter(startaddr: nat, size: nat, n: nat): nat
    requires size < 0x1_0000
  {
    if n == 0 then 0
    else
      var i := IndexAfter(startaddr, size, n - 1);
      if i < size then NextIndex(startaddr, size, i) else i
  }

  /** Beyond 255 bytes, FLS_write returns only when the sum wraps: otherwise, however many turns
      its loop takes, it stops at the size's low byte. */
  lemma NeverReturns(startaddr: nat, size: nat, n: nat)
    requires startaddr < 0x1_0000 && size < 0x1_0000 && !Returns(startaddr, size)
    ensures IndexAfter(startaddr, size, n) <= size % 256 < size
  {
    StopsShort(startaddr, size, n);
  }

  lemma {:induction false} StopsShort(startaddr: nat, size: nat, n: nat)
    requires startaddr < 0x1_0000 && size < 0x1_0000 && !Returns(startaddr, size)
    ensures var i := IndexAfter(startaddr, size, n);
      i <= size % 256 && (i == 0 || i == size % 256 || (startaddr + i) % PAGE == 0)
  {
    hide NextIndex;
    if n > 0 {
      StopsShort(startaddr, size, n - 1);
      ShortTurn(startaddr, size, IndexAfter(startaddr, size, n - 1));
    }
  }

  lemma LowByteLeft(size: nat, i: nat)
    requires i <= size % 256
    ensures (size - i) % 256 == size % 256 - i
  {
    assert size - i == 256 * (size / 256) + (size % 256 - i);
  }

  lemma TurnTaken(startaddr: nat, size: nat, i: nat, from: nat, pending: nat)
    requires i < size < 0x1_0000 && from == (startaddr + i) % 0x1_0000 % PAGE && pending == (size - i) % 256
    requires from + pending <= 255 && i + pending < 0x1_0000
    ensures NextIndex(startaddr, size, i) == if from + pending > PAGE then i + (PAGE - from) else i + pending
  {
  }

  lemma ShortTurn(startaddr: nat, size: nat, i: nat)
    requires startaddr < 0x1_0000 && size < 0x1_0000 && !Returns(startaddr, size)
    requires i <= size % 256 && (i == 0 || i == size % 256 || (startaddr + i) % PAGE == 0)
    ensures i < size
    ensures var next := NextIndex(startaddr, size, i);
      next <= size % 256 && (next == size % 256 || (startaddr + next) % PAGE == 0)
  {
    hide NextIndex;
    var from, pending := (startaddr + i) % PAGE, size % 256 - i;
    OffsetOfWrapped(startaddr + i);
    LowByteLeft(size, i);
    TurnTaken(startaddr, size, i, from, pending);
    if from + pending > PAGE {
      PageEnd(startaddr + i, from);
    }
  }

  /** The eight-bit end of a turn. */
  lemma EndInRange(from: nat, pending: nat)
    requires from < PAGE
    ensures var end := (from + pending % 256) % 256;
      from < (if end > PAGE then PAGE else end) ==> (if end > PAGE then PAGE else end) - from <= pending
  {
    var sum := from + pending % 256;
    assert pending % 256 <= pending;
    if sum >= 256 {
      assert sum % 256 == sum - 256;
    }
  }

  lemma WhereItWorks(a: nat, address: nat, from: nat)
    requires address == a % 0x1_0000 && from == address % PAGE
    ensures (address - from) % PAGE == 0
    ensures a < 0x1_0000 ==> address == a && address - from == PageOf(a)
  {
    OffsetOfWrapped(address);
  }

  /** The eight-bit arithmetic of one step. */
  lemma StepArithmetic(startaddr: nat, size: nat, i: nat, address: nat, from: nat, to: nat)
    requires startaddr < 0x1_0000 && i < size < 0x1_0000 && InStep(startaddr, size, i)
    requires address == (startaddr + i) % 0x1_0000 && from == address % PAGE
    requires var end := (from + (size - i) % 256) % 256; to == if end > PAGE then PAGE else end
    ensures from < PAGE && (address - from) % PAGE == 0 && from == (startaddr + i) % PAGE
    ensures startaddr + i < 0x1_0000 ==> address == startaddr + i && address - from == PageOf(startaddr + i)
    ensures (!Skips(startaddr, size) ==>
              && to == from + FirstStep(startaddr + i, size - i)
              && (i + 0x1_0000 + to - from) % 0x1_0000 == i + FirstStep(startaddr + i, size - i)
              && (i + FirstStep(startaddr + i, size - i) == size || to == PAGE))
    ensures (Skips(startaddr, size) ==>
              to <= from && size <= (i + 0x1_0000 + to - from) % 0x1_0000)
  {
    OffsetOfWrapped(startaddr + i);
    if Skips(startaddr, size) {
      WrappedSum(from, size);
    } else {
      EightBits(from, size - i);
      assert (i + 0x1_0000 + to - from) % 0x1_0000 == i + to - from;
    }
  }

  lemma WrappedSum(from: nat, size: nat)
    requires from < PAGE && size < 0x1_0000 && from + size % 256 > 255
    ensures (from + size % 256) % 256 == from + size % 256 - 256
    ensures size <= 0x1_0000 + size % 256 - 256 < 0x1_0000
  {
  }

  lemma PageEnd(a: nat, from: nat)
    requires from == a % PAGE
    ensures (a + (PAGE - from)) % PAGE == 0
  {
    assert a + (PAGE - from) == PAGE * (a / PAGE + 1);
  }

  lemma OffsetOfWrapped(a: nat)
    ensures (a % 0x1_0000) % PAGE == a % PAGE
    ensures (a - a % PAGE) % PAGE == 0
  {
    var q := a / 0x1_0000;
    assert a == PAGE * (1024 * q) + a % 0x1_0000;
  }

  lemma EightBits(from: nat, pending: nat)
    requires from < PAGE && 1 <= pending <= 255
    ensures (from + pending % 256) % 256 == if from + pending <= 255 then from + pending else from + pending - 256
  {
  }

  lemma SpliceNothing(memory: seq<bv8>, start: nat)
    ensures start <= |memory| ==> Splice(memory, start, []) == memory
  {
  }

  lemma SpliceMore(memory: seq<bv8>, start: nat, bytes: seq<bv8>, i: nat, n: nat)
    requires i + n <= |bytes| && start + |bytes| <= |memory|
    ensures Splice(Splice(memory, start, bytes[..i]), start + i, bytes[i..i + n])
         == Splice(memory, start, bytes[..i + n])
  {
  }

  lemma CyclesStep(start: nat, size: nat)
    requires size > 0
    ensures Cycles(Pages(start, size)) == [Erase(PageOf(start)), Write(PageOf(start))]
         + Cycles(Pages(start + FirstStep(start, size), size - FirstStep(start, size)))
  {
  }

  lemma CyclesDone(start: nat)
    ensures Cycles(Pages(start, 0)) == []
  {
  }

  lemma SpliceInPage(memory: seq<bv8>, page: nat, from: nat, bytes: seq<bv8>)
    requires page + PAGE <= |memory| && from + |bytes| <= PAGE
    ensures memory[..page] + Splice(memory[page..page + PAGE], from, bytes) + memory[page + PAGE..]
         == Splice(memory, page + from, bytes)
  {
    var old', end := memory[page..page + PAGE], from + |bytes|;
    assert memory[..page + from] == memory[..page] + old'[..from];
    assert memory[page + end..] == old'[end..] + memory[page + PAGE..];
  }

  /** Programming clears bits. */
  function Programmed(old': bv8, new': bv8): bv8 {
    old' & new'
  }

  function Word(low: bv8, high: bv8): bv16 {
    low as bv16 + ((high as bv16) << 8)
  }

  function LowByte(w: bv16): bv8 {
    (w & 0xFF) as bv8
  }

  function HighByte(w: bv16): bv8 {
    (w >> 8) as bv8
  }

  lemma WordBytes(low: bv8, high: bv8)
    ensures LowByte(Word(low, high)) == low && HighByte(Word(low, high)) == high
  {
  }

  lemma ProgramErased(b: bv8)
    ensures Programmed(0xFF, b) == b
  {
  }
}
