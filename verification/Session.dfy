/** Whole transfers with the host. A WRITE under any interleaving of packets, polls and turns
    of the main loop does to the flash what a small abstract machine says; reading the range
    back returns the bytes that machine took. */
module Session {
  import opened Avr
  import opened Flash
  import opened Ucp

  datatype Option<T> = None | Some(value: T)

  datatype Event = Packet(data: seq<bv8>) | Poll | MainLoop

  predicate GoodEvents(events: seq<Event>) {
    forall i :: 0 <= i < |events| && events[i].Packet? ==> |events[i].data| == 8
  }

  datatype Status = Open | Complete | Aborted

  /** A WRITE seen from outside: the packet acknowledged, the one polled for, and the bytes of
      those the main loop has taken. */
  datatype Upload = Upload(waiting: Option<seq<bv8>>, ready: Option<seq<bv8>>, taken: seq<bv8>, status: Status)

  const STARTED := Upload(None, None, [], Open)

  /** A packet replaces one not yet polled for; one that comes while a write is pending, or when
      nothing more is wanted, ends the transfer. */
  function Next(u: Upload, len: nat, e: Event): Upload {
    if u.status != Open then u
    else match e
      case Packet(data) =>
        if u.ready.Some? || |u.taken| >= len then Upload(None, None, u.taken, Aborted)
        else u.(waiting := Some(data))
      case Poll =>
        if u.waiting.Some? then u.(waiting := None, ready := u.waiting) else u
      case MainLoop =>
        if u.ready.None? then u
        else
          var taken := u.taken + u.ready.value;
          u.(ready := None, taken := taken, status := if |taken| >= len then Complete else Open)
  }

  function After(u: Upload, len: nat, events: seq<Event>): Upload
    decreases |events|
  {
    if events == [] then u else After(Next(u, len, events[0]), len, events[1..])
  }

  lemma {:induction false} ClosedStays(u: Upload, len: nat, events: seq<Event>)
    requires u.status != Open
    ensures After(u, len, events) == u
    decreases |events|
  {
    if events != [] {
      ClosedStays(u, len, events[1..]);
    }
  }

  /** What the transfer wants of the bytes taken. */
  function Wanted(u: Upload, len: nat): (r: seq<bv8>)
    ensures |r| <= len && r <= u.taken
  {
    if |u.taken| <= len then u.taken else u.taken[..len]
  }

  /** The part that has been programmed: whole pages of the store, and everything at the end. */
  function Flushed(u: Upload, start: nat, len: nat): (r: seq<bv8>)
    ensures r <= u.taken
  {
    var wanted := Wanted(u, len);
    if u.status == Complete then wanted
    else wanted[..|wanted| - StagedAt(start, start + |wanted|)]
  }

  /** The interpreter stands where the abstract machine does. */
  ghost predicate Follows(p: Protocol, u: Upload, t: Transfer)
    reads p, p.flash.buffer, p.flash.cells, p.tempBuff, p.report
  {
    && p.Valid() && p.transfer == t && p.InFlash(t) && |t.origin| == p.flash.cells.Length
    && (p.state == if u.status == Open then Writing else Idle)
    && (u.status == Open ==> OpenFollows(p, u, t))
    && (u.status != Open ==> !p.usbWrite && !p.usbWriteAccepted)
    && |Flushed(u, t.start, t.len)| <= t.len
    && p.flash.cells[..] == Splice(t.origin, p.base + t.start, Flushed(u, t.start, t.len))
  }

  ghost predicate OpenFollows(p: Protocol, u: Upload, t: Transfer)
    reads p, p.report
  {
    && p.written == u.taken && p.readOffset == t.start + |u.taken| && p.readEnd == t.start + t.len
    && |u.taken| <= t.len && (|u.taken| == t.len ==> t.len == 0)
    && p.usbWrite == u.ready.Some? && p.usbWriteAccepted == u.waiting.Some?
    && (u.ready.Some? ==> p.report[..] == u.ready.value)
    && (u.waiting.Some? ==> p.report[..] == u.waiting.value)
  }

  lemma FlushedByTaken(u: Upload, v: Upload, start: nat, len: nat)
    requires u.taken == v.taken && u.status != Complete && v.status != Complete
    ensures Flushed(u, start, len) == Flushed(v, start, len)
  {
  }

  /** What the flush of a packet leaves programmed. */
  lemma FlushedAfterPacket(u: Upload, v: Upload, packet: seq<bv8>, start: nat, len: nat, written: seq<bv8>)
    requires u.status == Open && u.ready == Some(packet) && |packet| == 8 && |u.taken| < len
    requires v == Next(u, len, MainLoop)
    requires written == u.taken + if len - |u.taken| <= 8 then packet[..len - |u.taken|] else packet
    ensures v.status == Complete <==> len - |u.taken| <= 8
    ensures v.status == Open || v.status == Complete
    ensures written == Wanted(v, len)
    ensures v.status == Open ==> written == v.taken && |v.taken| < len
    ensures v.status == Complete ==> Flushed(v, start, len) == written
    ensures (v.status == Open ==>
              Flushed(v, start, len) == written[..|written| - StagedAt(start, start + |written|)])
  {
    hide StagedAt;
  }

  /** A turn of the main loop. */
  method HandleMainLoop(p: Protocol, ghost u: Upload, ghost t: Transfer)
    requires Follows(p, u, t) && u.status == Open
    modifies p, p.tempBuff, p.flash.cells, p.flash.buffer, p.flash`log
    ensures Follows(p, Next(u, t.len, MainLoop), t)
  {
    hide Splice, StagedAt, Wanted, Flushed;
    ghost var v := Next(u, t.len, MainLoop);
    p.UcpWriteTask();
    if u.ready.Some? {
      assert u.ready.value[..8] == u.ready.value;
      FlushedAfterPacket(u, v, u.ready.value, t.start, t.len, p.written);
      assert p.Stored();
      assert p.written[..|p.written|] == p.written;
    }
  }

  method HandlePacket(p: Protocol, data: seq<bv8>, ghost u: Upload, ghost t: Transfer)
    requires Follows(p, u, t) && u.status == Open && |data| == 8
    modifies p, p.report
    ensures Follows(p, Next(u, t.len, Packet(data)), t)
  {
    hide Splice, StagedAt, Wanted, Flushed, Value;
    FlushedByTaken(u, Next(u, t.len, Packet(data)), t.start, t.len);
    p.UcpDecode(data, 8);
  }

  method HandlePoll(p: Protocol, other: seq<bv8>, ghost u: Upload, ghost t: Transfer)
    requires Follows(p, u, t) && u.status == Open && |other| == 8
    modifies p, p.report
    ensures Follows(p, Next(u, t.len, Poll), t)
  {
    hide Splice, StagedAt, Wanted, Flushed;
    FlushedByTaken(u, Next(u, t.len, Poll), t.start, t.len);
    p.UcpTask(other);
  }

  /** One event, as the firmware handles it. */
  method Handle(p: Protocol, e: Event, other: seq<bv8>, ghost u: Upload, ghost t: Transfer)
    requires Follows(p, u, t) && u.status == Open && |other| == 8 && (e.Packet? ==> |e.data| == 8)
    modifies p, p.report, p.tempBuff, p.flash.cells, p.flash.buffer, p.flash`log
    ensures Follows(p, Next(u, t.len, e), t)
  {
    hide Follows, Next;
    match e {
      case Packet(data) => HandlePacket(p, data, u, t);
      case Poll => HandlePoll(p, other, u, t);
      case MainLoop => HandleMainLoop(p, u, t);
    }
  }

  lemma CommandNumbers(command: seq<bv8>, start: nat, len: nat)
    requires |command| == 8
    requires command[1] as nat == start % 256 && command[2] as nat == start / 256
    requires command[3] as nat == len % 256 && command[4] as nat == len / 256
    ensures Value(command[1]) + 256 * Value(command[2]) == start
    ensures Value(command[3]) + 256 * Value(command[4]) == len
  {
    NumberOf(start, command[1], command[2]);
    NumberOf(len, command[3], command[4]);
  }

  lemma NothingFlushed(start: nat, len: nat)
    ensures Flushed(STARTED, start, len) == []
  {
  }

  /** The WRITE command itself. */
  method Start(p: Protocol, command: seq<bv8>, start: nat, len: nat)
    requires p.Valid() && p.state == Idle && |command| == 8 && command[0] == 3
    requires Value(command[1]) + 256 * Value(command[2]) == start
    requires Value(command[3]) + 256 * Value(command[4]) == len
    requires p.base + start + len <= p.flash.cells.Length
    modifies p, p.report
    ensures Follows(p, STARTED, Transfer(start, len, old(p.flash.cells[..])))
  {
    hide StagedAt, Splice, Flushed, Value, Follows, Protocol.Stored, Protocol.Counting;
    p.UcpDecode(command, 8);
    Started(p, start, len);
  }

  lemma Started(p: Protocol, start: nat, len: nat)
    requires p.Valid() && p.transfer == Transfer(start, len, p.flash.cells[..])
    requires p.base + start + len <= p.flash.cells.Length
    requires p.state == Writing && !p.usbWrite && !p.usbWriteAccepted && p.written == []
    requires p.readOffset == start && p.readEnd == Wrap(start + len)
    ensures Follows(p, STARTED, p.transfer)
  {
    hide StagedAt, Splice, Flushed;
    NothingFlushed(start, len);
    SpliceNothing(p.flash.cells[..], p.base + start);
  }

  /** Any events after it, as long as the transfer lasts. */
  method Continue(p: Protocol, events: seq<Event>, other: seq<bv8>, ghost t: Transfer) returns (ghost u: Upload)
    requires Follows(p, STARTED, t) && GoodEvents(events) && |other| == 8
    modifies p, p.report, p.tempBuff, p.flash.cells, p.flash.buffer, p.flash`log
    ensures u == After(STARTED, t.len, events) && Follows(p, u, t)
  {
    hide Follows, Next;
    u := STARTED;
    var i := 0;
    StateSaysOpen(p, u, t);
    while i < |events| && p.state == Writing
      invariant i <= |events| && Follows(p, u, t) && (p.state == Writing <==> u.status == Open)
      invariant After(STARTED, t.len, events) == After(u, t.len, events[i..])
    {
      Handle(p, events[i], other, u, t);
      u := Next(u, t.len, events[i]);
      StateSaysOpen(p, u, t);
      i := i + 1;
    }
    if u.status != Open {
      ClosedStays(u, t.len, events[i..]);
    } else {
      assert events[i..] == [];
    }
  }

  method WriteRange(p: Protocol, command: seq<bv8>, start: nat, len: nat, events: seq<Event>,
                    other: seq<bv8>)
    returns (ghost u: Upload)
    requires p.Valid() && p.state == Idle && |command| == 8 && command[0] == 3
    requires Value(command[1]) + 256 * Value(command[2]) == start
    requires Value(command[3]) + 256 * Value(command[4]) == len
    requires p.base + start + len <= p.flash.cells.Length && GoodEvents(events) && |other| == 8
    modifies p, p.report, p.tempBuff, p.flash.cells, p.flash.buffer, p.flash`log
    ensures u == After(STARTED, len, events) && Follows(p, u, Transfer(start, len, old(p.flash.cells[..])))
    ensures p.Valid() && p.state == (if u.status == Open then Writing else Idle)
    ensures var first, end := p.base + start, p.base + start + len;
      p.flash.cells[..] == old(p.flash.cells[..])[..first] + p.flash.cells[first..end] + old(p.flash.cells[..])[end..]
    ensures (u.status == Complete ==>
              len <= |u.taken| && p.flash.cells[p.base + start..p.base + start + len] == u.taken[..len])
  {
    hide Follows, After, Next, Splice, Flushed, Wanted, StagedAt, Value, Protocol.Valid;
    ghost var t := Transfer(start, len, p.flash.cells[..]);
    Start(p, command, start, len);
    u := Continue(p, events, other, t);
    if u.status == Complete {
      CompleteHasAll(STARTED, len, events);
      Programmed(p, u, t);
    }
    StateSaysOpen(p, u, t);
    OnlyTheRange(p, u, t);
  }

  /** A WRITE of `len` bytes at `start`, and any events after it, as long as it lasts: the flash holds
      what the abstract machine says it holds, and nothing else of it has changed. Complete, it holds
      the first `len` bytes taken. */
  method Write(p: Protocol, command: seq<bv8>, start: nat, len: nat, events: seq<Event>, other: seq<bv8>)
    returns (ghost u: Upload)
    requires p.Valid() && p.state == Idle && |command| == 8 && command[0] == 3
    requires command[1] as nat == start % 256 && command[2] as nat == start / 256
    requires command[3] as nat == len % 256 && command[4] as nat == len / 256
    requires p.base + start + len <= p.flash.cells.Length && GoodEvents(events) && |other| == 8
    modifies p, p.report, p.tempBuff, p.flash.cells, p.flash.buffer, p.flash`log
    ensures u == After(STARTED, len, events) && Follows(p, u, Transfer(start, len, old(p.flash.cells[..])))
    ensures p.Valid() && p.state == (if u.status == Open then Writing else Idle)
    ensures var first, end := p.base + start, p.base + start + len;
      p.flash.cells[..] == old(p.flash.cells[..])[..first] + p.flash.cells[first..end] + old(p.flash.cells[..])[end..]
    ensures (u.status == Complete ==>
              len <= |u.taken| && p.flash.cells[p.base + start..p.base + start + len] == u.taken[..len])
  {
    hide Follows, After, Splice, Flushed, Wanted, StagedAt, Value, Protocol.Valid;
    CommandNumbers(command, start, len);
    u := WriteRange(p, command, start, len, events, other);
  }

  lemma StateSaysOpen(p: Protocol, u: Upload, t: Transfer)
    requires Follows(p, u, t)
    ensures p.Valid() && p.state == if u.status == Open then Writing else Idle
  {
  }

  // ---------------------------------------------------------------- reading back

  /** The answers to the polls after a READ of flash, until the interpreter is idle: the
      command, then eight bytes at a time. A READ of nothing is answered with an error. */
  function Answers(command: seq<bv8>, cells: seq<bv8>, address: nat, len: nat): (r: seq<seq<bv8>>)
    requires |command| == 8 && 0 < |cells| <= 0x1_0000
    ensures r != [] && r[0] == command
  {
    [command] + if len == 0 then [Failed(command, ERR_PROTOCOL)] else Chunks(cells, address, len)
  }

  function Chunks(cells: seq<bv8>, address: nat, len: nat): seq<seq<bv8>>
    requires 0 < |cells| <= 0x1_0000
    decreases len
  {
    if len == 0 then [] else [Chunk(cells, address)] + Chunks(cells, address + 8, if len <= 8 then 0 else len - 8)
  }

  function Flatten(chunks: seq<seq<bv8>>): seq<bv8> {
    if chunks == [] then [] else chunks[0] + Flatten(chunks[1..])
  }

  lemma FirstChunk(cells: seq<bv8>, address: nat, len: nat)
    requires 0 < |cells| <= 0x1_0000 && len > 0
    ensures Flatten(Chunks(cells, address, len))
         == Chunk(cells, address) + Flatten(Chunks(cells, address + 8, if len <= 8 then 0 else len - 8))
  {
    hide Chunk;
    var first, rest := Chunk(cells, address), Chunks(cells, address + 8, if len <= 8 then 0 else len - 8);
    assert ([first] + rest)[1..] == rest;
  }

  lemma ChunkThenRest(cells: seq<bv8>, address: nat, len: nat, rest: seq<bv8>)
    requires 8 < len && address + len <= |cells| <= 0x1_0000 && len - 8 <= |rest|
    requires rest[..len - 8] == cells[address + 8..address + len]
    ensures (Chunk(cells, address) + rest)[..len] == cells[address..address + len]
  {
    var first := Chunk(cells, address);
    assert first == cells[address..address + 8];
    assert (first + rest)[..len] == first + rest[..len - 8];
  }

  /** Inside the memory, the chunks are the bytes. */
  lemma {:induction false} ChunksCarry(cells: seq<bv8>, address: nat, len: nat)
    requires 0 < |cells| <= 0x1_0000 && address + len <= |cells|
    ensures len <= |Flatten(Chunks(cells, address, len))|
    ensures Flatten(Chunks(cells, address, len))[..len] == cells[address..address + len]
    decreases len
  {
    hide Chunks, Flatten;
    if len > 0 {
      FirstChunk(cells, address, len);
      if len > 8 {
        ChunksCarry(cells, address + 8, len - 8);
        ChunkThenRest(cells, address, len, Flatten(Chunks(cells, address + 8, len - 8)));
      }
    }
  }

  lemma ChunksStep(done: seq<seq<bv8>>, cells: seq<bv8>, address: nat, len: nat)
    requires 0 < |cells| <= 0x1_0000 && len > 0
    ensures done + Chunks(cells, address, len)
         == done + [Chunk(cells, address)] + Chunks(cells, address + 8, if len <= 8 then 0 else len - 8)
  {
  }

  /** readOffset after n polls of a READ. */
  function OffsetAfter(start: nat, n: nat): nat {
    Wrap(start + 8 * n)
  }

  /** The last packet of the range ends inside sixteen bits. */
  predicate Ends(start: nat, len: nat) {
    start + len <= 0xFFF8 + start % 8
  }

  lemma EndsInside(start: nat, len: nat)
    requires Ends(start, len)
    ensures start + len < 0x1_0000
  {
  }

  lemma OffsetBound(start: nat, n: nat)
    requires start < 0x1_0000
    ensures OffsetAfter(start, n) % 8 == start % 8 && OffsetAfter(start, n) <= 0xFFF8 + start % 8
  {
    var offset, q := OffsetAfter(start, n), (start + 8 * n) / 0x1_0000;
    assert start + 8 * n == 8 * (0x2000 * q) + offset;
    assert offset == 8 * (offset / 8) + offset % 8;
  }

  /** A READ whose last packet does not end there never does: the offset wraps to the start of
      the memory, below the end again, however often the host polls. */
  lemma ReadNeverEnds(start: nat, len: nat, n: nat)
    requires start + len < 0x1_0000 && !Ends(start, len)
    ensures OffsetAfter(start, n) < start + len
  {
    OffsetBound(start, n);
  }

  lemma OneMorePoll(start: nat, n: nat)
    ensures Wrap(OffsetAfter(start, n) + 8) == OffsetAfter(start, n + 1)
  {
    var q := (start + 8 * n) / 0x1_0000;
    assert start + 8 * (n + 1) == 0x1_0000 * q + (OffsetAfter(start, n) + 8);
  }

  /** So the interpreter, polled any number of times, is still reading. */
  method KeepPolling(p: Protocol, other: seq<bv8>, start: nat, len: nat, n: nat)
    requires p.Valid() && p.state == Reading && p.readOffset == start && p.readEnd == start + len
    requires start + len < 0x1_0000 && !Ends(start, len) && |other| == 8
    modifies p, p.report
    ensures p.Valid() && p.state == Reading && p.readOffset == OffsetAfter(start, n)
  {
    hide Chunk, Wrap, Failed, OffsetAfter;
    StartOffset(start);
    for k := 0 to n
      invariant p.Valid() && p.state == Reading && p.readEnd == start + len
      invariant p.readOffset == OffsetAfter(start, k)
    {
      ReadNeverEnds(start, len, k);
      ReadNeverEnds(start, len, k + 1);
      OneMorePoll(start, k);
      p.UcpTask(other);
    }
  }

  lemma StartOffset(start: nat)
    requires start < 0x1_0000
    ensures OffsetAfter(start, 0) == start
  {
  }

  lemma NoWrap(start: nat, len: nat, left: nat)
    requires Ends(start, len) && 0 < left <= len && (len - left) % 8 == 0
    ensures start + len - left + 8 < 0x1_0000
  {
    var offset := start + len - left;
    assert offset % 8 == start % 8 by {
      assert len - left == 8 * ((len - left) / 8);
    }
    assert 0xFFF8 + start % 8 - offset == 8 * (0x1FFF - offset / 8);
  }

  method BeginRead(p: Protocol, command: seq<bv8>, other: seq<bv8>, start: nat, len: nat)
    requires p.Valid() && p.state == Idle && |command| == 8 && command[0] == 2 && command[5] == 0
    requires Value(command[1]) + 256 * Value(command[2]) == start
    requires Value(command[3]) + 256 * Value(command[4]) == len
    requires start + len < 0x1_0000 && |other| == 8
    modifies p, p.report
    ensures p.Valid() && p.state == Reading && p.readType == 0 && p.report[..] == command
    ensures p.readOffset == start && p.readEnd == start + len
  {
    hide Chunk, Wrap, Failed, Value;
    p.UcpDecode(command, 8);
    p.UcpTask(other);
  }

  method PollRead(p: Protocol, other: seq<bv8>, start: nat, len: nat, ghost left: nat)
    requires p.Valid() && p.state == Reading && p.readType == 0 && p.readEnd == start + len
    requires p.readOffset == start + len - left && |other| == 8
    requires Ends(start, len) && 0 < left <= len && (len - left) % 8 == 0
    modifies p, p.report
    ensures p.Valid() && p.readType == old(p.readType) && p.readEnd == old(p.readEnd)
    ensures p.report[..] == Chunk(p.flash.cells[..], p.base + start + len - left)
    ensures if left <= 8 then p.state == Idle else p.state == Reading && p.readOffset == start + len - (left - 8)
  {
    hide Chunk, Wrap, Failed;
    NoWrap(start, len, left);
    p.UcpTask(other);
  }

  /** Polls until the interpreter is idle again. */
  method PollToEnd(p: Protocol, other: seq<bv8>, start: nat, len: nat) returns (answers: seq<seq<bv8>>)
    requires p.Valid() && p.state == Reading && p.readType == 0 && |other| == 8
    requires p.readOffset == start && p.readEnd == start + len && Ends(start, len) && len > 0
    modifies p, p.report
    ensures p.Valid() && p.state == Idle
    ensures answers == Chunks(p.flash.cells[..], p.base + start, len)
  {
    hide Chunk, Wrap, Failed, Chunks;
    answers := [];
    ghost var cells, left: nat := p.flash.cells[..], len;
    while p.state != Idle
      invariant p.Valid() && p.flash.cells[..] == cells && left <= len && (left > 0 ==> (len - left) % 8 == 0)
      invariant p.readType == 0 && p.readEnd == start + len
      invariant if left == 0 then p.state == Idle else p.state == Reading && p.readOffset == start + len - left
      invariant answers + Chunks(cells, p.base + start + len - left, left) == Chunks(cells, p.base + start, len)
      decreases left
    {
      ChunksStep(answers, cells, p.base + start + len - left, left);
      PollRead(p, other, start, len, left);
      answers := answers + [p.report[..]];
      if left <= 8 {
        NoChunks(cells, p.base + start + len - left + 8, p.base + start + len);
        left := 0;
      } else {
        left := left - 8;
      }
    }
    NoChunks(cells, p.base + start + len, p.base + start + len);
  }

  method ReadRange(p: Protocol, command: seq<bv8>, other: seq<bv8>, start: nat, len: nat)
    returns (answers: seq<seq<bv8>>)
    requires p.Valid() && p.state == Idle && |command| == 8 && command[0] == 2 && command[5] == 0
    requires Value(command[1]) + 256 * Value(command[2]) == start
    requires Value(command[3]) + 256 * Value(command[4]) == len
    requires Ends(start, len) && |other| == 8
    modifies p, p.report
    ensures p.Valid() && p.state == Idle
    ensures answers == Answers(command, p.flash.cells[..], p.base + start, len)
    ensures (0 < len && p.base + start + len <= p.flash.cells.Length ==>
              var data := Flatten(answers[1..]);
              len <= |data| && data[..len] == p.flash.cells[p.base + start..p.base + start + len])
  {
    hide Chunk, Wrap, Chunks, Flatten, Value, Ends;
    EndsInside(start, len);
    BeginRead(p, command, other, start, len);
    answers := [p.report[..]];
    if len == 0 {
      p.UcpTask(other);
      answers := answers + [p.report[..]];
      return;
    }
    var chunks := PollToEnd(p, other, start, len);
    answers := answers + chunks;
    AnswersCarry(command, p.flash.cells[..], p.base + start, len);
  }

  /** A READ of `len` bytes of flash at `start`, and polls until the interpreter is idle again: the
      command comes back, and then the range. */
  method Read(p: Protocol, command: seq<bv8>, other: seq<bv8>, start: nat, len: nat)
    returns (answers: seq<seq<bv8>>)
    requires p.Valid() && p.state == Idle && |command| == 8 && command[0] == 2 && command[5] == 0
    requires command[1] as nat == start % 256 && command[2] as nat == start / 256
    requires command[3] as nat == len % 256 && command[4] as nat == len / 256
    requires Ends(start, len) && |other| == 8
    modifies p, p.report
    ensures p.Valid() && p.state == Idle
    ensures answers == Answers(command, p.flash.cells[..], p.base + start, len)
    ensures (0 < len && p.base + start + len <= p.flash.cells.Length ==>
              var data := Flatten(answers[1..]);
              len <= |data| && data[..len] == p.flash.cells[p.base + start..p.base + start + len])
  {
    hide Chunks, Flatten, Value, Ends, Answers, Protocol.Valid;
    CommandNumbers(command, start, len);
    answers := ReadRange(p, command, other, start, len);
  }

  lemma AnswersCarry(command: seq<bv8>, cells: seq<bv8>, address: nat, len: nat)
    requires |command| == 8 && 0 < |cells| <= 0x1_0000 && len > 0
    ensures Answers(command, cells, address, len) == [command] + Chunks(cells, address, len)
    ensures (address + len <= |cells| ==>
              var data := Flatten(Answers(command, cells, address, len)[1..]);
              len <= |data| && data[..len] == cells[address..address + len])
  {
    hide Chunks, Flatten;
    assert Answers(command, cells, address, len)[1..] == Chunks(cells, address, len);
    if address + len <= |cells| {
      ChunksCarry(cells, address, len);
    }
  }

  lemma NoChunks(cells: seq<bv8>, a: nat, b: nat)
    requires 0 < |cells| <= 0x1_0000
    ensures Chunks(cells, a, 0) == [] == Chunks(cells, b, 0)
  {
  }

  /** What a completed WRITE took, a READ of the same range returns, after its echo. */
  method WriteThenRead(p: Protocol, command: seq<bv8>, start: nat, len: nat, events: seq<Event>,
                       readCommand: seq<bv8>, other: seq<bv8>)
    returns (answers: seq<seq<bv8>>)
    requires p.Valid() && p.state == Idle && |command| == 8 && command[0] == 3
    requires command[1] as nat == start % 256 && command[2] as nat == start / 256
    requires command[3] as nat == len % 256 && command[4] as nat == len / 256
    requires p.base + start + len <= p.flash.cells.Length && GoodEvents(events) && |other| == 8
    requires After(STARTED, len, events).status == Complete
    requires |readCommand| == 8 && readCommand[0] == 2 && readCommand[5] == 0 && readCommand[1..5] == command[1..5]
    modifies p, p.report, p.tempBuff, p.flash.cells, p.flash.buffer, p.flash`log
    ensures p.Valid() && p.state == Idle && answers != [] && answers[0] == readCommand
    ensures var data, taken := Flatten(answers[1..]), After(STARTED, len, events).taken;
      && len <= |data| && len <= |taken| && data[..len] == taken[..len]
      && p.flash.cells[..] == old(p.flash.cells[..])[..p.base + start] + taken[..len]
                            + old(p.flash.cells[..])[p.base + start + len..]
  {
    hide Next, After, Splice, Chunks, Flatten, StagedAt, Answers, Ends, Follows, Value;
    hide Protocol.Stored, Protocol.Counting;
    var u := Write(p, command, start, len, events, other);
    CompleteHasAll(STARTED, len, events);
    InsideEnds(p, start, len);
    SameNumbers(command, readCommand);
    answers := Read(p, readCommand, other, start, len);
  }

  lemma SameNumbers(a: seq<bv8>, b: seq<bv8>)
    requires |a| == |b| == 8 && a[1..5] == b[1..5]
    ensures a[1] == b[1] && a[2] == b[2] && a[3] == b[3] && a[4] == b[4]
  {
    assert forall i :: 0 <= i < 4 ==> a[1 + i] == a[1..5][i] == b[1..5][i];
  }

  lemma InsideEnds(p: Protocol, start: nat, len: nat)
    requires p.Valid() && p.base + start + len <= p.flash.cells.Length
    ensures Ends(start, len) && 0 < p.flash.cells.Length < 0x1_0000
  {
  }

  /** The host's usual way: each packet is polled for and programmed before the next one comes. */
  function InTurn(packets: seq<seq<bv8>>): (r: seq<Event>)
    ensures |r| == 3 * |packets|
  {
    if packets == [] then [] else [Packet(packets[0]), Poll, MainLoop] + InTurn(packets[1..])
  }

  lemma {:induction false} InTurnGood(packets: seq<seq<bv8>>)
    requires forall d :: d in packets ==> |d| == 8
    ensures GoodEvents(InTurn(packets))
  {
    if packets != [] {
      assert forall d :: d in packets[1..] ==> d in packets;
      InTurnGood(packets[1..]);
      var first := [Packet(packets[0]), Poll, MainLoop];
      assert packets[0] in packets;
      assert forall i :: 0 <= i < |InTurn(packets)| ==>
        InTurn(packets)[i] == if i < 3 then first[i] else InTurn(packets[1..])[i - 3];
    }
  }

  /** One packet, polled for and programmed. */
  lemma OnePacket(taken: seq<bv8>, packet: seq<bv8>, len: nat, rest: seq<Event>)
    requires |taken| < len
    ensures var more := taken + packet;
      After(Upload(None, None, taken, Open), len, [Packet(packet), Poll, MainLoop] + rest)
      == After(Upload(None, None, more, if |more| >= len then Complete else Open), len, rest)
  {
    var u := Upload(None, None, taken, Open);
    var events := [Packet(packet), Poll, MainLoop] + rest;
    assert events[1..] == [Poll, MainLoop] + rest && events[1..][1..] == [MainLoop] + rest;
    assert events[1..][1..][1..] == rest;
    var v := Next(u, len, Packet(packet));
    var w := Next(v, len, Poll);
    assert After(u, len, events) == After(v, len, events[1..]) == After(w, len, events[1..][1..]);
  }

  /** As many packets as the transfer wants make it complete, with all their bytes. */
  lemma {:induction false} StraightUpload(taken: seq<bv8>, packets: seq<seq<bv8>>, len: nat)
    requires packets != [] && forall d :: d in packets ==> |d| == 8
    requires |taken| + 8 * (|packets| - 1) < len <= |taken| + 8 * |packets|
    ensures After(Upload(None, None, taken, Open), len, InTurn(packets))
         == Upload(None, None, taken + Flatten(packets), Complete)
    decreases |packets|
  {
    hide After;
    assert packets[0] in packets && forall d :: d in packets[1..] ==> d in packets;
    OnePacket(taken, packets[0], len, InTurn(packets[1..]));
    assert taken + packets[0] + Flatten(packets[1..]) == taken + Flatten(packets);
    if |packets| == 1 {
      ClosedStays(Upload(None, None, taken + packets[0], Complete), len, []);
      assert Flatten(packets[1..]) == [];
    } else {
      StraightUpload(taken + packets[0], packets[1..], len);
    }
  }

  /** What the host uploads so, packet by packet, is in the flash, and is what it reads back. */
  method UploadThenRead(p: Protocol, command: seq<bv8>, start: nat, len: nat, packets: seq<seq<bv8>>,
                        readCommand: seq<bv8>, other: seq<bv8>)
    returns (answers: seq<seq<bv8>>)
    requires p.Valid() && p.state == Idle && |command| == 8 && command[0] == 3
    requires command[1] as nat == start % 256 && command[2] as nat == start / 256
    requires command[3] as nat == len % 256 && command[4] as nat == len / 256
    requires p.base + start + len <= p.flash.cells.Length && |other| == 8
    requires packets != [] && forall d :: d in packets ==> |d| == 8
    requires 8 * (|packets| - 1) < len <= 8 * |packets|
    requires |readCommand| == 8 && readCommand[0] == 2 && readCommand[5] == 0 && readCommand[1..5] == command[1..5]
    modifies p, p.report, p.tempBuff, p.flash.cells, p.flash.buffer, p.flash`log
    ensures p.Valid() && p.state == Idle && answers != [] && answers[0] == readCommand
    ensures len <= |Flatten(answers[1..])| && len <= |Flatten(packets)|
    ensures Flatten(answers[1..])[..len] == Flatten(packets)[..len]
    ensures p.flash.cells[..] == old(p.flash.cells[..])[..p.base + start] + Flatten(packets)[..len]
                               + old(p.flash.cells[..])[p.base + start + len..]
  {
    hide After, Flatten, InTurn, Protocol.Valid;
    InTurnGood(packets);
    StraightUpload([], packets, len);
    assert [] + Flatten(packets) == Flatten(packets);
    answers := WriteThenRead(p, command, start, len, InTurn(packets), readCommand, other);
  }

  /** After a completed WRITE the range holds what was taken. */
  lemma Programmed(p: Protocol, u: Upload, t: Transfer)
    requires Follows(p, u, t) && u.status == Complete && t.len <= |u.taken|
    ensures p.Valid() && p.state == Idle && p.base + t.start + t.len <= p.flash.cells.Length < 0x1_0000
    ensures p.flash.cells[p.base + t.start..p.base + t.start + t.len] == u.taken[..t.len]
  {
    hide StagedAt;
  }

  lemma OnlyTheRange(p: Protocol, u: Upload, t: Transfer)
    requires Follows(p, u, t)
    ensures var first, end := p.base + t.start, p.base + t.start + t.len;
      && end <= p.flash.cells.Length == |t.origin|
      && p.flash.cells[..] == t.origin[..first] + p.flash.cells[first..end] + t.origin[end..]
  {
    hide StagedAt, Flushed;
    var first := p.base + t.start;
    OutsideSplice(t.origin, first, Flushed(u, t.start, t.len), first + t.len);
  }

  lemma OutsideSplice(memory: seq<bv8>, start: nat, bytes: seq<bv8>, end: nat)
    requires start + |bytes| <= end <= |memory|
    ensures var r := Splice(memory, start, bytes); r == memory[..start] + r[start..end] + memory[end..]
  {
  }

  lemma {:induction false} CompleteHasAll(u: Upload, len: nat, events: seq<Event>)
    requires After(u, len, events).status == Complete
    requires u.status == Complete ==> 0 < len <= |u.taken|
    requires u.status == Open && u.ready.Some? ==> len > 0
    requires u.status == Open && u.waiting.Some? ==> len > 0
    ensures 0 < len <= |After(u, len, events).taken|
    decreases |events|
  {
    if events != [] {
      CompleteHasAll(Next(u, len, events[0]), len, events[1..]);
    }
  }
}
