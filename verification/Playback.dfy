/** Typing a credential: its fields are decrypted a block at a time, each stretch of text is
    queued as a string, and a state machine types one character after the other, asking for
    the next stretch when a string is used up. */
module Playback {
  import opened Flash
  import opened Noekeon
  import opened NoekeonAvr
  import opened Fields

  // ---------------------------------------------------------------- the decrypted record

  function CipherText(cells: seq<bv8>, encrypt: nat, p: nat): (r: seq<bv8>)
    requires 0 < |cells| <= 0x1_0000
    ensures |r| == 16
  {
    seq(16, j requires 0 <= j => CellAt(cells, encrypt + p + j))
  }

  function PlainText(cells: seq<bv8>, encrypt: nat, key: seq<bv8>, p: nat): (r: seq<bv8>)
    requires 0 < |cells| <= 0x1_0000 && |key| == 16
    ensures |r| == 16
  {
    BlockBytes(Decrypt(BlockAt(CipherText(cells, encrypt, p), 0), BlockAt(key, 0)))
  }

  /** The record's first 256 bytes: sixteen blocks. */
  function Record(cells: seq<bv8>, encrypt: nat, key: seq<bv8>): (r: seq<bv8>)
    requires 0 < |cells| <= 0x1_0000 && |key| == 16
    ensures |r| == 256
  {
    seq(256, i requires 0 <= i => PlainText(cells, encrypt, key, i - i % 16)[i % 16])
  }

  lemma RecordHoldsBlock(cells: seq<bv8>, encrypt: nat, key: seq<bv8>, q: nat)
    requires 0 < |cells| <= 0x1_0000 && |key| == 16 && q % 16 == 0
    ensures HoldsBlock(Record(cells, encrypt, key), q, PlainText(cells, encrypt, key, q % 256))
  {
    hide PlainText, BlockStart, Record;
    var s := BlockStart(q);
    assert s == q % 256;
    var block, record := PlainText(cells, encrypt, key, s), Record(cells, encrypt, key);
    forall j | 0 <= j < 16
      ensures record[s..s + 16][j] == block[j]
    {
      BlockIndex(s, j);
      RecordAt(cells, encrypt, key, s + j);
    }
  }

  lemma RecordAt(cells: seq<bv8>, encrypt: nat, key: seq<bv8>, i: nat)
    requires 0 < |cells| <= 0x1_0000 && |key| == 16 && i < 256
    ensures Record(cells, encrypt, key)[i] == PlainText(cells, encrypt, key, i - i % 16)[i % 16]
  {
    hide PlainText;
  }

  lemma BlockIndex(s: nat, j: nat)
    requires s % 16 == 0 && j < 16
    ensures (s + j) % 16 == j && (s + j) - (s + j) % 16 == s
  {
    assert s + j == 16 * (s / 16) + j;
  }

  /** The store holds a text under a key, block by block. */
  predicate Encrypts(cells: seq<bv8>, encrypt: nat, key: seq<bv8>, text: seq<bv8>)
    requires 0 < |cells| <= 0x1_0000 && |key| == 16 && |text| == 256
  {
    forall p :: 0 <= p < 256 && p % 16 == 0 ==>
      BlockAt(CipherText(cells, encrypt, p), 0) == Encrypt(BlockAt(text, p), BlockAt(key, 0))
  }

  /** So it does when the blocks of the text, encrypted, lie one behind the other from there on. */
  lemma StoredEncrypted(cells: seq<bv8>, encrypt: nat, key: seq<bv8>, text: seq<bv8>)
    requires |cells| <= 0x1_0000 && encrypt + 256 <= |cells| && |key| == 16 && |text| == 256
    requires forall n :: 0 <= n < 16 ==>
      BlockAt(cells, encrypt + 16 * n) == Encrypt(BlockAt(text, 16 * n), BlockAt(key, 0))
    ensures Encrypts(cells, encrypt, key, text)
  {
    hide BlockAt, Encrypt;
    forall p | 0 <= p < 256 && p % 16 == 0
      ensures BlockAt(CipherText(cells, encrypt, p), 0) == Encrypt(BlockAt(text, p), BlockAt(key, 0))
    {
      assert p == 16 * (p / 16);
      SameBytesSameBlock(cells, encrypt, p);
    }
  }

  lemma SameBytesSameBlock(cells: seq<bv8>, encrypt: nat, p: nat)
    requires |cells| <= 0x1_0000 && encrypt + p + 16 <= |cells|
    ensures BlockAt(CipherText(cells, encrypt, p), 0) == BlockAt(cells, encrypt + p)
  {
    hide NoekeonAvr.Word;
    forall j | 0 <= j < 16
      ensures CipherText(cells, encrypt, p)[j] == cells[encrypt + p + j]
    {
      assert CipherText(cells, encrypt, p)[j] == CellAt(cells, encrypt + p + j);
    }
  }

  /** Then the record is that text. */
  lemma RecordIsText(cells: seq<bv8>, encrypt: nat, key: seq<bv8>, text: seq<bv8>)
    requires 0 < |cells| <= 0x1_0000 && |key| == 16 && |text| == 256 && Encrypts(cells, encrypt, key, text)
    ensures Record(cells, encrypt, key) == text
  {
    hide CipherText, BlockAt, BlockBytes, Encrypt, Decrypt;
    var record := Record(cells, encrypt, key);
    forall i | 0 <= i < 256
      ensures record[i] == text[i]
    {
      var p := i - i % 16;
      BlockIndexOf(i);
      DecryptAfterEncrypt(BlockAt(text, p), BlockAt(key, 0));
      BlockBytesOfBlock(text, p);
      assert PlainText(cells, encrypt, key, p) == text[p..p + 16];
      assert text[p..p + 16][i % 16] == text[i];
    }
  }

  lemma BlockIndexOf(i: nat)
    requires i < 256
    ensures var p := i - i % 16; 0 <= p <= 240 && p % 16 == 0 && p + i % 16 == i
  {
  }

  // ---------------------------------------------------------------- the print queue

  const SLOTS: nat := 5
  const IDLE_KEY: bv8 := 0x16
  const BACKSPACE: bv8 := 0x08
  const DEBOUNCE: nat := 50

  /** strPtr: into the decrypted block, into another string in RAM, or into flash. */
  datatype Pointer = Block16(at: nat) | Text(text: seq<bv8>, at: nat) | InFlash(at: nat)

  datatype Kind = Free | Ram | Rom

  datatype Slot = Slot(kind: Kind, ptr: Pointer, len: nat, callback: bool)

  datatype Status = Init | Pressed | Released | Idle | Delete | DeletePressed

  /** The report the host reads. */
  datatype Report = Report(modifier: bv8, keycode: bv8)

  const UP: Report := Report(0, 0)

  const SHIFT_MASK: bv8 := 0x80
  const ALTGR_MASK: bv8 := 0x40
  const KEY_EUROPE_2: bv8 := 0x3A
  const KEY_EUROPE_2_ORG: bv8 := 0x64

  /** What print_pressKey makes of an entry of the key table. */
  function ReportOf(key: bv8): Report {
    var code := key & 0x3F;
    Report(((key & SHIFT_MASK) >> 6) | (key & ALTGR_MASK), if code == KEY_EUROPE_2 then KEY_EUROPE_2_ORG else code)
  }

  lemma KeyParts(key: bv8)
    ensures SHIFT_MASK & key == key & SHIFT_MASK && ALTGR_MASK & key == key & ALTGR_MASK
  {
  }

  /** What a report must say of an entry: left shift is down for bit 7, right alt for bit 6, and no
      other modifier; the key is the entry's low six bits, but for the one code stored as another. */
  predicate Strikes(report: Report, key: bv8) {
    && (report.modifier & 0x02 != 0 <==> key & 0x80 != 0) && (report.modifier & 0x40 != 0 <==> key & 0x40 != 0)
    && report.modifier & 0xBD == 0 && report.keycode == if key & 0x3F == 0x3A then 0x64 else key & 0x3F
  }

  /** That is one report only, the one print_pressKey makes. */
  lemma StrikesExactly(report: Report, key: bv8)
    ensures Strikes(report, key) <==> report == ReportOf(key)
  {
  }

  /** Only the entry 0 is no key. */
  lemma NoKey(key: bv8)
    ensures ReportOf(key) == UP <==> key == 0
  {
  }

  /** The keys the host sees go down when these characters are pressed one by one. */
  function Shown(lut: bv8 -> bv8, s: seq<bv8>): (r: seq<Report>) {
    if s == [] then []
    else Shown(lut, s[..|s| - 1]) + if lut(s[|s| - 1]) != 0 then [ReportOf(lut(s[|s| - 1]))] else []
  }

  lemma ShownOne(lut: bv8 -> bv8, s: seq<bv8>, c: bv8)
    ensures Shown(lut, s + [c]) == Shown(lut, s) + if lut(c) != 0 then [ReportOf(lut(c))] else []
  {
    assert (s + [c])[..|s|] == s;
  }

  lemma {:induction false} ShownAppend(lut: bv8 -> bv8, s: seq<bv8>, t: seq<bv8>)
    ensures Shown(lut, s + t) == Shown(lut, s) + Shown(lut, t)
  {
    hide Shown, ReportOf;
    if t == [] {
      assert s + t == s;
      ShownNothing(lut);
    } else {
      var u, c := t[..|t| - 1], t[|t| - 1];
      ShownAppend(lut, s, u);
      assert t == u + [c] && s + t == s + u + [c];
      ShownOne(lut, u, c);
      ShownOne(lut, s + u, c);
    }
  }

  lemma ShownNothing(lut: bv8 -> bv8)
    ensures Shown(lut, []) == []
  {
  }

  /** The characters that have a key. */
  function Visible(lut: bv8 -> bv8, s: seq<bv8>): (r: seq<bv8>) {
    if s == [] then [] else Visible(lut, s[..|s| - 1]) + if lut(s[|s| - 1]) != 0 then [s[|s| - 1]] else []
  }

  lemma {:induction false} VisibleAll(lut: bv8 -> bv8, s: seq<bv8>)
    requires forall c :: c in s ==> lut(c) != 0
    ensures Visible(lut, s) == s
  {
    hide Visible;
    if s == [] {
      VisibleNone(lut);
    } else {
      var u, c := s[..|s| - 1], s[|s| - 1];
      assert s == u + [c] && c in s && forall d :: d in u ==> d in s;
      VisibleAll(lut, u);
      VisibleOne(lut, u, c);
    }
  }

  lemma VisibleNone(lut: bv8 -> bv8)
    ensures Visible(lut, []) == []
  {
  }

  lemma VisibleOne(lut: bv8 -> bv8, s: seq<bv8>, c: bv8)
    ensures Visible(lut, s + [c]) == Visible(lut, s) + if lut(c) != 0 then [c] else []
  {
    assert (s + [c])[..|s|] == s;
  }

  /** What the host sees of them, key by key. */
  lemma {:induction false} ShownStrikes(lut: bv8 -> bv8, s: seq<bv8>)
    ensures |Shown(lut, s)| == |Visible(lut, s)|
    ensures forall i :: 0 <= i < |Shown(lut, s)| ==> Strikes(Shown(lut, s)[i], lut(Visible(lut, s)[i]))
  {
    hide ReportOf, Strikes, Shown, Visible;
    if s == [] {
      ShownNothing(lut);
      VisibleNone(lut);
    } else {
      var u, c := s[..|s| - 1], s[|s| - 1];
      assert s == u + [c];
      ShownStrikes(lut, u);
      ShownOne(lut, u, c);
      VisibleOne(lut, u, c);
      StrikesExactly(ReportOf(lut(c)), lut(c));
    }
  }

  /** The first free slot from the k'th after the current one on, or SLOTS. */
  function FreeFrom(slots: seq<Slot>, act: nat, k: nat): (r: nat)
    requires |slots| == SLOTS && k <= SLOTS
    ensures k <= r <= SLOTS && (r < SLOTS ==> slots[(act + r) % SLOTS].kind == Free)
    decreases SLOTS - k
  {
    if k == SLOTS || slots[(act + k) % SLOTS].kind == Free then k else FreeFrom(slots, act, k + 1)
  }

  /** A string is queued in the first free slot, and lost when there is none. */
  function Queued(slots: seq<Slot>, act: nat, s: Slot): (r: seq<Slot>)
    requires |slots| == SLOTS
    ensures |r| == SLOTS
  {
    var k := FreeFrom(slots, act, 0);
    if k < SLOTS then slots[(act + k) % SLOTS := s] else slots
  }

  lemma QueuedHere(slots: seq<Slot>, act: nat, s: Slot)
    requires |slots| == SLOTS && act < SLOTS && slots[act].kind == Free
    ensures Queued(slots, act, s) == slots[act := s]
  {
  }

  lemma AllTaken(slots: seq<Slot>, act: nat, k: nat)
    requires |slots| == SLOTS && act < SLOTS && FreeFrom(slots, act, 0) == SLOTS
    ensures slots[(act + k) % SLOTS].kind != Free
  {
    assert FreeFrom(slots, act, 0) == FreeFrom(slots, act, 1) == FreeFrom(slots, act, 2)
        == FreeFrom(slots, act, 3) == FreeFrom(slots, act, 4) == FreeFrom(slots, act, 5);
    var i := (act + k) % SLOTS;
    var j := (i + SLOTS - act) % SLOTS;
    assert (act + j) % SLOTS == i && (j == 0 || j == 1 || j == 2 || j == 3 || j == 4);
  }

  /** The search has come to the cont'th slot. */
  predicate Searched(slots: seq<Slot>, act: nat, cont: nat)
    requires |slots| == SLOTS
  {
    FreeFrom(slots, act, 0) == if cont <= SLOTS then FreeFrom(slots, act, cont) else SLOTS
  }

  lemma SearchStep(slots: seq<Slot>, act: nat, cont: nat, s: Slot)
    requires |slots| == SLOTS && act < SLOTS && Searched(slots, act, cont)
    ensures (if slots[(act + cont) % SLOTS].kind == Free
             then Queued(slots, act, s) == slots[(act + cont) % SLOTS := s]
             else Searched(slots, act, cont + 1))
    ensures cont >= SLOTS ==> Queued(slots, act, s) == slots
  {
    if cont >= SLOTS {
      AllTaken(slots, act, cont);
    }
  }

  // ---------------------------------------------------------------- what is typed

  function NonNul(s: seq<bv8>): (r: seq<bv8>) {
    if s == [] then [] else NonNul(s[..|s| - 1]) + if s[|s| - 1] != 0 then [s[|s| - 1]] else []
  }

  /** The keys pressed for a list of characters: all but the pauses. */
  function Keys(s: seq<bv8>): (r: seq<bv8>) {
    if s == [] then [] else Keys(s[..|s| - 1]) + if s[|s| - 1] != IDLE_KEY then [s[|s| - 1]] else []
  }

  lemma NonNulOne(s: seq<bv8>, c: bv8)
    ensures NonNul(s + [c]) == NonNul(s) + if c != 0 then [c] else []
    ensures Keys(s + [c]) == Keys(s) + if c != IDLE_KEY then [c] else []
  {
    assert (s + [c])[..|s|] == s;
  }

  /** A NUL counts as a key. */
  lemma {:induction false} KeysCount(s: seq<bv8>)
    ensures |Keys(s)| == |Keys(NonNul(s))| + |s| - |NonNul(s)|
  {
    hide Keys, NonNul;
    if s == [] {
      NoKeys();
    } else {
      var u, c := s[..|s| - 1], s[|s| - 1];
      KeysCount(u);
      assert s == u + [c];
      NonNulOne(u, c);
      NonNulOne(NonNul(u), c);
      assert NonNul(u) + [] == NonNul(u);
    }
  }

  /** Where every character has a key and none asks for a pause, each is a key the host sees. */
  lemma {:induction false} PlainKeys(lut: bv8 -> bv8, s: seq<bv8>)
    requires forall c :: c in s ==> c != 0x16 && lut(c) != 0
    ensures Keys(s) == s && Visible(lut, s) == s
  {
    hide Keys, Visible, NonNul;
    VisibleAll(lut, s);
    if s == [] {
      NoKeys();
    } else {
      var u, c := s[..|s| - 1], s[|s| - 1];
      assert s == u + [c] && c in s && forall d :: d in u ==> d in s;
      PlainKeys(lut, u);
      NonNulOne(u, c);
    }
  }

  lemma NoKeys()
    ensures Keys([]) == [] && NonNul([]) == []
  {
  }

  /** But where the table has none for it, the host does not see it. */
  lemma {:induction false} ShownKeys(lut: bv8 -> bv8, s: seq<bv8>)
    requires lut(0) == 0
    ensures Shown(lut, Keys(s)) == Shown(lut, Keys(NonNul(s)))
  {
    hide Keys, NonNul, Shown, ReportOf;
    if s == [] {
      NoKeys();
    } else {
      var u, c := s[..|s| - 1], s[|s| - 1];
      ShownKeys(lut, u);
      assert s == u + [c];
      NonNulOne(u, c);
      NonNulOne(NonNul(u), c);
      assert NonNul(u) + [] == NonNul(u) && Keys(u) + [] == Keys(u) && Keys(NonNul(u)) + [] == Keys(NonNul(u));
      ShownOne(lut, Keys(u), c);
      ShownOne(lut, Keys(NonNul(u)), c);
    }
  }

  lemma {:induction false} NonNulText(s: seq<bv8>)
    requires 0 !in s
    ensures NonNul(s) == s
  {
    if s != [] {
      NonNulText(s[..|s| - 1]);
    }
  }

  lemma {:induction false} NonNulAppend(s: seq<bv8>, t: seq<bv8>)
    ensures NonNul(s + t) == NonNul(s) + NonNul(t)
  {
    hide NonNul, Keys;
    if t == [] {
      assert s + t == s;
      NonNulText(t);
    } else {
      var u, c := t[..|t| - 1], t[|t| - 1];
      NonNulAppend(s, u);
      assert t == u + [c] && s + t == s + u + [c];
      NonNulOne(u, c);
      NonNulOne(s + u, c);
    }
  }

  /** A character leaves the waiting text and joins those consumed. */
  lemma NonNulMoves(s: seq<bv8>, t: seq<bv8>)
    requires t != []
    ensures NonNul(s + [t[0]]) + NonNul(t[1..]) == NonNul(s) + NonNul(t)
  {
    hide NonNul;
    assert t == [t[0]] + t[1..];
    NonNulAppend([t[0]], t[1..]);
    NonNulAppend(s, [t[0]]);
  }

  function Backspaces(n: nat): (r: seq<bv8>)
    ensures |r| == n && forall i :: 0 <= i < n ==> r[i] == 0x08
  {
    seq(n, _ => BACKSPACE)
  }

  lemma OneBackspace(n: nat)
    ensures Backspaces(n) + [BACKSPACE] == Backspaces(n + 1)
  {
  }

  /** A character has been taken but not yet counted off. */
  predicate Taken(status: Status) {
    status == Pressed || status == Idle
  }

  /** How many characters of a slot have not been taken. */
  function Left(s: Slot, status: Status): (n: nat)
    requires Taken(status) ==> s.len > 0
  {
    if Taken(status) then s.len - 1 else s.len
  }

  /** The slot asks for more when it is used up, and its text is in bounds. */
  predicate GoodSlot(s: Slot, status: Status) {
    && s.kind == Ram && s.callback && (Taken(status) ==> s.len > 0)
    && match s.ptr
       case Block16(at) => at + Left(s, status) <= 16
       case Text(text, at) => text == [0] && at + Left(s, status) == 1
       case InFlash(_) => false
  }

  /** The characters not taken. */
  function Waiting(s: Slot, status: Status, block: seq<bv8>): (r: seq<bv8>)
    requires GoodSlot(s, status) && |block| == 16
    ensures |r| == Left(s, status)
  {
    match s.ptr
    case Block16(at) => block[at..at + Left(s, status)]
    case Text(text, at) => text[at..at + Left(s, status)]
  }

  lemma CountedOff(s: Slot, status: Status, block: seq<bv8>)
    requires GoodSlot(s, status) && |block| == 16 && Taken(status)
    ensures s.len > 0 && var t := s.(len := s.len - 1);
      GoodSlot(t, Released) && Waiting(t, Released, block) == Waiting(s, status, block)
  {
  }

  lemma SameWaiting(s: Slot, status: Status, status': Status, block: seq<bv8>)
    requires GoodSlot(s, status) && |block| == 16 && Taken(status) == Taken(status')
    ensures GoodSlot(s, status') && Waiting(s, status', block) == Waiting(s, status, block)
  {
  }

  /** What an earlier string leaves: keys still to erase, and the counter if no key follows. */
  datatype Debt = Debt(erase: nat, stale: nat)

  /** Keyboard, report and deletion counter go together; what is left to delete of an earlier
      string comes before the keys of this one. */
  predicate Hands(status: Status, key: Report, eos: bool, cCount: nat, consumed: seq<bv8>, presses: seq<bv8>,
                  debt: Debt)
  {
    && (status != Pressed && status != DeletePressed ==> key == UP)
    && (eos <==> Keys(consumed) == [])
    && if status == Delete || status == DeletePressed then
         && eos && consumed == [] && debt.stale == 0
         && |presses| + cCount == debt.erase && presses == Backspaces(|presses|)
       else
         && presses == Backspaces(debt.erase) + Keys(consumed)
         && cCount == if Keys(consumed) == [] then debt.stale else |Keys(consumed)| % 256
  }

  /** A key goes up, a pause begins, or one ends. */
  lemma HandsUp(status: Status, key: Report, eos: bool, cCount: nat, consumed: seq<bv8>, presses: seq<bv8>,
                debt: Debt, status': Status)
    requires Hands(status, key, eos, cCount, consumed, presses, debt)
    requires status' != Pressed && status' != DeletePressed
    requires (status == Delete || status == DeletePressed) == (status' == Delete)
    ensures Hands(status', UP, eos, cCount, consumed, presses, debt)
    ensures status != Pressed && status != DeletePressed ==> key == UP
  {
  }

  lemma HandsErase(key: Report, eos: bool, cCount: nat, consumed: seq<bv8>, presses: seq<bv8>, debt: Debt, down: Report)
    requires Hands(Delete, key, eos, cCount, consumed, presses, debt) && cCount > 0
    ensures Hands(DeletePressed, down, eos, cCount - 1, consumed, presses + [BACKSPACE], debt)
  {
    hide Backspaces;
    OneBackspace(|presses|);
  }

  lemma HandsErased(key: Report, eos: bool, consumed: seq<bv8>, presses: seq<bv8>, debt: Debt)
    requires Hands(Delete, key, eos, 0, consumed, presses, debt)
    ensures eos && Hands(Released, UP, eos, 0, consumed, presses, debt)
  {
    assert Backspaces(debt.erase) + Keys([]) == Backspaces(debt.erase);
  }

  /** A character is typed, or asks for a pause. */
  lemma HandsType(key: Report, eos: bool, cCount: nat, consumed: seq<bv8>, presses: seq<bv8>, debt: Debt,
                 c: bv8, down: Report)
    requires Hands(Released, key, eos, cCount, consumed, presses, debt)
    ensures key == UP
    ensures (if c == IDLE_KEY then Hands(Idle, UP, eos, cCount, consumed + [c], presses, debt)
             else Hands(Pressed, down, false, if eos then 1 else (cCount + 1) % 256,
                        consumed + [c], presses + [c], debt))
  {
    hide Hands, Backspaces, Keys;
    HandsKeys(Released, key, eos, cCount, consumed, presses, debt);
    NonNulOne(consumed, c);
    var k := Keys(consumed);
    assert Backspaces(debt.erase) + (k + [c]) == Backspaces(debt.erase) + k + [c];
    OneMoreKey(|k|);
    if c == IDLE_KEY {
      HandsAre(Idle, UP, eos, cCount, consumed + [c], presses, debt);
    } else {
      HandsAre(Pressed, down, false, if eos then 1 else (cCount + 1) % 256, consumed + [c], presses + [c], debt);
    }
  }

  lemma OneMoreKey(n: nat)
    ensures (n % 256 + 1) % 256 == (n + 1) % 256
  {
    assert n + 1 == 256 * (n / 256) + (n % 256 + 1);
  }

  lemma HandsKeys(status: Status, key: Report, eos: bool, cCount: nat, consumed: seq<bv8>, presses: seq<bv8>,
                  debt: Debt)
    requires Hands(status, key, eos, cCount, consumed, presses, debt) && status == Released
    ensures key == UP && presses == Backspaces(debt.erase) + Keys(consumed)
    ensures eos <==> Keys(consumed) == []
    ensures cCount == if eos then debt.stale else |Keys(consumed)| % 256
  {
  }

  lemma HandsAre(status: Status, key: Report, eos: bool, cCount: nat, consumed: seq<bv8>, presses: seq<bv8>,
                 debt: Debt)
    requires status == Pressed || (status == Idle && key == UP)
    requires presses == Backspaces(debt.erase) + Keys(consumed)
    requires eos <==> Keys(consumed) == []
    requires cCount == if eos then debt.stale else |Keys(consumed)| % 256
    ensures Hands(status, key, eos, cCount, consumed, presses, debt)
  {
  }

  function Following(p: Pointer): Pointer {
    p.(at := p.at + 1)
  }

  /** A slot one character further on, and one with a character less to count. */
  function Passed(s: Slot): Slot {
    s.(ptr := Following(s.ptr))
  }

  function CountedSlot(s: Slot): Slot {
    if s.len > 0 then s.(len := s.len - 1) else s
  }

  /** Taking a character of a slot. */
  lemma CharTaken(s: Slot, block: seq<bv8>, status: Status)
    requires GoodSlot(s, Released) && |block| == 16 && s.len > 0 && Taken(status)
    ensures Waiting(s, Released, block) != []
    ensures var t := s.(ptr := Following(s.ptr));
      GoodSlot(t, status) && Waiting(t, status, block) == Waiting(s, Released, block)[1..]
    ensures Waiting(s, Released, block)[0]
         == match s.ptr case Block16(at) => if at < 16 then block[at] else 0 case _ => 0
  {
  }

  /** The slot that one call of CRD_apply fills. */
  function Stretch(counter: nat, start: nat, bp: nat, size: nat): Slot {
    if counter >= start && size != 0 then Slot(Ram, Block16(bp), size, true) else Slot(Ram, Text([0], 0), 1, true)
  }

  /** Characters taken or waiting up to byte q: the wanted ones and the NULs queued. */
  predicate Accounted(plain: seq<bv8>, a: nat, q: nat, taken: nat)
    requires |plain| == 256
  {
    taken == |Typed(plain, a, q)| + Blanks(plain, a, q) && StartsCall(plain, q)
  }

  /** What was taken and what waits are together the wanted characters up to byte q, but for the
      NULs queued. */
  predicate Joined(plain: seq<bv8>, a: nat, q: nat, taken: seq<bv8>, waiting: seq<bv8>)
    requires |plain| == 256
  {
    && NonNul(taken) + NonNul(waiting) == Typed(plain, a, q)
    && Accounted(plain, a, q, |taken| + |waiting|)
  }

  lemma JoinedMoves(plain: seq<bv8>, a: nat, q: nat, taken: seq<bv8>, waiting: seq<bv8>)
    requires |plain| == 256 && waiting != [] && Joined(plain, a, q, taken, waiting)
    ensures Joined(plain, a, q, taken + [waiting[0]], waiting[1..])
  {
    hide NonNul, Typed, Accounted;
    NonNulMoves(taken, waiting);
    assert |taken + [waiting[0]]| + |waiting[1..]| == |taken| + |waiting|;
  }

  lemma JoinedAll(plain: seq<bv8>, a: nat, q: nat, taken: seq<bv8>)
    requires |plain| == 256
    ensures Joined(plain, a, q, taken, []) <==> NonNul(taken) == Typed(plain, a, q) && Accounted(plain, a, q, |taken|)
  {
    hide Typed, Accounted;
    assert NonNul(taken) + NonNul([]) == NonNul(taken);
  }

  /** It holds the wanted characters from there to the next NUL or the end of the block. */
  lemma StretchTypes(plain: seq<bv8>, a: nat, q: nat, block: seq<bv8>, taken: seq<bv8>)
    requires |plain| == 256 && |block| == 16 && HoldsBlock(plain, q, block) && Joined(plain, a, q, taken, [])
    ensures var n, r := TextLength(block, q % 16), AfterText(block, q);
      var s := Stretch(Nuls(plain, q), a, q % 16, n);
      && GoodSlot(s, Released)
      && Joined(plain, a, r, taken, Waiting(s, Released, block))
      && (r % 16 != 0 ==> HoldsBlock(plain, r, block))
  {
    hide Typed, Nuls, HoldsBlock, NonNul, TextLength, Blanks, StartsCall;
    var at, n, r := q % 16, TextLength(block, q % 16), AfterText(block, q);
    JoinedAll(plain, a, q, taken);
    TypesText(plain, a, q, block);
    BlanksText(plain, a, q, block);
    StretchWaits(Nuls(plain, q), a, at, n, block);
    if r % 16 != 0 {
      SameBlockStart(q, r);
      BlockKept(plain, q, r, block);
    }
  }

  lemma StretchWaits(counter: nat, start: nat, at: nat, n: nat, block: seq<bv8>)
    requires |block| == 16 && at + n <= 16 && 0 !in block[at..at + n]
    ensures var s := Stretch(counter, start, at, n);
      && GoodSlot(s, Released)
      && |Waiting(s, Released, block)| == (if counter >= start && n != 0 then n else 1)
      && NonNul(Waiting(s, Released, block)) == if counter >= start then block[at..at + n] else []
  {
    hide NonNul;
    NonNulText(block[at..at + n]);
    var nothing: seq<bv8> := [];
    NonNulOne(nothing, 0);
    NonNulText(nothing);
    assert nothing + [0] == [0];
    var s := Stretch(counter, start, at, n);
    if s.ptr.Text? {
      assert Waiting(s, Released, block) == [0];
    }
  }

  lemma SameBlockStart(q: nat, r: nat)
    requires q < r <= q - q % 16 + 16 && r % 16 != 0
    ensures BlockStart(r) == BlockStart(q)
  {
    hide BlockStart;
    assert r < q - q % 16 + 16 by {
      assert q - q % 16 + 16 == 16 * (q / 16 + 1);
    }
    InBlock(q, r - q);
    assert r % 16 == q % 16 + (r - q) by {
      assert r == 16 * (q / 16) + (q % 16 + (r - q));
    }
  }

  lemma BlockKept(plain: seq<bv8>, q: nat, r: nat, block: seq<bv8>)
    requires |plain| == 256 && HoldsBlock(plain, q, block) && BlockStart(r) == BlockStart(q)
    ensures HoldsBlock(plain, r, block)
  {
  }

  // ---------------------------------------------------------------- print.c and crd.c

  class Typist {
    const flash: Memory
    const cipher: array<bv8>      // plain, then key
    const strBuf: array<Slot>
    const lut: bv8 -> bv8         // the key table, and what lies behind it
    var encrypt: nat              // address of the current credential's fields
    var actString: nat
    var cCount: nat
    var eos: bool
    var debounceCount: nat
    var kbdStatus: Status
    var reportBuffer: Report
    var position: nat
    var counter: nat
    var crdStart: nat
    var crdStop: nat

    ghost var consumed: seq<bv8>  // characters taken since the last credential was started
    ghost var reached: nat        // position, without the wrap
    ghost var presses: seq<bv8>   // keys pressed since then
    ghost var debt: Debt          // what the string before left
    ghost var strokes: seq<Report>  // keys the host saw going down since then
    ghost var seen: Report        // the host's last report

    ghost predicate Shape()
      reads this`encrypt, this`actString, this`cCount, this`debounceCount, this`position, this`counter
      reads this`crdStart, this`crdStop, strBuf
    {
      && 0 < flash.cells.Length <= 0x1_0000 && cipher.Length == 32 && strBuf.Length == SLOTS
      && cipher != flash.cells && strBuf as object != cipher && strBuf as object != flash.cells
      && encrypt < 0x1_0000
      && actString < SLOTS && cCount < 256 && debounceCount <= DEBOUNCE
      && position < 256 && counter < 256 && crdStart < 256 && crdStop < 256
      && forall i :: 0 <= i < SLOTS ==> strBuf[i].len < 256
    }

    constructor (flash: Memory, lut: bv8 -> bv8)
      requires flash.Valid()
      ensures Shape() && this.flash == flash && this.lut == lut && fresh(cipher) && fresh(strBuf)
      ensures kbdStatus == Init && reportBuffer == UP && seen == UP
      ensures forall i :: 0 <= i < SLOTS ==> strBuf[i].kind == Free
    {
      this.flash, this.lut := flash, lut;
      cipher, strBuf := new bv8[32](_ => 0), new Slot[SLOTS](_ => Slot(Free, Text([], 0), 0, false));
      encrypt, actString, cCount, eos, debounceCount, kbdStatus, reportBuffer := 0, 0, 0, false, 0, Init, UP;
      position, counter, crdStart, crdStop := 0, 0, 0, 0;
      consumed, reached, presses, debt, strokes, seen := [], 0, [], Debt(0, 0), [], UP;
    }

    /** A character of a string, NUL where the string's memory is not modelled. */
    function CharAt(p: Pointer): bv8
      requires cipher.Length == 32 && 0 < flash.cells.Length <= 0x1_0000
      reads cipher, flash.cells
    {
      match p
      case Block16(at) => if at < 32 then cipher[at] else 0
      case Text(text, at) => if at < |text| then text[at] else 0
      case InFlash(at) => CellAt(flash.cells[..], at)
    }

    /** print: the search goes round the ring five times before it gives up. */
    method Print(ptr: Pointer, kind: Kind, len: nat)
      requires Shape() && kind != Free && len < 256
      modifies strBuf
      ensures Shape()
      ensures strBuf[..] == Queued(old(strBuf[..]), actString, Slot(kind, ptr, len, len != 0))
    {
      hide Queued, Searched;
      ghost var slots, s := strBuf[..], Slot(kind, ptr, len, len != 0);
      SearchStart(slots);
      var cont: nat := 0;
      while cont < 25
        invariant cont <= 25 && strBuf[..] == slots && Searched(slots, actString, cont)
      {
        SearchStep(slots, actString, cont, s);
        var index := (actString + cont) % SLOTS;
        if strBuf[index].kind == Free {
          strBuf[index] := Slot(kind, ptr, len, len != 0);
          return;
        }
        cont := cont + 1;
      }
      SearchStep(slots, actString, cont, s);
    }

    lemma SearchStart(slots: seq<Slot>)
      requires |slots| == SLOTS
      ensures Searched(slots, actString, 0)
    {
    }

    /** memcpy_P of a block and its decryption. */
    method LoadBlock()
      requires Shape()
      modifies cipher
      ensures cipher[..16] == PlainText(flash.cells[..], encrypt, old(cipher[16..]), position)
      ensures cipher[16..] == old(cipher[16..])
    {
      hide CellAt, BlockAt, BlockBytes, Decrypt;
      ghost var key, text := cipher[16..], CipherText(flash.cells[..], encrypt, position);
      var j := 0;
      while j < 16
        invariant j <= 16 && cipher[16..] == key && cipher[..j] == text[..j]
      {
        cipher[j] := CellAt(flash.cells[..], encrypt + position + j);
        j := j + 1;
      }
      SameBlock(cipher[..], 0, text, 0);
      SameBlock(cipher[..], 16, key, 0);
      DecryptInPlace(cipher);
      BlockBytesOfBlock(cipher[..], 0);
    }

    /** Where the next NUL is, or the end. */
    method CrdFind(start: nat, len: nat) returns (i: nat)
      requires cipher.Length == 32 && start + len == 16
      ensures i == TextLength(cipher[..16], start) && i <= len
    {
      i := 0;
      while i < len
        invariant i <= len && TextLength(cipher[..16], start) == i + TextLength(cipher[..16], start + i)
      {
        if cipher[start + i] == 0 {
          break;
        }
        i := i + 1;
      }
    }

    /** The block CRD_apply works on. */
    ghost function CurrentBlock(): (r: seq<bv8>)
      requires 0 < flash.cells.Length <= 0x1_0000 && cipher.Length == 32
      reads this`encrypt, this`position, cipher, flash.cells
      ensures |r| == 16
    {
      if position % 16 == 0 then PlainText(flash.cells[..], encrypt, cipher[16..], position) else cipher[..16]
    }

    /** CRD_apply. Past the last field wanted it does nothing. Otherwise it queues the text up
        to the next NUL or the end of the block, and moves past it; a NUL stands for the text of
        a field to skip, and for no text. */
    method CrdApply()
      requires Shape()
      modifies this`position, this`counter, this`reached, cipher, strBuf
      ensures Shape() && cipher[16..] == old(cipher[16..])
      ensures (old(counter) >= crdStop ==>
                && cipher[..] == old(cipher[..]) && strBuf[..] == old(strBuf[..])
                && position == old(position) && counter == old(counter) && reached == old(reached))
      ensures (old(counter) < crdStop ==>
                var bp, n := old(position) % 16, TextLength(old(CurrentBlock()), old(position) % 16);
                && cipher[..16] == old(CurrentBlock())
                && strBuf[..] == Queued(old(strBuf[..]), actString, Stretch(old(counter), crdStart, bp, n))
                && counter == old(counter) + (if n < 16 - bp then 1 else 0)
                && position == (old(position) + n + (if n < 16 - bp then 1 else 0)) % 256
                && reached == old(reached) + n + (if n < 16 - bp then 1 else 0))
    {
      hide PlainText, Queued, TextLength;
      if counter >= crdStop {
        return;
      }
      var buffpos := position % 16;
      var pending := 16 - buffpos;
      Fetch(buffpos);
      var size := CrdFind(buffpos, pending);
      QueueStretch(buffpos, size);
      Advance(size, pending);
    }

    /** A block is decrypted only when the one before it is used up. */
    method Fetch(buffpos: nat)
      requires Shape() && buffpos == position % 16
      modifies cipher
      ensures Shape() && cipher[..16] == old(CurrentBlock()) && cipher[16..] == old(cipher[16..])
    {
      hide PlainText;
      if buffpos == 0 {
        LoadBlock();
      }
    }

    method QueueStretch(buffpos: nat, size: nat)
      requires Shape() && size <= 16
      modifies strBuf
      ensures Shape() && strBuf[..] == Queued(old(strBuf[..]), actString, Stretch(counter, crdStart, buffpos, size))
    {
      hide Queued;
      if counter >= crdStart && size != 0 {
        Print(Block16(buffpos), Ram, size);
      } else {
        Print(Text([0], 0), Ram, 1);
      }
    }

    method Advance(size: nat, pending: nat)
      requires Shape() && size <= pending <= 16 && counter < crdStop
      modifies this`position, this`counter, this`reached
      ensures Shape()
      ensures var step := if size < pending then 1 else 0;
        && counter == old(counter) + step
        && position == (old(position) + size + step) % 256
        && reached == old(reached) + size + step
    {
      reached := reached + size;
      if size < pending {
        counter := (counter + 1) % 256;
        position := (position + 1) % 256;
        reached := reached + 1;
      }
      position := (position + size) % 256;
    }

    // ------------------------------------------------------------ the invariant of playback

    /** Position and counter are where they should be, and the block too. */
    ghost predicate Reading(plain: seq<bv8>)
      requires |plain| == 256
      reads this`encrypt, this`position, this`counter, this`reached, cipher, flash.cells
    {
      && 0 < flash.cells.Length <= 0x1_0000 && cipher.Length == 32
      && plain == Record(flash.cells[..], encrypt, cipher[16..])
      && position == reached % 256 && counter == Nuls(plain, reached)
      && (reached % 16 != 0 ==> HoldsBlock(plain, reached, cipher[..16]))
    }

    /** The other slots are free. */
    ghost predicate Alone()
      requires strBuf.Length == SLOTS
      reads this`actString, strBuf
    {
      forall i :: 0 <= i < SLOTS && i != actString ==> strBuf[i].kind == Free
    }

    /** What was typed and what waits are together the wanted characters up to here. */
    ghost predicate Playing(plain: seq<bv8>)
      requires |plain| == 256
      reads this`encrypt, this`actString, this`cCount, this`debounceCount, this`position, this`counter
      reads this`crdStart, this`crdStop, this`reached, this`consumed, this`presses, this`debt
      reads this`kbdStatus, this`reportBuffer, this`eos, strBuf, cipher, flash.cells
    {
      && Shape() && Alone() && Reading(plain) && GoodSlot(strBuf[actString], kbdStatus)
      && Hands(kbdStatus, reportBuffer, eos, cCount, consumed, presses, debt)
      && Joined(plain, crdStart, reached, consumed, Waiting(strBuf[actString], kbdStatus, cipher[..16]))
    }

    /** Everything wanted was typed; the slots are free again. */
    ghost predicate Finished(plain: seq<bv8>)
      requires |plain| == 256
      reads this`encrypt, this`actString, this`cCount, this`debounceCount, this`position, this`counter
      reads this`crdStart, this`crdStop, this`reached, this`consumed, this`presses, this`debt
      reads this`kbdStatus, this`reportBuffer, this`eos, strBuf
    {
      && Shape() && Alone() && strBuf[actString].kind == Free && kbdStatus == Released
      && eos && reportBuffer == UP && counter >= crdStop && counter == Nuls(plain, reached)
      && Joined(plain, crdStart, reached, consumed, [])
      && presses == Backspaces(debt.erase) + Keys(consumed)
      && cCount == if Keys(consumed) == [] then debt.stale else |Keys(consumed)| % 256
    }

    /** How many more ticks the current slot can take. */
    ghost function Work(): nat
      requires Shape()
      reads this`encrypt, this`actString, this`cCount, this`debounceCount, this`position, this`counter
      reads this`crdStart, this`crdStop, this`kbdStatus, strBuf
    {
      60 + 100 * strBuf[actString].len + match kbdStatus
        case Init => 1 + (DEBOUNCE - debounceCount)
        case Released => 0
        case Pressed => -1
        case Idle => -1 - debounceCount
        case Delete => 1 + 2 * cCount
        case DeletePressed => 2 + 2 * cCount
    }

    // ------------------------------------------------------------ printUpdate

    method PressKey(ascii: bv8)
      modifies this`reportBuffer, this`presses
      ensures reportBuffer == ReportOf(lut(ascii)) && presses == old(presses) + [ascii]
      ensures var key := lut(ascii);
        && (reportBuffer.modifier & 0x02 != 0 <==> key & 0x80 != 0)
        && (reportBuffer.modifier & 0x40 != 0 <==> key & 0x40 != 0)
        && reportBuffer.modifier & 0xBD == 0 && reportBuffer.keycode == if key & 0x3F == 0x3A then 0x64 else key & 0x3F
    {
      var key := lut(ascii);
      StrikesExactly(ReportOf(key), key);
      var modifier := (SHIFT_MASK & key) >> 6;
      modifier := modifier | (ALTGR_MASK & key);
      var code := key & 0x3F;
      KeyParts(key);
      if code == KEY_EUROPE_2 {
        reportBuffer := Report(modifier, KEY_EUROPE_2_ORG);
      } else {
        reportBuffer := Report(modifier, code);
      }
      presses := presses + [ascii];
    }

    /** INIT: the pause after power-on. */
    method TickInit(ghost plain: seq<bv8>)
      requires Shape() && kbdStatus == Init && |plain| == 256
      modifies this`reportBuffer, this`debounceCount, this`kbdStatus
      ensures Shape() && (reportBuffer == UP || reportBuffer == old(reportBuffer))
      ensures old(Playing(plain)) ==> Playing(plain) && Work() < old(Work())
    {
      hide Reading, Joined, GoodSlot, Waiting, Hands, Alone;
      if Playing(plain) {
        HandsUp(kbdStatus, reportBuffer, eos, cCount, consumed, presses, debt, Released);
        HandsUp(kbdStatus, reportBuffer, eos, cCount, consumed, presses, debt, Init);
        SameWaiting(strBuf[actString], kbdStatus, Released, cipher[..16]);
      }
      if debounceCount < DEBOUNCE {
        reportBuffer := UP;
        debounceCount := debounceCount + 1;
      } else {
        kbdStatus := Released;
        debounceCount := 0;
      }
    }

    /** A character counted off. */
    method CountOff()
      requires Shape()
      modifies strBuf
      ensures Shape() && strBuf[..] == old(strBuf[..])[actString := CountedSlot(old(strBuf[actString]))]
      ensures old(Alone()) ==> Alone()
    {
      if strBuf[actString].len > 0 {
        strBuf[actString] := strBuf[actString].(len := strBuf[actString].len - 1);
      }
    }

    /** PRESSED: the key is released, and the character counted off. */
    method TickPressed(ghost plain: seq<bv8>)
      requires Shape() && kbdStatus == Pressed && |plain| == 256
      modifies this`reportBuffer, this`kbdStatus, strBuf
      ensures Shape() && reportBuffer == UP && kbdStatus == Released
      ensures strBuf[..] == old(strBuf[..])[actString := CountedSlot(old(strBuf[actString]))]
      ensures old(Playing(plain)) ==> Playing(plain) && Work() < old(Work())
    {
      hide Reading, Joined, GoodSlot, Waiting, Hands, Alone;
      ghost var s, status := strBuf[actString], kbdStatus;
      if Playing(plain) {
        HandsUp(status, reportBuffer, eos, cCount, consumed, presses, debt, Released);
        CountedOff(s, status, cipher[..16]);
      }
      reportBuffer := UP;
      kbdStatus := Released;
      CountOff();
      assert strBuf[actString] == strBuf[..][actString];
    }

    /** IDLE: the pause that an idle character asks for. */
    method TickIdle(ghost plain: seq<bv8>)
      requires Shape() && kbdStatus == Idle && |plain| == 256
      modifies this`reportBuffer, this`debounceCount, this`kbdStatus, strBuf
      ensures Shape() && (reportBuffer == UP || reportBuffer == old(reportBuffer))
      ensures old(Playing(plain)) ==> Playing(plain) && Work() < old(Work())
    {
      hide Reading, Joined, GoodSlot, Waiting, Hands, Alone;
      if Playing(plain) {
        HandsUp(kbdStatus, reportBuffer, eos, cCount, consumed, presses, debt, Released);
        HandsUp(kbdStatus, reportBuffer, eos, cCount, consumed, presses, debt, Idle);
        CountedOff(strBuf[actString], kbdStatus, cipher[..16]);
      }
      if debounceCount < DEBOUNCE {
        reportBuffer := UP;
        debounceCount := debounceCount + 1;
      } else {
        kbdStatus := Released;
        debounceCount := 0;
        CountOff();
        assert strBuf[actString] == strBuf[..][actString];
      }
    }

    /** A tick of the deletion: a backspace for each key counted, each released again; then the
        keyboard is free. */
    twostate predicate Erased()
      requires old(cCount < 256)
      reads this`kbdStatus, this`reportBuffer, this`presses, this`cCount
    {
      if old(kbdStatus) == DeletePressed then
        kbdStatus == Delete && reportBuffer == UP && presses == old(presses) && cCount == old(cCount)
      else if old(cCount) > 0 then
        && kbdStatus == DeletePressed && reportBuffer == ReportOf(lut(BACKSPACE))
        && presses == old(presses) + [BACKSPACE] && cCount == old(cCount) - 1
      else kbdStatus == Released && reportBuffer == UP && presses == old(presses) && cCount == 0
    }

    /** DELETE: one backspace for each key of the string before. A string that was still being
        typed is given up. */
    method TickDelete(ghost plain: seq<bv8>)
      requires Shape() && kbdStatus == Delete && |plain| == 256
      modifies this`reportBuffer, this`presses, this`cCount, this`kbdStatus, this`eos, this`actString, strBuf
      ensures Shape() && Erased()
      ensures old(cCount == 0 && !eos) ==> Dropped()
      ensures old(cCount > 0 || eos) ==> eos == old(eos) && actString == old(actString) && strBuf[..] == old(strBuf[..])
      ensures old(Playing(plain)) ==> Playing(plain) && Work() < old(Work())
    {
      if cCount > 0 {
        EraseOne(plain);
      } else {
        EraseNone(plain);
      }
    }

    method EraseOne(ghost plain: seq<bv8>)
      requires Shape() && kbdStatus == Delete && cCount > 0 && |plain| == 256
      modifies this`reportBuffer, this`presses, this`cCount, this`kbdStatus
      ensures Shape() && Erased()
      ensures old(Playing(plain)) ==> Playing(plain) && Work() < old(Work())
    {
      hide Reading, Joined, GoodSlot, Waiting, Hands, Keys, Backspaces, Left, Alone, ReportOf;
      if Playing(plain) {
        SameWaiting(strBuf[actString], kbdStatus, DeletePressed, cipher[..16]);
        HandsErase(reportBuffer, eos, cCount, consumed, presses, debt, ReportOf(lut(BACKSPACE)));
      }
      PressBackspace();
    }

    method PressBackspace()
      requires cCount > 0
      modifies this`reportBuffer, this`presses, this`cCount, this`kbdStatus
      ensures reportBuffer == ReportOf(lut(BACKSPACE)) && presses == old(presses) + [BACKSPACE]
      ensures cCount == old(cCount) - 1 && kbdStatus == DeletePressed
    {
      hide ReportOf;
      PressKey(BACKSPACE);
      cCount := cCount - 1;
      kbdStatus := DeletePressed;
    }

    method EraseNone(ghost plain: seq<bv8>)
      requires Shape() && kbdStatus == Delete && cCount == 0 && |plain| == 256
      modifies this`reportBuffer, this`kbdStatus, this`eos, this`actString, strBuf
      ensures Shape() && Erased()
      ensures old(!eos) ==> Dropped()
      ensures old(eos) ==> eos && actString == old(actString) && strBuf[..] == old(strBuf[..])
      ensures old(Playing(plain)) ==> Playing(plain) && Work() < old(Work())
    {
      hide Reading, Joined, GoodSlot, Waiting, Hands, Alone, ReportOf;
      if Playing(plain) {
        SameWaiting(strBuf[actString], kbdStatus, Released, cipher[..16]);
        HandsErased(reportBuffer, eos, consumed, presses, debt);
      }
      reportBuffer := UP;
      kbdStatus := Released;
      if !eos {
        GiveUp();
      }
    }

    /** A string that was still being typed is given up. */
    method GiveUp()
      requires Shape()
      modifies this`eos, this`actString, strBuf
      ensures Shape() && eos && actString == (old(actString) + 1) % SLOTS
      ensures strBuf[..] == old(strBuf[..])[old(actString) := old(strBuf[actString]).(kind := Free)]
    {
      eos := true;
      strBuf[actString] := strBuf[actString].(kind := Free);
      actString := (actString + 1) % SLOTS;
    }

    method TickDeletePressed(ghost plain: seq<bv8>)
      requires Shape() && kbdStatus == DeletePressed && |plain| == 256
      modifies this`reportBuffer, this`kbdStatus
      ensures Shape() && Erased()
      ensures old(Playing(plain)) ==> Playing(plain) && Work() < old(Work())
    {
      hide Reading, Joined, GoodSlot, Waiting, Hands, Alone, ReportOf;
      if Playing(plain) {
        HandsUp(kbdStatus, reportBuffer, eos, cCount, consumed, presses, debt, Delete);
        SameWaiting(strBuf[actString], kbdStatus, Delete, cipher[..16]);
      }
      reportBuffer := UP;
      kbdStatus := Delete;
    }

    /** The end of a string that asks for nothing more. */
    method EndString()
      requires Shape()
      modifies this`eos, this`actString, strBuf
      ensures Shape() && eos && actString == (old(actString) + 1) % SLOTS
      ensures strBuf[..] == old(strBuf[..])[old(actString) := old(strBuf[actString]).(kind := Free)]
    {
      GiveUp();
    }

    /** What holds when a stretch is used up. */
    lemma BeforeStretch(plain: seq<bv8>)
      requires |plain| == 256 && Playing(plain) && kbdStatus == Released && strBuf[actString].len == 0
      ensures Shape() && Alone() && plain == Record(flash.cells[..], encrypt, cipher[16..])
      ensures HoldsBlock(plain, reached, CurrentBlock())
      ensures position == reached % 256 && counter == Nuls(plain, reached)
      ensures Joined(plain, crdStart, reached, consumed, [])
      ensures Hands(Released, reportBuffer, eos, cCount, consumed, presses, debt)
    {
      hide Joined, Nuls, HoldsBlock, PlainText, Record, Hands, GoodSlot, Alone;
      assert Waiting(strBuf[actString], Released, cipher[..16]) == [];
      SameRemainder(reached);
      if reached % 16 == 0 {
        RecordHoldsBlock(flash.cells[..], encrypt, cipher[16..], reached);
      }
    }

    static lemma SameRemainder(q: nat)
      ensures q % 256 % 16 == q % 16
    {
      BlockArithmetic(q);
    }

    /** What holds when the next one is queued. */
    lemma AfterStretch(plain: seq<bv8>, q: nat, n: nat, step: nat)
      requires Shape() && Alone() && |plain| == 256 && !Taken(kbdStatus)
      requires plain == Record(flash.cells[..], encrypt, cipher[16..]) && HoldsBlock(plain, q, cipher[..16])
      requires n == TextLength(cipher[..16], q % 16) && step == if n < 16 - q % 16 then 1 else 0
      requires reached == q + n + step && position == (q % 256 + n + step) % 256
      requires counter == Nuls(plain, q) + step
      requires strBuf[actString] == Stretch(Nuls(plain, q), crdStart, q % 16, n)
      requires Joined(plain, crdStart, q, consumed, [])
      requires Hands(kbdStatus, reportBuffer, eos, cCount, consumed, presses, debt)
      ensures Playing(plain) && q < reached && Nuls(plain, reached - 1) == Nuls(plain, q)
    {
      hide Joined, Nuls, HoldsBlock, Record, Hands, GoodSlot, Waiting, TextLength, Stretch, Alone;
      StretchTypes(plain, crdStart, q, cipher[..16], consumed);
      SameWaiting(strBuf[actString], Released, kbdStatus, cipher[..16]);
      TypesText(plain, crdStart, q, cipher[..16]);
      assert reached == AfterText(cipher[..16], q);
      SameSum(q, n + step);
    }

    static lemma SameSum(q: nat, k: nat)
      ensures (q % 256 + k) % 256 == (q + k) % 256
    {
      assert q + k == 256 * (q / 256) + (q % 256 + k);
    }

    /** The slot is freed and filled again, or left free. */
    method Refill()
      requires Shape()
      modifies this`position, this`counter, this`reached, this`eos, cipher, strBuf
      ensures Shape() && cipher[16..] == old(cipher[16..]) && (old(Alone()) ==> Alone())
      ensures (old(counter) >= crdStop ==>
                && strBuf[..] == old(strBuf[..])[actString := old(strBuf[actString]).(kind := Free)] && eos
                && position == old(position) && counter == old(counter) && reached == old(reached))
      ensures (old(counter) < crdStop ==>
                var bp, n := old(position) % 16, TextLength(old(CurrentBlock()), old(position) % 16);
                var step := if n < 16 - bp then 1 else 0;
                && cipher[..16] == old(CurrentBlock()) && eos == old(eos)
                && strBuf[..] == old(strBuf[..])[actString := Stretch(old(counter), crdStart, bp, n)]
                && counter == old(counter) + step && position == (old(position) + n + step) % 256
                && reached == old(reached) + n + step)
    {
      hide PlainText, TextLength, Stretch, Queued;
      ghost var bp, n := position % 16, TextLength(CurrentBlock(), position % 16);
      strBuf[actString] := strBuf[actString].(kind := Free);
      ghost var slots := strBuf[..];
      QueuedHere(slots, actString, Stretch(counter, crdStart, bp, n));
      StretchTaken(counter, crdStart, bp, n);
      CrdApply();
      assert forall i :: 0 <= i < SLOTS ==> strBuf[i] == strBuf[..][i];
      if strBuf[actString].kind == Free {
        eos := true;
      }
    }

    /** The next stretch of text, in the slot just freed. */
    method NextStretch(ghost plain: seq<bv8>)
      requires Shape() && kbdStatus == Released && |plain| == 256
      requires strBuf[actString].callback && strBuf[actString].len == 0
      modifies this`position, this`counter, this`reached, this`eos, cipher, strBuf
      ensures Shape() && Refilled()
      ensures (old(Playing(plain)) ==>
                if old(counter) >= crdStop then Finished(plain) && reached == old(reached)
                else
                  && Playing(plain) && old(reached) < reached
                  && Nuls(plain, reached - 1) == old(counter))
    {
      hide Playing, Hands, Record, PlainText, HoldsBlock, Nuls, Joined, TextLength, Stretch, CurrentBlock, Alone;
      ghost var q, n, playing := reached, TextLength(CurrentBlock(), position % 16), Playing(plain);
      if playing {
        SameRemainder(reached);
        BeforeStretch(plain);
        HandsUp(kbdStatus, reportBuffer, eos, cCount, consumed, presses, debt, Released);
        HandsKeys(kbdStatus, reportBuffer, eos, cCount, consumed, presses, debt);
      }
      Refill();
      assert strBuf[actString] == strBuf[..][actString];
      if playing && old(counter) < crdStop {
        AfterStretch(plain, q, n, if n < 16 - q % 16 then 1 else 0);
      }
    }

    lemma CharIsWaiting(plain: seq<bv8>)
      requires |plain| == 256 && Playing(plain) && kbdStatus == Released && strBuf[actString].len > 0
      ensures Shape() && Alone() && GoodSlot(strBuf[actString], Released)
      ensures var s := strBuf[actString];
        var w := Waiting(s, Released, cipher[..16]);
        && s.kind == Ram && w != [] && w[0] == CharAt(s.ptr)
        && Joined(plain, crdStart, reached, consumed, w)
        && Reading(plain)
        && Hands(Released, reportBuffer, eos, cCount, consumed, presses, debt)
    {
      hide Reading, Hands, Joined, Alone;
      CharTaken(strBuf[actString], cipher[..16], Pressed);
    }

    /** The next character: the pointer moves on, and a key goes down unless the character only
        asks for a pause. */
    method TypeChar(ascii: bv8, ghost plain: seq<bv8>)
      requires Shape() && kbdStatus == Released && |plain| == 256
      requires ascii == if strBuf[actString].kind == Free then 0 else CharAt(strBuf[actString].ptr)
      modifies this`consumed, this`reportBuffer, this`presses, this`kbdStatus, this`eos, this`cCount, strBuf
      ensures Shape() && consumed == old(consumed) + [ascii]
      ensures strBuf[..] == old(strBuf[..])[actString := Passed(old(strBuf[actString]))]
      ensures kbdStatus == if ascii == IDLE_KEY then Idle else Pressed
      ensures (if ascii == IDLE_KEY then presses == old(presses) && reportBuffer == old(reportBuffer)
               else presses == old(presses) + [ascii] && reportBuffer == ReportOf(lut(ascii)))
      ensures ascii != IDLE_KEY ==> Strikes(reportBuffer, lut(ascii))
      ensures old(Playing(plain)) && old(strBuf[actString].len) > 0 ==> Playing(plain) && Work() < old(Work())
    {
      hide Playing, Reading, Hands, Joined, Waiting, GoodSlot, CharAt, Keys, Alone, ReportOf, Strikes;
      ghost var s, before, playing := strBuf[actString], consumed, Playing(plain) && strBuf[actString].len > 0;
      if playing {
        CharIsWaiting(plain);
        HandsType(reportBuffer, eos, cCount, consumed, presses, debt, ascii, ReportOf(lut(ascii)));
      }
      PassChar(ascii);
      Strike(ascii);
      StrikesExactly(ReportOf(lut(ascii)), lut(ascii));
      assert strBuf[actString] == strBuf[..][actString];
      if playing {
        AfterChar(plain, s, before);
      }
    }

    method Strike(ascii: bv8)
      requires cCount < 256
      modifies this`reportBuffer, this`presses, this`kbdStatus, this`eos, this`cCount
      ensures (if ascii == IDLE_KEY then
                 && presses == old(presses) && reportBuffer == old(reportBuffer) && kbdStatus == Idle
                 && eos == old(eos) && cCount == old(cCount)
               else
                 && presses == old(presses) + [ascii] && reportBuffer == ReportOf(lut(ascii)) && kbdStatus == Pressed
                 && !eos && cCount == if old(eos) then 1 else (old(cCount) + 1) % 256)
    {
      hide ReportOf;
      if ascii == IDLE_KEY {
        kbdStatus := Idle;
      } else {
        PressKey(ascii);
        CountKey();
        kbdStatus := Pressed;
      }
    }

    method PassChar(ascii: bv8)
      requires Shape()
      modifies this`consumed, strBuf
      ensures Shape() && consumed == old(consumed) + [ascii] && (old(Alone()) ==> Alone())
      ensures strBuf[..] == old(strBuf[..])[actString := Passed(old(strBuf[actString]))]
    {
      strBuf[actString] := strBuf[actString].(ptr := Following(strBuf[actString].ptr));
      consumed := consumed + [ascii];
    }

    lemma AfterChar(plain: seq<bv8>, s: Slot, before: seq<bv8>)
      requires Shape() && Alone() && |plain| == 256 && Reading(plain) && Taken(kbdStatus)
      requires GoodSlot(s, Released) && s.len > 0 && strBuf[actString] == Passed(s)
      requires var w := Waiting(s, Released, cipher[..16]);
        w != [] && consumed == before + [w[0]] && Joined(plain, crdStart, reached, before, w)
      requires Hands(kbdStatus, reportBuffer, eos, cCount, consumed, presses, debt)
      ensures Playing(plain)
    {
      hide Reading, Hands, Joined, Waiting, GoodSlot, Alone;
      CharTaken(s, cipher[..16], kbdStatus);
      JoinedMoves(plain, crdStart, reached, before, Waiting(s, Released, cipher[..16]));
    }

    /** The keys of a string are counted, for deleting it later. */
    method CountKey()
      requires cCount < 256
      modifies this`eos, this`cCount
      ensures !eos && cCount == if old(eos) then 1 else (old(cCount) + 1) % 256
    {
      if !eos {
        cCount := (cCount + 1) % 256;
      } else {
        eos := false;
        cCount := 1;
      }
    }

    /** Playback of the record has not moved. */
    twostate predicate SameRecord()
      reads this`position, this`counter, this`reached, cipher
    {
      && position == old(position) && counter == old(counter) && reached == old(reached)
      && cipher[..] == old(cipher[..])
    }

    /** The current string's slot was freed, and the next one is current. */
    twostate predicate Dropped()
      requires old(strBuf.Length == SLOTS && actString < SLOTS)
      reads this`eos, this`actString, strBuf
    {
      && eos && actString == (old(actString) + 1) % SLOTS
      && strBuf[..] == old(strBuf[..])[old(actString) := old(strBuf[actString]).(kind := Free)]
    }

    /** The current slot got the next stretch of the record, or there is none. */
    twostate predicate Refilled()
      requires old(Shape())
      reads this`actString, this`counter, this`crdStart, this`crdStop, strBuf
    {
      var bp, n := old(position) % 16, TextLength(old(CurrentBlock()), old(position) % 16);
      && actString == old(actString)
      && if old(counter) < crdStop then
           strBuf[..] == old(strBuf[..])[actString := Stretch(old(counter), crdStart, bp, n)]
         else
           && strBuf[..] == old(strBuf[..])[actString := old(strBuf[actString]).(kind := Free)]
           && counter == old(counter)
    }

    /** No key, no other state. */
    twostate predicate StillReleased()
      reads this`kbdStatus, this`presses, this`reportBuffer
    {
      kbdStatus == Released && presses == old(presses) && reportBuffer == old(reportBuffer)
    }

    /** A NUL was taken from the current slot and its key pressed. */
    twostate predicate NulPressed()
      requires old(strBuf.Length == SLOTS && actString < SLOTS)
      reads this`kbdStatus, this`presses, this`reportBuffer, this`actString, strBuf
    {
      && kbdStatus == Pressed && presses == old(presses) + [0] && reportBuffer == ReportOf(lut(0))
      && actString == old(actString)
      && strBuf[..] == old(strBuf[..])[actString := Passed(old(strBuf[actString]))]
    }

    /** Its key was released, and it was counted off. */
    twostate predicate CharReleased()
      requires old(strBuf.Length == SLOTS && actString < SLOTS)
      reads this`kbdStatus, this`presses, this`reportBuffer, this`actString, strBuf
    {
      && kbdStatus == Released && presses == old(presses) && reportBuffer == UP
      && actString == old(actString)
      && strBuf[..] == old(strBuf[..])[actString := CountedSlot(old(strBuf[actString]))]
    }

    /** A key went down, or none did and the report shows none or the one before. */
    twostate predicate OnePress()
      reads this`presses, this`reportBuffer
    {
      || (presses == old(presses) && (reportBuffer == UP || reportBuffer == old(reportBuffer)))
      || (&& |presses| == |old(presses)| + 1 && old(presses) <= presses
          && reportBuffer == ReportOf(lut(presses[|presses| - 1])))
    }

    /** RELEASED: the end of a string, the end of a stretch, or a character. */
    method TickReleased(ascii: bv8, ghost plain: seq<bv8>)
      requires Shape() && kbdStatus == Released && |plain| == 256
      requires ascii == if strBuf[actString].kind == Free then 0 else CharAt(strBuf[actString].ptr)
      modifies this`position, this`counter, this`reached, this`eos, this`actString, this`consumed
      modifies this`reportBuffer, this`presses, this`kbdStatus, this`cCount, cipher, strBuf
      ensures Shape() && OnePress()
      ensures !old(strBuf[actString].callback) && ascii == 0 ==> Dropped() && StillReleased() && SameRecord()
      ensures old(strBuf[actString].callback && strBuf[actString].len == 0) ==> Refilled() && StillReleased()
      ensures (old(strBuf[actString].callback && strBuf[actString].len > 0) && ascii == 0 ==>
                NulPressed() && SameRecord())
      ensures old(Playing(plain)) ==> Continues(plain)
    {
      hide Reading, Hands, Joined, Waiting, CharAt, Nuls, Alone, ReportOf, CurrentBlock, Stretch;
      if !strBuf[actString].callback && ascii == 0 {
        EndString();
      } else if strBuf[actString].callback && strBuf[actString].len == 0 {
        NextStretch(plain);
      } else {
        TypeChar(ascii, plain);
      }
    }

    /** Playback goes on with less left to do, or is finished. */
    twostate predicate Continues(plain: seq<bv8>)
      requires |plain| == 256 && old(Shape()) && Shape()
      reads this, strBuf, cipher, flash.cells
    {
      if Playing(plain) then
        || (reached == old(reached) && Work() < old(Work()))
        || (old(reached) < reached && Nuls(plain, reached - 1) == old(counter) < crdStop)
      else
        Finished(plain) && reached == old(reached)
    }

    /** What a tick does while a string is deleted, or while the current slot is free: the ring
        turns past slots that ask for nothing; one that asks for more is asked once the characters
        it still counts, read as NULs, are used up. */
    twostate predicate Updated()
      requires old(Shape())
      reads this`kbdStatus, this`presses, this`reportBuffer, this`actString, this`eos, this`cCount
      reads this`position, this`counter, this`reached, this`crdStart, this`crdStop, strBuf, cipher
    {
      match old(kbdStatus)
      case Delete =>
        && Erased() && SameRecord()
        && if old(cCount == 0 && !eos) then Dropped()
           else eos == old(eos) && actString == old(actString) && strBuf[..] == old(strBuf[..])
      case DeletePressed =>
        && Erased() && SameRecord()
        && eos == old(eos) && actString == old(actString) && strBuf[..] == old(strBuf[..])
      case Pressed => CharReleased() && SameRecord()
      case Released =>
        && (old(!strBuf[actString].callback && strBuf[actString].kind == Free) ==>
              Dropped() && StillReleased() && SameRecord())
        && (old(strBuf[actString].callback && strBuf[actString].len == 0) ==> Refilled() && StillReleased())
        && (old(strBuf[actString].callback && strBuf[actString].len > 0 && strBuf[actString].kind == Free) ==>
              NulPressed() && SameRecord())
      case _ => true
    }

    /** printUpdate. */
    method PrintUpdate(ghost plain: seq<bv8>)
      requires Shape() && |plain| == 256
      modifies this`position, this`counter, this`reached, this`eos, this`actString, this`consumed
      modifies this`reportBuffer, this`presses, this`kbdStatus, this`cCount, this`debounceCount, cipher, strBuf
      ensures Shape() && OnePress() && Updated()
      ensures presses == old(presses) || old(kbdStatus) == Released || old(kbdStatus) == Delete
      ensures old(Playing(plain)) ==> Continues(plain)
    {
      hide Playing, Reading, CharAt, Nuls, Finished, ReportOf, CurrentBlock, Stretch, TextLength, Work;
      var ascii := if strBuf[actString].kind == Free then 0 else CharAt(strBuf[actString].ptr);
      match kbdStatus {
        case Init => TickInit(plain);
        case Pressed => TickPressed(plain);
        case Released => TickReleased(ascii, plain);
        case Idle => TickIdle(plain);
        case Delete => TickDelete(plain);
        case DeletePressed => TickDeletePressed(plain);
      }
    }

    /** One round of the main loop: printUpdate, and the host reads the report. It sees a key go
        down when the report has changed to that key. */
    method Tick(ghost plain: seq<bv8>)
      requires Shape() && |plain| == 256
      modifies this`position, this`counter, this`reached, this`eos, this`actString, this`consumed
      modifies this`reportBuffer, this`presses, this`kbdStatus, this`cCount, this`debounceCount, cipher, strBuf
      modifies this`strokes, this`seen
      ensures Shape() && Updated() && (old(Playing(plain)) ==> Continues(plain))
      ensures strokes == old(strokes) + if reportBuffer != UP && reportBuffer != old(seen) then [reportBuffer] else []
      ensures seen == reportBuffer
      ensures (old(Watched() && (Playing(plain) || reportBuffer == UP
                                 || kbdStatus == Pressed || kbdStatus == DeletePressed)) ==>
                && Watched()
                && (strokes != old(strokes) ==>
                      && |presses| == |old(presses)| + 1 && strokes != []
                      && Strikes(strokes[|strokes| - 1], lut(presses[|presses| - 1]))))
    {
      hide Playing, Updated, Finished, Work, ReportOf, Nuls, Shown, Watched, Strikes;
      if Playing(plain) && (kbdStatus == Released || kbdStatus == Delete) {
        KeyIsUp(plain);
      }
      ghost var before, up := presses, reportBuffer == UP;
      if Watched() {
        WatchedMeans();
      }
      PrintUpdate(plain);
      HostReads(before, up);
    }

    /** The host reads the report of a tick. */
    ghost method HostReads(before: seq<bv8>, up: bool)
      modifies this`strokes, this`seen
      ensures strokes == old(strokes) + if reportBuffer != UP && reportBuffer != old(seen) then [reportBuffer] else []
      ensures seen == reportBuffer
      ensures (&& old(strokes) == Shown(lut, before) && (up ==> old(seen) == UP)
               && (|| (presses == before && (reportBuffer == UP || reportBuffer == old(seen)))
                   || (&& up && |presses| == |before| + 1 && before <= presses
                       && reportBuffer == ReportOf(lut(presses[|presses| - 1])))) ==>
                 && Watched()
                 && (strokes != old(strokes) ==>
                       && |presses| == |before| + 1 && strokes != []
                       && Strikes(strokes[|strokes| - 1], lut(presses[|presses| - 1]))))
    {
      hide ReportOf, Shown, Strikes;
      if |presses| == |before| + 1 && before <= presses {
        KeyShows(before);
        StrikesExactly(reportBuffer, lut(presses[|presses| - 1]));
      }
      if reportBuffer != UP && reportBuffer != seen {
        strokes := strokes + [reportBuffer];
      }
      seen := reportBuffer;
    }

    lemma WatchedMeans()
      requires Watched()
      ensures seen == reportBuffer && strokes == Shown(lut, presses)
    {
      hide Shown;
    }

    /** The host has read the report, and seen every key that was pressed. */
    ghost predicate Watched()
      reads this`seen, this`reportBuffer, this`strokes, this`presses
    {
      seen == reportBuffer && strokes == Shown(lut, presses)
    }

    lemma KeyShows(before: seq<bv8>)
      requires |presses| == |before| + 1 && before <= presses
      ensures var report := ReportOf(lut(presses[|presses| - 1]));
        Shown(lut, presses) == Shown(lut, before) + if report != UP then [report] else []
    {
      hide ReportOf;
      NoKey(lut(presses[|presses| - 1]));
      assert presses == before + [presses[|presses| - 1]];
      ShownOne(lut, before, presses[|presses| - 1]);
    }

    lemma KeyIsUp(plain: seq<bv8>)
      requires |plain| == 256 && Playing(plain) && (kbdStatus == Released || kbdStatus == Delete)
      ensures reportBuffer == UP
    {
      hide Keys, Joined;
    }

    // ------------------------------------------------------------ whole playbacks

    /** No string waits, and the last one ended. */
    ghost predicate Quiet()
      reads this, strBuf
    {
      && Shape() && (forall i :: 0 <= i < SLOTS ==> strBuf[i].kind == Free)
      && eos && seen == reportBuffer
      && match kbdStatus
         case Pressed => false
         case Idle => false
         case DeletePressed => reportBuffer == ReportOf(lut(BACKSPACE))
         case _ => reportBuffer == UP
    }

    /** print_deleteStr: the string typed last will be deleted first. */
    method PrintDeleteStr()
      modifies this`kbdStatus
      ensures kbdStatus == Delete && Leaves(kbdStatus, cCount) == Debt(cCount, 0)
      ensures old(Quiet() && kbdStatus != DeletePressed) ==> Quiet()
    {
      hide ReportOf;
      kbdStatus := Delete;
    }

    /** CRD_printDetail: from the first field on. */
    method CrdPrintDetail(start: nat, stop: nat)
      requires Shape() && strBuf[actString].kind == Free && start < 256 && stop < 256
      modifies this`position, this`counter, this`reached, this`crdStart, this`crdStop, cipher, strBuf
      ensures Shape() && cipher[16..] == old(cipher[16..]) && crdStart == start && crdStop == stop
      ensures stop == 0 ==> strBuf[..] == old(strBuf[..]) && reached == 0
      ensures (stop > 0 ==>
                && cipher[..16] == PlainText(flash.cells[..], encrypt, cipher[16..], 0)
                && var n := TextLength(cipher[..16], 0); var step := if n < 16 then 1 else 0;
                && strBuf[..] == old(strBuf[..])[actString := Stretch(0, start, 0, n)]
                && counter == step && position == (n + step) % 256 && reached == n + step)
    {
      hide TextLength, PlainText, Stretch, Queued;
      position := 0;
      counter := 0;
      crdStart := start;
      crdStop := stop;
      reached := 0;
      QueuedHere(strBuf[..], actString, Stretch(0, start, 0, TextLength(CurrentBlock(), 0)));
      CrdApply();
    }

    /** Playback of fields start to stop - 1 begins. */
    method Begin(start: nat, stop: nat, ghost plain: seq<bv8>)
      requires Quiet() && start < 256 && stop < 256 && |plain| == 256
      requires plain == Record(flash.cells[..], encrypt, cipher[16..])
      modifies this`position, this`counter, this`reached, this`crdStart, this`crdStop, this`consumed
      modifies this`presses, this`debt, this`strokes, cipher, strBuf
      ensures Shape() && cipher[16..] == old(cipher[16..]) && crdStart == start && crdStop == stop
      ensures Watched() && debt == Leaves(kbdStatus, cCount)
      ensures stop == 0 ==> strBuf[..] == old(strBuf[..]) && consumed == []
      ensures stop > 0 ==> Playing(plain) && 0 < reached && Nuls(plain, reached - 1) == 0
    {
      hide Record, HoldsBlock, Nuls, TextLength, PlainText, Stretch, Hands, Playing, Quiet, Leaves, Shown;
      QuietMeans();
      consumed, presses, strokes, debt := [], [], [], Leaves(kbdStatus, cCount);
      ShownNothing(lut);
      CrdPrintDetail(start, stop);
      if stop > 0 {
        assert forall i :: 0 <= i < SLOTS ==> strBuf[i] == strBuf[..][i];
        FirstStretch(plain);
      }
    }

    lemma QuietMeans()
      requires Quiet()
      ensures Shape() && (forall i :: 0 <= i < SLOTS ==> strBuf[i].kind == Free) && eos && seen == reportBuffer
      ensures kbdStatus != Pressed && kbdStatus != Idle && (kbdStatus != DeletePressed ==> reportBuffer == UP)
    {
      hide ReportOf;
    }

    lemma FirstStretch(plain: seq<bv8>)
      requires Shape() && Alone() && |plain| == 256 && plain == Record(flash.cells[..], encrypt, cipher[16..])
      requires kbdStatus != Pressed && kbdStatus != Idle && eos && consumed == presses == []
      requires kbdStatus != DeletePressed ==> reportBuffer == UP
      requires debt == Leaves(kbdStatus, cCount)
      requires cipher[..16] == PlainText(flash.cells[..], encrypt, cipher[16..], 0)
      requires var n := TextLength(cipher[..16], 0); var step := if n < 16 then 1 else 0;
        && strBuf[actString] == Stretch(0, crdStart, 0, n)
        && counter == step && position == (n + step) % 256 && reached == n + step
      ensures Playing(plain) && 0 < reached && Nuls(plain, reached - 1) == 0
    {
      hide Record, HoldsBlock, Nuls, TextLength, PlainText, Stretch, Hands, Playing, Joined, Alone;
      RecordHoldsBlock(flash.cells[..], encrypt, cipher[16..], 0);
      HandsStart(kbdStatus, reportBuffer, cCount);
      NothingTyped(plain, crdStart);
      var n := TextLength(cipher[..16], 0);
      AfterStretch(plain, 0, n, if n < 16 then 1 else 0);
    }

    /** The ticks of a playback, to its end. */
    method PlayRecord(start: nat, stop: nat, ghost plain: seq<bv8>, ghost e: nat)
      requires Quiet() && start < 256 && 0 < stop < 256 && |plain| == 256
      requires plain == Record(flash.cells[..], encrypt, cipher[16..]) && EndsAt(plain, stop, e)
      modifies this`position, this`counter, this`reached, this`eos, this`actString, this`consumed
      modifies this`reportBuffer, this`presses, this`kbdStatus, this`cCount, this`debounceCount, cipher, strBuf
      modifies this`strokes, this`seen, this`crdStart, this`crdStop, this`debt
      ensures Quiet() && kbdStatus == Released && Watched()
      ensures NonNul(consumed) == Typed(plain, start, e)
      ensures presses == Backspaces(old(Leaves(kbdStatus, cCount)).erase) + Keys(consumed)
      ensures (lut(0) == 0 ==>
                strokes == Shown(lut, Backspaces(old(Leaves(kbdStatus, cCount)).erase))
                         + Shown(lut, Keys(Typed(plain, start, e))))
      ensures (var keys := |Keys(Typed(plain, start, e))| + Blanks(plain, start, e);
        cCount == if keys == 0 then old(Leaves(kbdStatus, cCount)).stale else keys % 256)
    {
      hide Playing, NonNul, Typed, Nuls, Finished, Quiet, Keys, Backspaces, Leaves, EndsAt, Work, Shown, Blanks, Alone;
      ghost var owed := Leaves(kbdStatus, cCount);
      QuietMeans();
      Begin(start, stop, plain);
      EndUnique(plain, stop, e, reached - 1);
      PlayingMeans(plain);
      while strBuf[actString].kind != Free
        invariant Shape() && crdStart == start && crdStop == stop && debt == owed && reached <= e
        invariant if strBuf[actString].kind != Free then Playing(plain) else Finished(plain)
        invariant Watched()
        decreases strBuf[actString].kind != Free, e - reached, Work()
      {
        PlayTick(plain, e);
      }
      FinishedMeans(plain, e);
      PlayedKeys(lut, plain, start, e, consumed);
      ShownAppend(lut, Backspaces(owed.erase), Keys(consumed));
    }

    /** A credential's fields start to stop - 1, with nothing else going on: the main loop's
        ticks come to an end, and the keyboard is quiet again. The characters taken are exactly
        those of these fields, in order, and a NUL for each stretch skipped or empty. If the
        table has no key for NUL, the host saw the backspaces owed and then the keys of the
        fields' characters, and nothing else; but the counter for a later deletion has the NULs
        in it. */
    method Play(start: nat, stop: nat, ghost plain: seq<bv8>, ghost e: nat)
      requires Quiet() && start < 256 && 0 < stop < 256 && |plain| == 256
      requires plain == Record(flash.cells[..], encrypt, cipher[16..]) && EndsAt(plain, stop, e)
      modifies this`position, this`counter, this`reached, this`eos, this`actString, this`consumed
      modifies this`reportBuffer, this`presses, this`kbdStatus, this`cCount, this`debounceCount, cipher, strBuf
      modifies this`strokes, this`seen, this`crdStart, this`crdStop, this`debt
      ensures Quiet() && kbdStatus == Released && Watched()
      ensures NonNul(consumed) == Typed(plain, start, e)
      ensures presses == Backspaces(old(Leaves(kbdStatus, cCount)).erase) + Keys(consumed)
      ensures (lut(0) == 0 ==>
                strokes == Shown(lut, Backspaces(old(Leaves(kbdStatus, cCount)).erase))
                         + Shown(lut, Keys(Typed(plain, start, e))))
      ensures (var keys := |Keys(Typed(plain, start, e))| + Blanks(plain, start, e);
        cCount == if keys == 0 then old(Leaves(kbdStatus, cCount)).stale else keys % 256)
      ensures (lut(0) == 0 ==>
                var owed := Backspaces(old(Leaves(kbdStatus, cCount)).erase);
                var visible := Visible(lut, owed + Keys(Typed(plain, start, e)));
                && |strokes| == |visible|
                && forall i :: 0 <= i < |strokes| ==> Strikes(strokes[i], lut(visible[i])))
    {
      hide Quiet, Typed, Keys, NonNul, Backspaces, Leaves, EndsAt, Shown, Blanks, Record, Watched, Visible, Strikes;
      ghost var owed := Backspaces(Leaves(kbdStatus, cCount).erase);
      PlayRecord(start, stop, plain, e);
      ShownAppend(lut, owed, Keys(Typed(plain, start, e)));
      ShownStrikes(lut, owed + Keys(Typed(plain, start, e)));
    }

    method PlayTick(ghost plain: seq<bv8>, ghost e: nat)
      requires |plain| == 256 && Playing(plain) && EndsAt(plain, crdStop, e) && reached <= e && Watched()
      modifies this`position, this`counter, this`reached, this`eos, this`actString, this`consumed
      modifies this`reportBuffer, this`presses, this`kbdStatus, this`cCount, this`debounceCount, cipher, strBuf
      modifies this`strokes, this`seen
      ensures Shape() && reached <= e && Watched()
      ensures (if strBuf[actString].kind != Free then
                 && Playing(plain)
                 && (reached > old(reached) || (reached == old(reached) && Work() < old(Work())))
               else Finished(plain))
    {
      hide Playing, Nuls, Finished, EndsAt, Work, Watched, Updated;
      PlayingMeans(plain);
      ghost var q := reached;
      Tick(plain);
      if Playing(plain) {
        PlayingMeans(plain);
        if q < reached {
          EndUnique(plain, crdStop, e, reached - 1);
        }
      } else {
        FinishedMeans(plain, e);
      }
    }

    lemma PlayingMeans(plain: seq<bv8>)
      requires |plain| == 256 && Playing(plain)
      ensures Shape() && strBuf[actString].kind != Free
    {
      hide Keys, Joined;
    }

    lemma FinishedMeans(plain: seq<bv8>, e: nat)
      requires |plain| == 256 && Finished(plain) && EndsAt(plain, crdStop, e)
      ensures Shape() && Alone() && strBuf[actString].kind == Free && kbdStatus == Released && eos && reportBuffer == UP
      ensures seen == reportBuffer ==> Quiet()
      ensures reached >= e
      ensures reached <= e ==> Joined(plain, crdStart, e, consumed, [])
      ensures presses == Backspaces(debt.erase) + Keys(consumed)
      ensures cCount == if Keys(consumed) == [] then debt.stale else |Keys(consumed)| % 256
    {
      hide Joined, Keys, Nuls, EndsAt, ReportOf;
      EndUnique(plain, crdStop, e, reached);
    }

    /** The same from the host's side: where the store holds an encrypted text that begins with
        the fields, and they take no more than 256 bytes, fields start to stop - 1 are typed. */
    method PlayFields(start: nat, fields: seq<seq<bv8>>, ghost text: seq<bv8>)
      requires Quiet() && start <= |fields| < 256 && fields != [] && start < 256
      requires |text| == 256 && Encrypts(flash.cells[..], encrypt, cipher[16..], text)
      requires GoodFields(fields) && |Encoded(fields)| <= 256 && text[..|Encoded(fields)|] == Encoded(fields)
      modifies this`position, this`counter, this`reached, this`eos, this`actString, this`consumed
      modifies this`reportBuffer, this`presses, this`kbdStatus, this`cCount, this`debounceCount, cipher, strBuf
      modifies this`strokes, this`seen, this`crdStart, this`crdStop, this`debt
      ensures Quiet() && kbdStatus == Released && Watched()
      ensures (lut(0) == 0 ==>
                strokes == Shown(lut, Backspaces(old(Leaves(kbdStatus, cCount)).erase))
                         + Shown(lut, Keys(Join(fields[start..]))))
      ensures (lut(0) == 0 ==>
                var owed := Backspaces(old(Leaves(kbdStatus, cCount)).erase);
                var visible := Visible(lut, owed + Keys(Join(fields[start..])));
                && |strokes| == |visible|
                && forall i :: 0 <= i < |strokes| ==> Strikes(strokes[i], lut(visible[i])))
      ensures (var keys := |Keys(Join(fields[start..]))| + Blanks(text, start, |Encoded(fields)|);
        cCount == if keys == 0 then old(Leaves(kbdStatus, cCount)).stale else keys % 256)
    {
      hide Typed, Nuls, Keys, Backspaces, Leaves, EndsAt, Encoded, Join, Encrypts, Record, Quiet, Watched, Shown;
      hide Blanks, Visible, Strikes;
      QuietMeans();
      RecordIsText(flash.cells[..], encrypt, cipher[16..], text);
      TypesFields(text, fields, start);
      Play(start, |fields|, text, |Encoded(fields)|);
    }

    // ------------------------------------------------------------ deletion

    method DeleteTick()
      requires Shape() && (kbdStatus == Delete || kbdStatus == DeletePressed)
      modifies this`position, this`counter, this`reached, this`eos, this`actString, this`consumed
      modifies this`reportBuffer, this`presses, this`kbdStatus, this`cCount, this`debounceCount, cipher, strBuf
      modifies this`strokes, this`seen
      ensures Shape() && Erased() && SameRecord() && seen == reportBuffer
      ensures (if old(kbdStatus == Delete && cCount == 0 && !eos) then Dropped()
               else eos == old(eos) && actString == old(actString) && strBuf[..] == old(strBuf[..]))
      ensures old(Watched() && (reportBuffer == UP || kbdStatus == DeletePressed)) ==> Watched()
    {
      hide Playing, Erased, Dropped, SameRecord, Continues, Watched, Refilled;
      Tick(seq(256, _ => 0));
    }

    /** The ticks of a deletion: one backspace for each key counted. */
    method Erase()
      requires Quiet() && kbdStatus == Delete && Watched()
      modifies this`position, this`counter, this`reached, this`eos, this`actString, this`consumed
      modifies this`reportBuffer, this`presses, this`kbdStatus, this`cCount, this`debounceCount, cipher, strBuf
      modifies this`strokes, this`seen
      ensures Quiet() && kbdStatus == Released && Watched() && cCount == 0
      ensures presses == old(presses) + Backspaces(old(cCount))
      ensures strokes == old(strokes) + Shown(lut, Backspaces(old(cCount)))
    {
      hide Shown, Backspaces, ReportOf;
      ghost var before, n, slots := presses, cCount, strBuf[..];
      assert before + Backspaces(0) == before by {
        NoBackspaces();
      }
      while kbdStatus != Released
        invariant Shape() && Watched() && eos && strBuf[..] == slots && cCount <= n
        invariant kbdStatus == Delete || kbdStatus == DeletePressed || (kbdStatus == Released && cCount == 0)
        invariant kbdStatus != DeletePressed ==> reportBuffer == UP
        invariant presses == before + Backspaces(n - cCount)
        decreases kbdStatus != Released, 2 * cCount + if kbdStatus == DeletePressed then 1 else 0
      {
        OneBackspace(n - cCount);
        DeleteTick();
      }
      assert forall i :: 0 <= i < SLOTS ==> strBuf[i] == slots[i];
      ShownAppend(lut, before, Backspaces(n));
    }

    /** Fields typed and then deleted: there are as many backspaces as keys the host saw, if and
        only if the NULs typed are a multiple of 256 and, should no key have gone down at all,
        nothing was left in the counter. In at most 255 bytes the NULs are so only if there are
        none: playback begins with the first field, every field has a character, and none ends at
        the end of a block. Otherwise backspaces go into what stood there before. */
    method PlayThenDelete(start: nat, fields: seq<seq<bv8>>, ghost text: seq<bv8>)
      returns (ghost typed: seq<Report>, ghost erased: nat)
      requires Quiet() && start <= |fields| < 256 && fields != [] && start < 256
      requires |text| == 256 && Encrypts(flash.cells[..], encrypt, cipher[16..], text)
      requires GoodFields(fields) && |Encoded(fields)| <= 256 && text[..|Encoded(fields)|] == Encoded(fields)
      requires lut(0) == 0 && HasKeys(lut, Join(fields[start..]))
      modifies this`position, this`counter, this`reached, this`eos, this`actString, this`consumed
      modifies this`reportBuffer, this`presses, this`kbdStatus, this`cCount, this`debounceCount, cipher, strBuf
      modifies this`strokes, this`seen, this`crdStart, this`crdStop, this`debt
      ensures Quiet() && kbdStatus == Released
      ensures typed == Shown(lut, Keys(Join(fields[start..])))
      ensures (var keys := Keys(Join(fields[start..]));
        |typed| == |keys| < 256 && forall i :: 0 <= i < |typed| ==> Strikes(typed[i], lut(keys[i])))
      ensures (strokes == Shown(lut, Backspaces(old(Leaves(kbdStatus, cCount)).erase)) + typed
                        + Shown(lut, Backspaces(erased)))
      ensures (var blanks := Blanks(text, start, |Encoded(fields)|);
        && erased == (if typed == [] && blanks == 0 then old(Leaves(kbdStatus, cCount)).stale
                      else (|typed| + blanks) % 256)
        && (erased == |typed| <==>
              blanks % 256 == 0 && (typed == [] && blanks == 0 ==> old(Leaves(kbdStatus, cCount)).stale == 0))
        && (|Encoded(fields)| < 256 ==> (blanks % 256 == 0 <==> start == 0 && Snug(fields))))
    {
      hide Keys, Backspaces, Leaves, Encoded, Join, Encrypts, Quiet, Watched, Shown, Blanks, Snug, HasKeys;
      hide Strikes, Visible;
      PlayFields(start, fields, text);
      typed := Shown(lut, Keys(Join(fields[start..])));
      erased := cCount;
      NotPressed();
      PrintDeleteStr();
      StillWatched();
      Erase();
      ErasesExactly(lut, text, fields, start, old(Leaves(kbdStatus, cCount)).stale);
    }

    // ------------------------------------------------------------ a playback interrupted

    ghost predicate AllFree()
      requires strBuf.Length == SLOTS
      reads strBuf
    {
      forall i :: 0 <= i < SLOTS ==> strBuf[i].kind == Free
    }

    /** The ticks of a deletion that interrupts a string: it is given up in the end. */
    method EraseInterrupted()
      requires Shape() && kbdStatus == Delete && !eos
      modifies this`position, this`counter, this`reached, this`eos, this`actString, this`consumed
      modifies this`reportBuffer, this`presses, this`kbdStatus, this`cCount, this`debounceCount, cipher, strBuf
      modifies this`strokes, this`seen
      ensures Shape() && kbdStatus == Released && reportBuffer == UP == seen && SameRecord() && Dropped()
      ensures presses == old(presses) + Backspaces(old(cCount))
    {
      hide Backspaces, ReportOf, Watched;
      ghost var before, n := presses, cCount;
      NoBackspaces();
      assert before + [] == before;
      while cCount > 0 || kbdStatus == DeletePressed
        invariant Shape() && !eos && SameRecord() && cCount <= n && (kbdStatus == Delete || kbdStatus == DeletePressed)
        invariant actString == old(actString) && strBuf[..] == old(strBuf[..])
        invariant presses == before + Backspaces(n - cCount)
        decreases 2 * cCount + if kbdStatus == DeletePressed then 1 else 0
      {
        OneBackspace(n - cCount);
        DeleteTick();
      }
      assert strBuf[actString] == strBuf[..][actString] == old(strBuf[..])[actString];
      DeleteTick();
    }

    /** With every slot free, the ring turns to one that once asked for more, and the characters
        it still counts are used up. If NUL has no key the host sees nothing. */
    method TurnRing(ghost j: nat)
      requires Shape() && AllFree() && kbdStatus == Released && reportBuffer == UP == seen && lut(0) == 0
      requires j < SLOTS && strBuf[j].callback
      modifies this`position, this`counter, this`reached, this`eos, this`actString, this`consumed
      modifies this`reportBuffer, this`presses, this`kbdStatus, this`cCount, this`debounceCount, cipher, strBuf
      modifies this`strokes, this`seen
      ensures Shape() && AllFree() && kbdStatus == Released && reportBuffer == UP == seen && SameRecord()
      ensures strBuf[actString].callback && strBuf[actString].len == 0 && strokes == old(strokes)
    {
      hide ReportOf, Playing, CurrentBlock, Stretch, TextLength, Continues;
      NoKey(lut(0));
      while !(kbdStatus == Released && strBuf[actString].callback && strBuf[actString].len == 0)
        invariant Shape() && AllFree() && SameRecord() && reportBuffer == UP == seen && strokes == old(strokes)
        invariant kbdStatus == Released || kbdStatus == Pressed
        invariant kbdStatus == Pressed ==> strBuf[actString].callback && strBuf[actString].len > 0
        invariant strBuf[j].callback
        decreases (j + SLOTS - actString) % SLOTS, 2 * strBuf[actString].len + if kbdStatus == Pressed then 0 else 1
      {
        TurnTick(j);
      }
    }

    method TurnTick(ghost j: nat)
      requires Shape() && AllFree() && reportBuffer == UP == seen && lut(0) == 0 && j < SLOTS && strBuf[j].callback
      requires kbdStatus == Released || (kbdStatus == Pressed && strBuf[actString].callback)
      requires strBuf[actString].callback ==> strBuf[actString].len > 0
      modifies this`position, this`counter, this`reached, this`eos, this`actString, this`consumed
      modifies this`reportBuffer, this`presses, this`kbdStatus, this`cCount, this`debounceCount, cipher, strBuf
      modifies this`strokes, this`seen
      ensures Shape() && AllFree() && SameRecord() && reportBuffer == UP == seen && strokes == old(strokes)
      ensures strBuf[j].callback && (kbdStatus == Released || kbdStatus == Pressed)
      ensures kbdStatus == Pressed ==> strBuf[actString].callback && strBuf[actString].len > 0
      ensures (if actString == old(actString) then
                 2 * strBuf[actString].len + (if kbdStatus == Pressed then 0 else 1)
                 < 2 * old(strBuf[actString].len) + (if old(kbdStatus) == Pressed then 0 else 1)
               else (j + SLOTS - actString) % SLOTS < (j + SLOTS - old(actString)) % SLOTS)
    {
      hide ReportOf, Playing, CurrentBlock, Stretch, TextLength, Continues;
      NoKey(lut(0));
      ghost var plain, slots := seq(256, _ => 0), strBuf[..];
      Tick(plain);
      assert forall i :: 0 <= i < SLOTS ==> strBuf[i] == strBuf[..][i];
    }

    /** print_deleteStr in the middle of a playback. The keys counted are erased and the string is
        given up; but the record is not forgotten. When the ring comes round, and nothing else was
        queued, the next stretch is typed if and only if the last wanted field has not been
        reached; else nothing more is queued. */
    method DeletePlayback(ghost plain: seq<bv8>)
      requires |plain| == 256 && Playing(plain) && !eos && lut(0) == 0
      requires kbdStatus == Pressed || kbdStatus == Released || kbdStatus == Idle
      modifies this`position, this`counter, this`reached, this`eos, this`actString, this`consumed
      modifies this`reportBuffer, this`presses, this`kbdStatus, this`cCount, this`debounceCount, cipher, strBuf
      modifies this`strokes, this`seen
      ensures Shape() && kbdStatus == Released && reportBuffer == UP
      ensures strBuf[actString].kind != Free <==> old(counter) < crdStop
      ensures (old(counter) < crdStop ==>
                var bp := old(position) % 16;
                strBuf[actString] == Stretch(old(counter), crdStart, bp, TextLength(old(CurrentBlock()), bp)))
      ensures old(counter) >= crdStop ==> AllFree() && SameCounter()
    {
      hide Playing, PlainText, ReportOf, CurrentBlock, Stretch, TextLength, Continues, Backspaces;
      AsksForMore(plain);
      BlockByContents();
      ghost var j, block := actString, CurrentBlock();
      PrintDeleteStr();
      EraseInterrupted();
      GivenUp(old(strBuf[..]), j);
      TurnRing(j);
      BlockByContents();
      StretchTaken(counter, crdStart, position % 16, TextLength(block, position % 16));
      ghost var slots := strBuf[..];
      Tick(seq(256, _ => 0));
      assert forall i :: 0 <= i < SLOTS ==> strBuf[i] == strBuf[..][i];
    }

    twostate predicate SameCounter()
      reads this`counter
    {
      counter == old(counter)
    }

    lemma AsksForMore(plain: seq<bv8>)
      requires |plain| == 256 && Playing(plain)
      ensures Shape() && Alone() && strBuf[actString].callback
    {
      hide Keys, Joined;
    }

    lemma GivenUp(slots: seq<Slot>, j: nat)
      requires Shape() && |slots| == SLOTS && j < SLOTS && slots[j].callback
      requires forall i :: 0 <= i < SLOTS && i != j ==> slots[i].kind == Free
      requires strBuf[..] == slots[j := slots[j].(kind := Free)]
      ensures AllFree() && strBuf[j].callback
    {
      assert forall i :: 0 <= i < SLOTS ==> strBuf[i] == strBuf[..][i];
    }

    lemma BlockByContents()
      requires 0 < flash.cells.Length <= 0x1_0000 && cipher.Length == 32
      ensures CurrentBlock() == if position % 16 == 0
                                then PlainText(flash.cells[..], encrypt, cipher[..][16..], position)
                                else cipher[..][..16]
    {
      hide PlainText;
      assert cipher[16..] == cipher[..][16..] && cipher[..16] == cipher[..][..16];
    }

    lemma NotPressed()
      requires Quiet() && kbdStatus == Released && Watched()
      ensures seen == reportBuffer == UP && strokes == Shown(lut, presses)
    {
      hide ReportOf, Shown;
    }

    lemma StillWatched()
      requires seen == reportBuffer && strokes == Shown(lut, presses)
      ensures Watched()
    {
      hide Shown;
    }
  }

  /** What an earlier string leaves when playback starts: the backspaces still to come, or its
      counter. */
  function Leaves(status: Status, cCount: nat): Debt {
    if status == Delete || status == DeletePressed then Debt(cCount, 0) else Debt(0, cCount)
  }

  lemma NoBackspaces()
    ensures Backspaces(0) == []
  {
  }

  lemma HandsStart(status: Status, key: Report, cCount: nat)
    requires status != Pressed && status != Idle
    requires status != DeletePressed ==> key == UP
    ensures Hands(status, key, true, cCount, [], [], Leaves(status, cCount))
  {
    assert Backspaces(0) == [];
  }

  lemma NothingTyped(plain: seq<bv8>, a: nat)
    requires |plain| == 256
    ensures Joined(plain, a, 0, [], []) && Nuls(plain, 0) == 0
  {
  }

  lemma StretchTaken(counter: nat, start: nat, bp: nat, size: nat)
    ensures Stretch(counter, start, bp, size).kind != Free
  {
  }

  /** The keys of the characters taken: those of the wanted ones, and one for each NUL, which
      the host does not see if the table has no key for it. */
  lemma PlayedKeys(lut: bv8 -> bv8, plain: seq<bv8>, a: nat, e: nat, consumed: seq<bv8>)
    requires |plain| == 256 && Joined(plain, a, e, consumed, [])
    ensures NonNul(consumed) == Typed(plain, a, e)
    ensures |Keys(consumed)| == |Keys(Typed(plain, a, e))| + Blanks(plain, a, e)
    ensures lut(0) == 0 ==> Shown(lut, Keys(consumed)) == Shown(lut, Keys(Typed(plain, a, e)))
  {
    hide Keys, Shown, Typed, Blanks, NonNul, StartsCall;
    JoinedAll(plain, a, e, consumed);
    KeysCount(consumed);
    if lut(0) == 0 {
      ShownKeys(lut, consumed);
    }
  }

  /** Every character has a key or asks for a pause. */
  predicate HasKeys(lut: bv8 -> bv8, s: seq<bv8>) {
    forall c :: c in s ==> c == IDLE_KEY || lut(c) != 0
  }

  lemma {:induction false} KeysOf(s: seq<bv8>)
    ensures |Keys(s)| <= |s| && forall c :: c in Keys(s) ==> c in s && c != IDLE_KEY
  {
    if s != [] {
      var u := s[..|s| - 1];
      assert s[|s| - 1] in s && forall c :: c in u ==> c in s;
      KeysOf(u);
    }
  }

  /** When as many keys are erased as were typed. */
  lemma ErasesExactly(lut: bv8 -> bv8, text: seq<bv8>, fields: seq<seq<bv8>>, start: nat, stale: nat)
    requires |text| == 256 && fields != [] && start <= |fields| && GoodFields(fields)
    requires |Encoded(fields)| <= 256 && text[..|Encoded(fields)|] == Encoded(fields)
    requires HasKeys(lut, Join(fields[start..]))
    ensures var keys := Keys(Join(fields[start..]));
      var blanks := Blanks(text, start, |Encoded(fields)|);
      var counted := if |keys| + blanks == 0 then stale else (|keys| + blanks) % 256;
      && |Shown(lut, keys)| == |keys| < 256
      && (forall i :: 0 <= i < |keys| ==> Strikes(Shown(lut, keys)[i], lut(keys[i])))
      && (counted == |keys| <==> blanks % 256 == 0 && (|keys| + blanks == 0 ==> stale == 0))
      && (|Encoded(fields)| < 256 ==> (blanks % 256 == 0 <==> start == 0 && Snug(fields)))
  {
    hide Keys, Shown, Blanks, Snug, Encoded, Join, Strikes, Visible;
    var keys := Keys(Join(fields[start..]));
    KeysOf(Join(fields[start..]));
    VisibleAll(lut, keys);
    ShownStrikes(lut, keys);
    JoinFits(fields, start);
    NoBlankFields(text, fields, start);
    SameModulo(|keys|, Blanks(text, start, |Encoded(fields)|));
  }

  lemma SameModulo(v: nat, n: nat)
    requires v < 256
    ensures (v + n) % 256 == v <==> n % 256 == 0
  {
    assert v + n == 256 * (n / 256) + (v + n % 256);
    assert n % 256 == 0 ==> (v + n) % 256 == v;
    if n % 256 != 0 {
      if v + n % 256 < 256 {
        assert (v + n) % 256 == v + n % 256;
      } else {
        assert v + n == 256 * (n / 256 + 1) + (v + n % 256 - 256);
        assert (v + n) % 256 == v + n % 256 - 256;
      }
    }
  }

  /** Two fields are skipped, as for a password: two NULs are counted that the host never sees,
      and a later deletion takes two characters too many. */
  lemma SkippingCounts(text: seq<bv8>)
    requires |text| == 256 && text[..6] == [0x75, 0, 0x09, 0, 0x70, 0]
    ensures Encoded([[0x75], [0x09], [0x70]]) == text[..6]
    ensures Blanks(text, 2, 6) == 2 && Typed(text, 2, 6) == [0x70]
  {
    var t := text[..6];
    assert text[0] == t[0] && text[1] == t[1] && text[2] == t[2] && text[3] == t[3] && text[4] == t[4]
      && text[5] == t[5];
    FirstSix(text);
    var fields: seq<seq<bv8>> := [[0x75], [0x09], [0x70]];
    assert fields[..2] == [[0x75], [0x09]] && fields[..2][..1] == [[0x75]] && fields[..2][..1][..0] == [];
    assert Encoded(fields[..2][..1]) == [0x75, 0];
    assert Encoded(fields[..2]) == [0x75, 0, 0x09, 0];
  }

  lemma FirstSix(text: seq<bv8>)
    requires |text| == 256 && text[0] == 0x75 && text[1] == 0 && text[2] == 0x09 && text[3] == 0
    requires text[4] == 0x70 && text[5] == 0
    ensures Blanks(text, 2, 6) == 2 && Typed(text, 2, 6) == [0x70]
  {
    assert Nuls(text, 1) == 0 && Nuls(text, 2) == 1 && Nuls(text, 3) == 1 && Nuls(text, 4) == 2
      && Nuls(text, 5) == 2;
    assert Blanks(text, 2, 1) == 1;
    assert Blanks(text, 2, 2) == 1;
    assert Blanks(text, 2, 3) == 2;
    assert Blanks(text, 2, 4) == 2;
    assert Blanks(text, 2, 5) == 2;
    assert Typed(text, 2, 1) == [];
    assert Typed(text, 2, 2) == [];
    assert Typed(text, 2, 3) == [];
    assert Typed(text, 2, 4) == [];
    assert Typed(text, 2, 5) == [0x70];
  }
}
