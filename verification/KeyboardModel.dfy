/** The keyboard (src/keyboard.c) as a machine of atomic steps: an interrupt decodes a
    scancode and may enqueue an event; the consumer checks for input, reads a slot and
    moves the tail in three separate steps, and interrupts may come between any two. */
module KeyboardModel {
  import opened Basics

  datatype Event = Character(ch: char) | Up | Down | Left | Right

  // ----- scancodes

  // The rows of the two tables, 64 codes each, NUL where there is no character.

  const NUMBERS := "1234567890-="
  const SYMBOLS := "!@#$%^&*()_+"
  const TOP := "qwertyuiop[]"
  const TOP_SHIFTED := "QWERTYUIOP{}"
  const HOME := "asdfghjkl;'`"
  const HOME_SHIFTED := "ASDFGHJKL:\"~"
  const BOTTOM := "\\zxcvbnm,./"
  const BOTTOM_SHIFTED := "|ZXCVBNM<>?"

  /** A table of the US layout from its four rows. */
  function Table(numbers: seq<char>, top: seq<char>, home: seq<char>, bottom: seq<char>): seq<char> {
    ['\0', '\0'] + numbers + [BACKSPACE, '\t'] + top + ['\n', '\0'] + home + ['\0'] + bottom
    + ['\0', '*', '\0', ' ', '\0', '\0', '\0', '\0', '\0', '\0']
  }

  const PLAIN: seq<char> := Table(NUMBERS, TOP, HOME, BOTTOM)
  const SHIFTED: seq<char> := Table(SYMBOLS, TOP_SHIFTED, HOME_SHIFTED, BOTTOM_SHIFTED)

  datatype Decoder = Decoder(shift: bool, extended: bool)

  /** The decoder after a scancode, and the event it makes, if any. */
  function Decode(d: Decoder, code: u8): (Decoder, Option<Event>) {
    if code == 0xE0 then (d.(extended := true), None)
    else if d.extended then (d.(extended := false), Arrow(code))
    else if code == 0x2A || code == 0x36 then (d.(shift := true), None)
    else if code == 0xAA || code == 0xB6 then (d.(shift := false), None)
    else (d, CharacterOf(d.shift, code))
  }

  /** The event of a code after the extended prefix; releases and other keys make none. */
  function Arrow(code: u8): Option<Event> {
    if code == 0x48 then Some(Up)
    else if code == 0x50 then Some(Down)
    else if code == 0x4B then Some(Left)
    else if code == 0x4D then Some(Right)
    else None
  }

  function CharacterOf(shift: bool, code: u8): Option<Event> {
    if code >= 0x80 || code >= 64 then None
    else
      var c := if shift then SHIFTED[code] else PLAIN[code];
      if c == '\0' then None else Some(Character(c))
  }

  function DecoderAfter(codes: seq<u8>): Decoder {
    if codes == [] then Decoder(false, false)
    else Decode(DecoderAfter(codes[..|codes| - 1]), codes[|codes| - 1]).0
  }

  /** The events that a stream of scancodes makes. */
  function DecodeAll(codes: seq<u8>): seq<Event> {
    if codes == [] then []
    else
      var n := |codes| - 1;
      DecodeAll(codes[..n]) + AsSeq(Decode(DecoderAfter(codes[..n]), codes[n]).1)
  }

  function AsSeq<T>(o: Option<T>): seq<T> {
    match o case None => [] case Some(x) => [x]
  }

  /** Code i comes right after an extended prefix. */
  predicate Prefixed(codes: seq<u8>, i: nat) {
    0 < i < |codes| && codes[i - 1] == 0xE0
  }

  predicate ShiftCode(code: u8) {
    code == 0x2A || code == 0x36 || code == 0xAA || code == 0xB6
  }

  /** Code i presses a shift key, and no later code presses or releases one. */
  ghost predicate LastShiftIsPress(codes: seq<u8>, i: nat) {
    && i < |codes| && (codes[i] == 0x2A || codes[i] == 0x36) && !Prefixed(codes, i)
    && forall j :: i < j < |codes| && ShiftCode(codes[j]) ==> Prefixed(codes, j)
  }

  /** The decoder's state, read off the stream: the prefix flag is set exactly after a
      prefix, and shift exactly when the last unprefixed shift code is a press. */
  lemma {:induction false} DecoderMeaning(codes: seq<u8>)
    ensures DecoderAfter(codes).extended <==> codes != [] && codes[|codes| - 1] == 0xE0
    ensures DecoderAfter(codes).shift <==> exists i :: LastShiftIsPress(codes, i)
    decreases |codes|
  {
    if codes != [] {
      var n := |codes| - 1;
      var front := codes[..n];
      DecoderMeaning(front);
      assert Prefixed(codes, n) <==> DecoderAfter(front).extended;
      forall j | 0 <= j < n ensures Prefixed(front, j) <==> Prefixed(codes, j) {
      }
      if ShiftCode(codes[n]) && !Prefixed(codes, n) {
        assert forall i :: LastShiftIsPress(codes, i) ==> i == n;
        assert LastShiftIsPress(codes, n) <==> codes[n] == 0x2A || codes[n] == 0x36;
      } else {
        forall i | 0 <= i < n ensures LastShiftIsPress(codes, i) <==> LastShiftIsPress(front, i) {
        }
      }
    }
  }

  // ----- keys

  /** A row of keys: the code of the first, and what they type without and with shift. */
  datatype KeyRow = KeyRow(first: nat, plain: seq<char>, shifted: seq<char>) {
    predicate Has(code: nat) { first <= code < first + |plain| }
  }

  /** The keys that type something. */
  function Layout(): seq<KeyRow> {
    [KeyRow(0x02, "1234567890-=", "!@#$%^&*()_+"),
     KeyRow(0x0E, [BACKSPACE, '\t'], [BACKSPACE, '\t']),
     KeyRow(0x10, "qwertyuiop[]\n", "QWERTYUIOP{}\n"),
     KeyRow(0x1E, "asdfghjkl;'`", "ASDFGHJKL:\"~"),
     KeyRow(0x2B, "\\zxcvbnm,./", "|ZXCVBNM<>?"),
     KeyRow(0x37, "*", "*"),
     KeyRow(0x39, " ", " ")]
  }

  /** The last code is an extended prefix. */
  predicate AfterPrefix(codes: seq<u8>) {
    codes != [] && codes[|codes| - 1] == 0xE0
  }

  ghost predicate ShiftHeld(codes: seq<u8>) {
    exists i :: LastShiftIsPress(codes, i)
  }

  lemma DecodedNext(codes: seq<u8>, code: u8)
    ensures DecoderAfter(codes + [code]) == Decode(DecoderAfter(codes), code).0
    ensures DecodeAll(codes + [code]) == DecodeAll(codes) + AsSeq(Decode(DecoderAfter(codes), code).1)
  {
    assert (codes + [code])[..|codes|] == codes;
    hide Decode;
  }

  /** After a prefix the four arrow keys make their events, and no other code makes any. */
  lemma ArrowKeys(codes: seq<u8>, code: u8)
    requires AfterPrefix(codes)
    ensures code == 0x48 ==> DecodeAll(codes + [code]) == DecodeAll(codes) + [Up]
    ensures code == 0x50 ==> DecodeAll(codes + [code]) == DecodeAll(codes) + [Down]
    ensures code == 0x4B ==> DecodeAll(codes + [code]) == DecodeAll(codes) + [Left]
    ensures code == 0x4D ==> DecodeAll(codes + [code]) == DecodeAll(codes) + [Right]
    ensures code !in {0x48, 0x50, 0x4B, 0x4D} ==> DecodeAll(codes + [code]) == DecodeAll(codes)
  {
    DecodedNext(codes, code);
    DecoderMeaning(codes);
    hide DecodeAll, DecoderAfter, LastShiftIsPress;
  }

  lemma TableRows(numbers: seq<char>, top: seq<char>, home: seq<char>, bottom: seq<char>)
    requires |numbers| == |top| == |home| == 12 && |bottom| == 11
    ensures var t := Table(numbers, top, home, bottom);
            && |t| == 64
            && (forall i :: 0 <= i < 12 ==> t[2 + i] == numbers[i])
            && t[0x0E] == BACKSPACE && t[0x0F] == '\t'
            && (forall i :: 0 <= i < 12 ==> t[0x10 + i] == top[i])
            && t[0x1C] == '\n'
            && (forall i :: 0 <= i < 12 ==> t[0x1E + i] == home[i])
            && (forall i :: 0 <= i < 11 ==> t[0x2B + i] == bottom[i])
            && t[0x37] == '*' && t[0x39] == ' '
            && (forall i :: 0 <= i < 64 && i in {0, 1, 0x1D, 0x2A, 0x36, 0x38} ==> t[i] == '\0')
            && (forall i :: 0x3A <= i < 64 ==> t[i] == '\0')
  {
  }

  /** The rows of the layout in terms of those of the tables. */
  lemma LayoutRows()
    ensures Layout() ==
            [KeyRow(0x02, NUMBERS, SYMBOLS), KeyRow(0x0E, [BACKSPACE, '\t'], [BACKSPACE, '\t']),
             KeyRow(0x10, TOP + ['\n'], TOP_SHIFTED + ['\n']), KeyRow(0x1E, HOME, HOME_SHIFTED),
             KeyRow(0x2B, BOTTOM, BOTTOM_SHIFTED), KeyRow(0x37, ['*'], ['*']), KeyRow(0x39, [' '], [' '])]
    ensures |NUMBERS| == |SYMBOLS| == |TOP| == |TOP_SHIFTED| == |HOME| == |HOME_SHIFTED| == 12
    ensures |BOTTOM| == |BOTTOM_SHIFTED| == 11
  {
    assert "qwertyuiop[]\n" == TOP + ['\n'] && "QWERTYUIOP{}\n" == TOP_SHIFTED + ['\n'];
  }

  lemma Visible()
    ensures '\0' !in NUMBERS && '\0' !in SYMBOLS && '\0' !in TOP && '\0' !in TOP_SHIFTED
    ensures '\0' !in HOME && '\0' !in HOME_SHIFTED && '\0' !in BOTTOM && '\0' !in BOTTOM_SHIFTED
  {
  }

  /** Row r is in the table t with what it types. */
  ghost predicate RowIn(first: nat, types: seq<char>, t: seq<char>) {
    && first + |types| <= |t|
    && forall i :: 0 <= i < |types| ==> t[first + i] == types[i] != '\0'
  }

  lemma RowsInTable(numbers: seq<char>, top: seq<char>, home: seq<char>, bottom: seq<char>)
    requires |numbers| == |top| == |home| == 12 && |bottom| == 11
    requires '\0' !in numbers && '\0' !in top && '\0' !in home && '\0' !in bottom
    ensures var t := Table(numbers, top, home, bottom);
            && RowIn(0x02, numbers, t) && RowIn(0x0E, [BACKSPACE, '\t'], t) && RowIn(0x10, top + ['\n'], t)
            && RowIn(0x1E, home, t) && RowIn(0x2B, bottom, t) && RowIn(0x37, ['*'], t) && RowIn(0x39, [' '], t)
  {
    TableRows(numbers, top, home, bottom);
    hide Table, RowIn;
    var t := Table(numbers, top, home, bottom);
    RowIs(0x02, numbers, t);
    RowIs(0x0E, [BACKSPACE, '\t'], t);
    RowIs(0x10, top + ['\n'], t);
    RowIs(0x1E, home, t);
    RowIs(0x2B, bottom, t);
    RowIs(0x37, ['*'], t);
    RowIs(0x39, [' '], t);
  }

  lemma RowIs(first: nat, types: seq<char>, t: seq<char>)
    requires first + |types| <= |t| && '\0' !in types
    requires forall i :: 0 <= i < |types| ==> t[first + i] == types[i]
    ensures RowIn(first, types, t)
  {
  }

  lemma PlainRows()
    ensures forall r <- Layout() :: RowIn(r.first, r.plain, PLAIN)
  {
    LayoutRows();
    Visible();
    RowsInTable(NUMBERS, TOP, HOME, BOTTOM);
    hide RowIn, Table, Layout;
  }

  lemma ShiftedRows()
    ensures forall r <- Layout() :: RowIn(r.first, r.shifted, SHIFTED)
  {
    LayoutRows();
    Visible();
    RowsInTable(SYMBOLS, TOP_SHIFTED, HOME_SHIFTED, BOTTOM_SHIFTED);
    hide RowIn, Table, Layout;
  }

  lemma LayoutShape()
    ensures |PLAIN| == |SHIFTED| == 64
    ensures forall r <- Layout() :: |r.plain| == |r.shifted| && !r.Has(0x2A) && !r.Has(0x36) && r.first + |r.plain| <= 64
  {
    TableRows(NUMBERS, TOP, HOME, BOTTOM);
    TableRows(SYMBOLS, TOP_SHIFTED, HOME_SHIFTED, BOTTOM_SHIFTED);
    LayoutRows();
    hide Table, Layout;
  }

  /** The tables give every row of the layout what its keys type. */
  lemma LayoutInTables(r: KeyRow, i: nat)
    requires r in Layout() && i < |r.plain|
    ensures |r.plain| == |r.shifted| && r.first + i < 64 && !ShiftCode(r.first + i)
    ensures |PLAIN| == |SHIFTED| == 64
    ensures PLAIN[r.first + i] == r.plain[i] != '\0' && SHIFTED[r.first + i] == r.shifted[i] != '\0'
  {
    hide Table, Layout;
    PlainRows();
    ShiftedRows();
    LayoutShape();
    assert RowIn(r.first, r.plain, PLAIN) && RowIn(r.first, r.shifted, SHIFTED);
    assert !r.Has(0x2A) && !r.Has(0x36);
  }

  /** Without a prefix before it, the code of a key types the key's character, the
      shifted one exactly while a shift key is held. */
  lemma KeyTypes(codes: seq<u8>, r: KeyRow, i: nat)
    requires !AfterPrefix(codes) && r in Layout() && i < |r.plain|
    ensures |r.plain| == |r.shifted| && r.first + i < 64
    ensures DecodeAll(codes + [r.first + i])
         == DecodeAll(codes) + [Character(if ShiftHeld(codes) then r.shifted[i] else r.plain[i])]
  {
    LayoutInTables(r, i);
    DecodedNext(codes, r.first + i);
    DecoderMeaning(codes);
    hide DecodeAll, DecoderAfter, Layout, Table, LastShiftIsPress;
  }

  /** No other code types anything: releases, shift keys, prefixes, unused codes. */
  lemma OtherCodesSilent(codes: seq<u8>, code: u8)
    requires !AfterPrefix(codes) && forall r <- Layout() :: !r.Has(code)
    ensures DecodeAll(codes + [code]) == DecodeAll(codes)
  {
    SilentInTables(code);
    DecodedNext(codes, code);
    DecoderMeaning(codes);
    hide DecodeAll, DecoderAfter, Layout, Table, LastShiftIsPress;
  }

  lemma SilentInTables(code: u8)
    requires forall r <- Layout() :: !r.Has(code)
    ensures code < 64 ==> PLAIN[code] == '\0' && SHIFTED[code] == '\0'
  {
    TableRows(NUMBERS, TOP, HOME, BOTTOM);
    TableRows(SYMBOLS, TOP_SHIFTED, HOME_SHIFTED, BOTTOM_SHIFTED);
    var l := Layout();
    assert !l[0].Has(code) && !l[1].Has(code) && !l[2].Has(code) && !l[3].Has(code)
        && !l[4].Has(code) && !l[5].Has(code) && !l[6].Has(code);
    hide Table;
  }

  // ----- the ring

  /** What the consumer has done of taking one event. */
  datatype Phase = Idle | Checked | Holding(event: Event)

  /** A decoded event, how many events were pending, and whether it was enqueued. */
  datatype Offer = Offer(event: Event, pending: nat, taken: bool)

  /** `codes`, `offers` and `delivered` are the history of the run. */
  datatype Keyboard = Keyboard(
    decoder: Decoder, slots: seq<Event>, head: nat, tail: nat, phase: Phase,
    codes: seq<u8>, offers: seq<Offer>, delivered: seq<Event>)

  function Count(head: nat, tail: nat): (n: nat)
    requires head < 256 && tail < 256
    ensures n == if head >= tail then head - tail else head + 256 - tail
  {
    (head + 256 - tail) % 256
  }

  lemma NextIndex(i: nat)
    requires i < 256
    ensures (i + 1) % 256 == if i == 255 then 0 else i + 1
  {
  }

  /** The slot of the i-th pending event. */
  lemma SlotIndex(tail: nat, i: nat)
    requires tail < 256 && i < 256
    ensures (tail + i) % 256 == if tail + i < 256 then tail + i else tail + i - 256
  {
  }

  /** The events in the ring, oldest first. */
  function Pending(slots: seq<Event>, head: nat, tail: nat): (r: seq<Event>)
    requires |slots| == 256 && head < 256 && tail < 256
    ensures |r| == Count(head, tail)
    ensures forall i :: 0 <= i < |r| ==> r[i] == slots[(tail + i) % 256]
  {
    seq(Count(head, tail), i requires 0 <= i < Count(head, tail) => slots[(tail + i) % 256])
  }

  function Taken(offers: seq<Offer>): seq<Event> {
    if offers == [] then []
    else
      var o := offers[|offers| - 1];
      Taken(offers[..|offers| - 1]) + (if o.taken then [o.event] else [])
  }

  function Offered(offers: seq<Offer>): seq<Event> {
    seq(|offers|, i requires 0 <= i < |offers| => offers[i].event)
  }

  ghost predicate Invariant(k: Keyboard) {
    && |k.slots| == 256 && k.head < 256 && k.tail < 256
    && k.decoder == DecoderAfter(k.codes)
    && var pending := Pending(k.slots, k.head, k.tail);
       && k.delivered + pending == Taken(k.offers)
       && Offered(k.offers) == DecodeAll(k.codes)
       && (forall o <- k.offers :: o.pending <= 255 && (o.taken <==> o.pending < 255))
       && (k.phase != Idle ==> pending != [])
       && (k.phase.Holding? ==> k.phase.event == k.slots[k.tail])
  }

  // ----- steps

  datatype Action = Interrupt(code: u8) | Check | Read | Advance

  predicate Enabled(k: Keyboard, a: Action) {
    match a
    case Interrupt(_) => true
    case Check => k.phase == Idle
    case Read => k.phase == Checked
    case Advance => k.phase.Holding?
  }

  /** Enqueues unless the ring is full: one slot always stays unused. */
  function Enqueue(k: Keyboard, e: Event): Keyboard
    requires |k.slots| == 256 && k.head < 256 && k.tail < 256
  {
    var next := (k.head + 1) % 256;
    var offer := Offer(e, Count(k.head, k.tail), next != k.tail);
    if next != k.tail then
      k.(slots := k.slots[k.head := e], head := next, offers := k.offers + [offer])
    else k.(offers := k.offers + [offer])
  }

  function ProcessScancode(k: Keyboard, code: u8): Keyboard
    requires |k.slots| == 256 && k.head < 256 && k.tail < 256
  {
    var (decoder, event) := Decode(k.decoder, code);
    var k' := k.(decoder := decoder, codes := k.codes + [code]);
    match event
    case None => k'
    case Some(e) => Enqueue(k', e)
  }

  function Step(k: Keyboard, a: Action): Keyboard
    requires |k.slots| == 256 && k.head < 256 && k.tail < 256 && Enabled(k, a)
  {
    match a
    case Interrupt(code) => ProcessScancode(k, code)
    case Check => k.(phase := if k.head != k.tail then Checked else Idle)
    case Read => k.(phase := Holding(k.slots[k.tail]))
    case Advance => k.(tail := (k.tail + 1) % 256, phase := Idle, delivered := k.delivered + [k.phase.event])
  }

  lemma EnqueuePending(slots: seq<Event>, head: nat, tail: nat, e: Event)
    requires |slots| == 256 && head < 256 && tail < 256
    ensures (head + 1) % 256 != tail <==> Count(head, tail) < 255
    ensures (head + 1) % 256 != tail ==>
              Pending(slots[head := e], (head + 1) % 256, tail) == Pending(slots, head, tail) + [e]
              && (head != tail ==> slots[head := e][tail] == slots[tail])
  {
    CountAfterEnqueue(head, tail);
    hide Pending, Count;
    if (head + 1) % 256 != tail {
      var after := Pending(slots[head := e], (head + 1) % 256, tail);
      forall i | 0 <= i < Count(head, tail) ensures after[i] == Pending(slots, head, tail)[i] {
        HeadSlot(head, tail, i);
      }
    }
  }

  lemma CountAfterEnqueue(head: nat, tail: nat)
    requires head < 256 && tail < 256
    ensures (head + 1) % 256 != tail <==> Count(head, tail) < 255
    ensures (head + 1) % 256 != tail ==> Count((head + 1) % 256, tail) == Count(head, tail) + 1
    ensures (tail + Count(head, tail)) % 256 == head
  {
    hide Count;
    NextIndex(head);
    SlotIndex(tail, Count(head, tail));
  }

  /** No pending event is in the slot at the head. */
  lemma HeadSlot(head: nat, tail: nat, i: nat)
    requires head < 256 && tail < 256 && i < Count(head, tail)
    ensures (tail + i) % 256 != head
  {
    hide Count;
    SlotIndex(tail, i);
  }

  lemma AdvancePending(slots: seq<Event>, head: nat, tail: nat)
    requires |slots| == 256 && head < 256 && tail < 256 && head != tail
    ensures Pending(slots, head, tail) == [slots[tail]] + Pending(slots, head, (tail + 1) % 256)
  {
    CountAfterAdvance(head, tail);
    hide Pending, Count;
    var rest := Pending(slots, head, (tail + 1) % 256);
    forall i | 0 <= i < |rest| ensures rest[i] == Pending(slots, head, tail)[i + 1] {
      NextSlot(tail, i);
    }
  }

  lemma CountAfterAdvance(head: nat, tail: nat)
    requires head < 256 && tail < 256 && head != tail
    ensures Count(head, (tail + 1) % 256) == Count(head, tail) - 1
  {
    hide Count;
    NextIndex(tail);
  }

  lemma NextSlot(tail: nat, i: nat)
    requires tail < 256 && i < 255
    ensures ((tail + 1) % 256 + i) % 256 == (tail + (i + 1)) % 256
  {
    NextIndex(tail);
    SlotIndex((tail + 1) % 256, i);
    SlotIndex(tail, i + 1);
  }

  /** The invariant but for the stream, which already has the code of event e. */
  lemma EnqueueKeeps(k: Keyboard, e: Event)
    requires |k.slots| == 256 && k.head < 256 && k.tail < 256
    requires k.delivered + Pending(k.slots, k.head, k.tail) == Taken(k.offers)
    requires k.phase != Idle ==> k.head != k.tail
    ensures var k' := Enqueue(k, e);
            && k'.delivered + Pending(k'.slots, k'.head, k'.tail) == Taken(k'.offers)
            && Offered(k'.offers) == Offered(k.offers) + [e]
            && (k.head != k.tail ==> k'.head != k'.tail && k'.slots[k.tail] == k.slots[k.tail])
            && k'.offers[..|k.offers|] == k.offers && |k'.offers| == |k.offers| + 1
            && k'.offers[|k.offers|].pending <= 255
            && (k'.offers[|k.offers|].taken <==> k'.offers[|k.offers|].pending < 255)
  {
    hide Pending, Count, Taken, Offered;
    EnqueuePending(k.slots, k.head, k.tail, e);
    var offer := Offer(e, Count(k.head, k.tail), (k.head + 1) % 256 != k.tail);
    OneMoreOffer(k.offers, offer);
    NextIndex(k.head);
  }

  lemma OneMoreOffer(offers: seq<Offer>, offer: Offer)
    ensures Taken(offers + [offer]) == Taken(offers) + (if offer.taken then [offer.event] else [])
    ensures Offered(offers + [offer]) == Offered(offers) + [offer.event]
    ensures (offers + [offer])[..|offers|] == offers
  {
    var all := offers + [offer];
    assert all[..|offers|] == offers && all[|all| - 1] == offer;
    OfferedNext(offers, offer);
    hide Offered;
  }

  lemma OfferedNext(offers: seq<Offer>, offer: Offer)
    ensures Offered(offers + [offer]) == Offered(offers) + [offer.event]
  {
    var left, right := Offered(offers + [offer]), Offered(offers) + [offer.event];
    assert |left| == |right|;
    forall i | 0 <= i < |left| ensures left[i] == right[i] {
    }
  }

  lemma InterruptKeeps(k: Keyboard, code: u8)
    requires Invariant(k)
    ensures Invariant(ProcessScancode(k, code))
  {
    hide Decode, DecodeAll, DecoderAfter, Pending, Taken, Offered;
    var (decoder, event) := Decode(k.decoder, code);
    var codes := k.codes + [code];
    DecodedNext(k.codes, code);
    assert |Pending(k.slots, k.head, k.tail)| == Count(k.head, k.tail);
    match event
    case None =>
    case Some(e) =>
      EnqueueKeeps(k.(decoder := decoder, codes := codes), e);
      var k' := ProcessScancode(k, code);
      assert |Pending(k'.slots, k'.head, k'.tail)| == Count(k'.head, k'.tail);
  }

  lemma AdvanceKeeps(k: Keyboard)
    requires Invariant(k) && k.phase.Holding?
    ensures Invariant(Step(k, Advance))
  {
    hide Taken, Offered, DecodeAll, DecoderAfter, Pending;
    var pending := Pending(k.slots, k.head, k.tail);
    assert |pending| > 0;
    AdvancePending(k.slots, k.head, k.tail);
    var rest := Pending(k.slots, k.head, (k.tail + 1) % 256);
    assert k.delivered + pending == k.delivered + [k.phase.event] + rest;
  }

  lemma StepKeeps(k: Keyboard, a: Action)
    requires Invariant(k) && Enabled(k, a)
    ensures Invariant(Step(k, a))
  {
    match a
    case Interrupt(code) => InterruptKeeps(k, code);
    case Check => assert |Pending(k.slots, k.head, k.tail)| == Count(k.head, k.tail);
    case Read =>
    case Advance => AdvanceKeeps(k);
  }

  /** The consumer's three steps in a row, when there is input. */
  function AfterGet(k: Keyboard): Keyboard
    requires |k.slots| == 256 && k.tail < 256
  {
    k.(tail := (k.tail + 1) % 256, phase := Idle, delivered := k.delivered + [k.slots[k.tail]])
  }

  /** With input, checking, reading and advancing deliver the oldest pending event and
      leave the others pending; without input, checking does nothing. */
  lemma GetTakesOldest(k: Keyboard)
    requires Invariant(k) && k.phase == Idle
    ensures Pending(k.slots, k.head, k.tail) == [] ==> Step(k, Check) == k
    ensures Pending(k.slots, k.head, k.tail) != [] ==>
              && Step(k, Check).phase == Checked
              && Step(Step(k, Check), Read).phase == Holding(Pending(k.slots, k.head, k.tail)[0])
              && var after := Step(Step(Step(k, Check), Read), Advance);
                 && after == AfterGet(k)
                 && after.delivered == k.delivered + [Pending(k.slots, k.head, k.tail)[0]]
                 && Pending(after.slots, after.head, after.tail) == Pending(k.slots, k.head, k.tail)[1..]
  {
    hide Pending, Taken, Offered, DecodeAll, DecoderAfter;
    assert |Pending(k.slots, k.head, k.tail)| == Count(k.head, k.tail);
    if k.head != k.tail {
      AdvancePending(k.slots, k.head, k.tail);
    }
  }

  /** The interrupts that come while the consumer waits. */
  ghost function Interrupted(k: Keyboard, codes: seq<u8>): (r: Keyboard)
    requires Invariant(k)
    ensures Invariant(r) && r.phase == k.phase
  {
    if codes == [] then k
    else
      var before := Interrupted(k, codes[..|codes| - 1]);
      InterruptKeeps(before, codes[|codes| - 1]);
      ProcessScancode(before, codes[|codes| - 1])
  }

  lemma InterruptedNext(k: Keyboard, codes: seq<u8>, code: u8)
    requires Invariant(k)
    ensures Interrupted(k, codes + [code]) == Step(Interrupted(k, codes), Interrupt(code))
  {
    assert (codes + [code])[..|codes|] == codes;
    hide Invariant;
  }

  // ----- runs

  ghost predicate Schedule(k: Keyboard, actions: seq<Action>)
    requires Invariant(k)
    decreases |actions|
  {
    actions == []
    || (Enabled(k, actions[0])
        && (StepKeeps(k, actions[0]);
            Schedule(Step(k, actions[0]), actions[1..])))
  }

  ghost function Run(k: Keyboard, actions: seq<Action>): Keyboard
    requires Invariant(k) && Schedule(k, actions)
    decreases |actions|
  {
    if actions == [] then k
    else
      StepKeeps(k, actions[0]);
      Run(Step(k, actions[0]), actions[1..])
  }

  /** The state after a reset, whatever the ring's slots hold. */
  function Reset(slots: seq<Event>): (k: Keyboard)
    requires |slots| == 256
    ensures Invariant(k)
  {
    Keyboard(Decoder(false, false), slots, 0, 0, Idle, [], [], [])
  }

  lemma {:induction false} RunKeeps(k: Keyboard, actions: seq<Action>)
    requires Invariant(k) && Schedule(k, actions)
    ensures Invariant(Run(k, actions))
    decreases |actions|
  {
    if actions != [] {
      StepKeeps(k, actions[0]);
      RunKeeps(Step(k, actions[0]), actions[1..]);
    }
  }

  /** Under every interleaving from a reset: what was delivered, followed by what is
      pending, is what was taken, in order; what was taken are the decoded events less
      those that came when 255 were pending; and an event being read is not overwritten. */
  lemma NothingLost(slots: seq<Event>, actions: seq<Action>)
    requires |slots| == 256 && Schedule(Reset(slots), actions)
    ensures var k := Run(Reset(slots), actions);
            && |k.slots| == 256 && k.head < 256 && k.tail < 256
            && k.delivered + Pending(k.slots, k.head, k.tail) == Taken(k.offers)
            && |Pending(k.slots, k.head, k.tail)| <= 255
            && Offered(k.offers) == DecodeAll(k.codes)
            && (forall o <- k.offers :: !o.taken <==> o.pending == 255)
            && (k.phase.Holding? ==> k.phase.event == k.slots[k.tail])
  {
    RunKeeps(Reset(slots), actions);
  }

  /** As long as the ring never filled up, the consumer sees every decoded event. */
  lemma {:induction false} TakenAll(offers: seq<Offer>)
    requires forall o <- offers :: o.taken
    ensures Taken(offers) == Offered(offers)
  {
    if offers != [] {
      var n := |offers| - 1;
      TakenAll(offers[..n]);
      assert Offered(offers) == Offered(offers[..n]) + [offers[n].event];
    }
  }
}
