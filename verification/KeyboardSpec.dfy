/** The keyboard ring as interleaved steps: an interrupt handler that writes at the head
    and a consumer that tests, reads and advances the tail in three separate steps. */
module KeyboardSpec {

  const SIZE: nat := 128
  const CAPACITY: nat := 127

  type Scancode = n: nat | n < 256

  datatype Mods = Mods(shift: bool, ctrl: bool, alt: bool)

  /** Where the consumer stands: before the emptiness test, before the read, or holding the
      character it read, before the tail advances. */
  datatype Consumer = Testing | Reading | Holding(c: char)

  datatype Event = Key(sc: Scancode) | Turn

  /** A translation table by the rows of the keyboard. */
  function Rows(digits: string, top: string, home: string, bottom: string): string {
    "\0\U{1B}" + digits + "\U{8}\t" + top + "\n\0" + home + "\0" + bottom + "\0*\0 "
  }

  const PLAIN: string := Rows("1234567890-=", "qwertyuiop[]", "asdfghjkl;'`", "\\zxcvbnm,./")
  const SHIFTED: string := Rows("!@#$%^&*()_+", "QWERTYUIOP{}", "ASDFGHJKL:\"~", "|ZXCVBNM<>?")

  function TableAt(table: string, sc: nat): char { if sc < |table| then table[sc] else '\0' }

  predicate IsShift(sc: nat) { sc == 0x2A || sc == 0x36 }

  /** The modifiers after a make or break code. */
  function Modified(mods: Mods, sc: Scancode): Mods {
    var down := sc < 0x80;
    var key := sc % 0x80;
    if IsShift(key) then mods.(shift := down)
    else if key == 0x1D then mods.(ctrl := down)
    else if key == 0x38 then mods.(alt := down)
    else mods
  }

  /** The character a scancode types, or NUL. */
  function Typed(mods: Mods, sc: Scancode): char {
    if sc >= 0x80 || IsShift(sc) || sc == 0x1D || sc == 0x38 then '\0'
    else TableAt(if mods.shift then SHIFTED else PLAIN, sc)
  }

  /** Make codes of the two shift keys, control and alt set their own modifier, their break codes
      clear it, and no other code touches one. */
  lemma ModifierCodes(mods: Mods, sc: Scancode)
    ensures Modified(mods, sc).shift == (sc in {0x2A, 0x36} || (mods.shift && sc !in {0xAA, 0xB6}))
    ensures Modified(mods, sc).ctrl == (sc == 0x1D || (mods.ctrl && sc != 0x9D))
    ensures Modified(mods, sc).alt == (sc == 0x38 || (mods.alt && sc != 0xB8))
  {}

  lemma RowsAt(digits: string, top: string, home: string, bottom: string, k: nat)
    requires |digits| == |top| == |home| == 12 && |bottom| == 11
    ensures var t := Rows(digits, top, home, bottom);
      && |t| == 0x3A && t[0x00] == '\0' && t[0x01] == '\U{1B}' && t[0x0E] == '\U{8}' && t[0x0F] == '\t'
      && t[0x1C] == '\n' && t[0x1D] == t[0x2A] == t[0x36] == t[0x38] == '\0' && t[0x37] == '*' && t[0x39] == ' '
      && (k < 12 ==> t[0x02 + k] == digits[k] && t[0x10 + k] == top[k] && t[0x1E + k] == home[k])
      && (k < 11 ==> t[0x2B + k] == bottom[k])
  {}

  /** The keys of a US keyboard, row by row. */
  lemma KeyRows(mods: Mods, k: nat)
    ensures k < 12 ==> Typed(mods, 0x02 + k) == (if mods.shift then "!@#$%^&*()_+" else "1234567890-=")[k]
    ensures k < 12 ==> Typed(mods, 0x10 + k) == (if mods.shift then "QWERTYUIOP{}" else "qwertyuiop[]")[k]
    ensures k < 12 ==> Typed(mods, 0x1E + k) == (if mods.shift then "ASDFGHJKL:\"~" else "asdfghjkl;'`")[k]
    ensures k < 11 ==> Typed(mods, 0x2B + k) == (if mods.shift then "|ZXCVBNM<>?" else "\\zxcvbnm,./")[k]
  {
    hide Rows;
    RowsAt("1234567890-=", "qwertyuiop[]", "asdfghjkl;'`", "\\zxcvbnm,./", k);
    RowsAt("!@#$%^&*()_+", "QWERTYUIOP{}", "ASDFGHJKL:\"~", "|ZXCVBNM<>?", k);
  }

  /** The other keys, with shift or without: escape, backspace, tab, enter, star and space type
      themselves, all other codes nothing. */
  lemma OtherKeys(mods: Mods, sc: Scancode)
    requires !(0x02 <= sc < 0x0E || 0x10 <= sc < 0x1C || 0x1E <= sc < 0x2A || 0x2B <= sc < 0x36)
    ensures Typed(mods, sc) ==
      if sc == 0x01 then '\U{1B}' else if sc == 0x0E then '\U{8}' else if sc == 0x0F then '\t'
      else if sc == 0x1C then '\n' else if sc == 0x37 then '*' else if sc == 0x39 then ' ' else '\0'
  {
    hide Rows;
    RowsAt("1234567890-=", "qwertyuiop[]", "asdfghjkl;'`", "\\zxcvbnm,./", 0);
    RowsAt("!@#$%^&*()_+", "QWERTYUIOP{}", "ASDFGHJKL:\"~", "|ZXCVBNM<>?", 0);
  }

  predicate SameLetter(plain: char, upper: char) {
    ('a' <= plain <= 'z' <==> 'A' <= upper <= 'Z') && ('a' <= plain <= 'z' ==> plain - 'a' == upper - 'A')
  }

  /** A key types a letter with shift exactly when it types one without: the same one in upper case. */
  lemma ShiftIsUpperCase(mods: Mods, sc: Scancode)
    ensures SameLetter(Typed(mods.(shift := false), sc), Typed(mods.(shift := true), sc))
  {
    hide Typed;
    var plain, upper := mods.(shift := false), mods.(shift := true);
    if 0x02 <= sc < 0x0E {
      KeyRows(plain, sc - 0x02);
      KeyRows(upper, sc - 0x02);
      SameDigits(sc - 0x02);
    } else if 0x10 <= sc < 0x1C {
      KeyRows(plain, sc - 0x10);
      KeyRows(upper, sc - 0x10);
      SameTop(sc - 0x10);
    } else if 0x1E <= sc < 0x2A {
      KeyRows(plain, sc - 0x1E);
      KeyRows(upper, sc - 0x1E);
      SameHome(sc - 0x1E);
    } else if 0x2B <= sc < 0x36 {
      KeyRows(plain, sc - 0x2B);
      KeyRows(upper, sc - 0x2B);
      SameBottom(sc - 0x2B);
    } else {
      OtherKeys(plain, sc);
      OtherKeys(upper, sc);
    }
  }

  lemma SameDigits(k: nat)
    requires k < 12
    ensures SameLetter("1234567890-="[k], "!@#$%^&*()_+"[k])
  {}

  lemma SameTop(k: nat)
    requires k < 12
    ensures SameLetter("qwertyuiop[]"[k], "QWERTYUIOP{}"[k])
  {}

  lemma SameHome(k: nat)
    requires k < 12
    ensures SameLetter("asdfghjkl;'`"[k], "ASDFGHJKL:\"~"[k])
  {}

  lemma SameBottom(k: nat)
    requires k < 11
    ensures SameLetter("\\zxcvbnm,./"[k], "|ZXCVBNM<>?"[k])
  {}

  /** The driver: a ring of `SIZE` slots, and what it has delivered. */
  datatype Ring = Ring(mods: Mods, slots: seq<char>, head: nat, tail: nat, consumer: Consumer, delivered: seq<char>)

  ghost predicate RingOk(r: Ring) {
    |r.slots| == SIZE && r.head < SIZE && r.tail < SIZE
  }

  function RingStep(r: Ring, e: Event): (r': Ring)
    requires RingOk(r)
    ensures RingOk(r')
  {
    match e
    case Key(sc) =>
      var c := Typed(r.mods, sc);
      var next := (r.head + 1) % SIZE;
      if c == '\0' || next == r.tail then r.(mods := Modified(r.mods, sc))
      else r.(slots := r.slots[r.head := c], head := next, mods := Modified(r.mods, sc))
    case Turn =>
      match r.consumer
      case Testing => if r.tail == r.head then r else r.(consumer := Reading)
      case Reading => r.(consumer := Holding(r.slots[r.tail]))
      case Holding(c) => r.(tail := (r.tail + 1) % SIZE, consumer := Testing, delivered := r.delivered + [c])
  }

  function RingRun(r: Ring, events: seq<Event>): (r': Ring)
    requires RingOk(r)
    ensures RingOk(r')
  {
    if events == [] then r else RingStep(RingRun(r, events[..|events| - 1]), events[|events| - 1])
  }

  /** The interrupts of a run. */
  function Keys(events: seq<Event>): seq<Scancode> {
    if events == [] then [] else
      var before, e := Keys(events[..|events| - 1]), events[|events| - 1];
      if e.Key? then before + [e.sc] else before
  }

  // ---- the queue it implements ----

  /** A bounded queue: characters accepted, in order, and those already delivered. */
  datatype Queue = Queue(mods: Mods, pending: seq<char>, consumer: Consumer, accepted: seq<char>, delivered: seq<char>)

  ghost predicate QueueOk(q: Queue) {
    && |q.pending| <= CAPACITY
    && q.accepted == q.delivered + q.pending
    && (q.consumer != Testing ==> q.pending != [])
    && (q.consumer.Holding? ==> q.consumer.c == q.pending[0])
  }

  function QueueStep(q: Queue, e: Event): (q': Queue)
    requires q.consumer != Testing ==> q.pending != []
  {
    match e
    case Key(sc) =>
      var c := Typed(q.mods, sc);
      if c == '\0' || |q.pending| == CAPACITY then q.(mods := Modified(q.mods, sc))
      else q.(pending := q.pending + [c], accepted := q.accepted + [c], mods := Modified(q.mods, sc))
    case Turn =>
      match q.consumer
      case Testing => if q.pending == [] then q else q.(consumer := Reading)
      case Reading => q.(consumer := Holding(q.pending[0]))
      case Holding(c) => q.(pending := q.pending[1..], consumer := Testing, delivered := q.delivered + [q.pending[0]])
  }

  /** Every step keeps the queue honest: what the consumer holds is the oldest character. */
  lemma StepKeepsQueue(q: Queue, e: Event)
    requires QueueOk(q)
    ensures QueueOk(QueueStep(q, e))
  {
    if e.Turn? && q.consumer.Holding? {
      assert q.pending == [q.pending[0]] + q.pending[1..];
    }
  }

  ghost function QueueRun(q: Queue, events: seq<Event>): (q': Queue)
    requires QueueOk(q)
    ensures QueueOk(q')
  {
    if events == [] then q else
      var before := QueueRun(q, events[..|events| - 1]);
      StepKeepsQueue(before, events[|events| - 1]);
      QueueStep(before, events[|events| - 1])
  }

  // ---- the ring refines the queue ----

  function Count(r: Ring): nat
    requires RingOk(r)
  {
    if r.tail <= r.head then r.head - r.tail else r.head + SIZE - r.tail
  }

  function SlotAt(r: Ring, k: nat): nat
    requires RingOk(r) && k < SIZE
  {
    if r.tail + k < SIZE then r.tail + k else r.tail + k - SIZE
  }

  /** The ring's undelivered slots, from the tail up to the head. */
  function Pending(r: Ring): (p: seq<char>)
    requires RingOk(r)
    ensures |p| == Count(r) <= CAPACITY && forall k :: 0 <= k < |p| ==> p[k] == r.slots[SlotAt(r, k)]
  {
    seq(Count(r), k requires 0 <= k < SIZE && RingOk(r) => r.slots[SlotAt(r, k)])
  }

  ghost predicate Matches(r: Ring, q: Queue) {
    RingOk(r) && r.mods == q.mods && Pending(r) == q.pending && r.consumer == q.consumer && r.delivered == q.delivered
  }

  lemma PutMatches(r: Ring, c: char)
    requires RingOk(r) && (r.head + 1) % SIZE != r.tail
    ensures Count(r) < CAPACITY
    ensures Pending(r.(slots := r.slots[r.head := c], head := (r.head + 1) % SIZE)) == Pending(r) + [c]
  {
    var r' := r.(slots := r.slots[r.head := c], head := (r.head + 1) % SIZE);
    assert |Pending(r')| == Count(r') == Count(r) + 1;
    forall k | 0 <= k < Count(r') ensures Pending(r')[k] == (Pending(r) + [c])[k] {
      assert SlotAt(r', k) == SlotAt(r, k) && (SlotAt(r, k) == r.head <==> k == Count(r));
    }
  }

  lemma TakeMatches(r: Ring)
    requires RingOk(r) && r.tail != r.head
    ensures Pending(r.(tail := (r.tail + 1) % SIZE)) == Pending(r)[1..]
  {
    var r' := r.(tail := (r.tail + 1) % SIZE);
    assert Count(r') == Count(r) - 1;
    forall k | 0 <= k < Count(r') ensures Pending(r')[k] == Pending(r)[1..][k] {
      assert SlotAt(r', k) == SlotAt(r, k + 1);
    }
  }

  lemma SamePending(r: Ring, r': Ring)
    requires RingOk(r) && r'.slots == r.slots && r'.head == r.head && r'.tail == r.tail
    ensures RingOk(r') && Pending(r') == Pending(r)
  {
    assert forall k :: 0 <= k < Count(r) ==> SlotAt(r', k) == SlotAt(r, k);
  }

  lemma KeyRefines(r: Ring, q: Queue, sc: Scancode)
    requires Matches(r, q) && QueueOk(q)
    ensures Matches(RingStep(r, Key(sc)), QueueStep(q, Key(sc)))
  {
    hide Pending, SlotAt, Modified, Typed;
    var c, r' := Typed(r.mods, sc), RingStep(r, Key(sc));
    if c != '\0' && (r.head + 1) % SIZE != r.tail {
      PutMatches(r, c);
      SamePending(r.(slots := r.slots[r.head := c], head := (r.head + 1) % SIZE), r');
    } else {
      SamePending(r, r');
    }
  }

  lemma TurnRefines(r: Ring, q: Queue)
    requires Matches(r, q) && QueueOk(q)
    ensures Matches(RingStep(r, Turn), QueueStep(q, Turn))
  {
    var r' := RingStep(r, Turn);
    if r.consumer.Holding? {
      TakeMatches(r);
      SamePending(r.(tail := (r.tail + 1) % SIZE), r');
    } else {
      SamePending(r, r');
    }
  }

  /** One step, whichever side runs: the ring does what the queue does. */
  lemma StepRefines(r: Ring, q: Queue, e: Event)
    requires Matches(r, q) && QueueOk(q)
    ensures Matches(RingStep(r, e), QueueStep(q, e))
  {
    hide *;
    match e
    case Key(sc) => KeyRefines(r, q, sc);
    case Turn => TurnRefines(r, q);
  }

  /** Every interleaving of interrupts and consumer steps. */
  lemma {:induction false} RunRefines(r: Ring, q: Queue, events: seq<Event>)
    requires Matches(r, q) && QueueOk(q)
    ensures Matches(RingRun(r, events), QueueRun(q, events))
  {
    if events != [] {
      var n := |events| - 1;
      RunRefines(r, q, events[..n]);
      StepRefines(RingRun(r, events[..n]), QueueRun(q, events[..n]), events[n]);
    }
  }

  const NO_MODS: Mods := Mods(false, false, false)

  const EMPTY: Queue := Queue(NO_MODS, [], Testing, [], [])

  /** The ring as the driver is initialised. */
  ghost predicate Fresh(r: Ring) {
    RingOk(r) && r.head == r.tail && r.mods == NO_MODS && r.consumer == Testing && r.delivered == []
  }

  function ModsAfter(events: seq<Event>): Mods {
    if events == [] then NO_MODS else
      var before, e := ModsAfter(events[..|events| - 1]), events[|events| - 1];
      if e.Key? then Modified(before, e.sc) else before
  }

  /** Every character the keys typed, whether or not there was room for it. */
  function AllTyped(events: seq<Event>): seq<char> {
    if events == [] then [] else
      var n := |events| - 1;
      var before, e := AllTyped(events[..n]), events[n];
      if e.Key? && Typed(ModsAfter(events[..n]), e.sc) != '\0'
      then before + [Typed(ModsAfter(events[..n]), e.sc)]
      else before
  }

  /** FIFO without loss or duplication: under every interleaving, what was accepted is what was
      delivered followed by what waits in the ring, and at most 127 characters wait. */
  lemma Fifo(r: Ring, events: seq<Event>)
    requires Fresh(r)
    ensures QueueOk(EMPTY)
    ensures var r', q := RingRun(r, events), QueueRun(EMPTY, events);
      r'.delivered + Pending(r') == q.accepted && |Pending(r')| <= 127
  {
    RunRefines(r, EMPTY, events);
  }

  /** At most 127 characters have been typed beyond those delivered. */
  ghost predicate Room(r: Ring, events: seq<Event>)
    requires RingOk(r)
  {
    |AllTyped(events)| <= |RingRun(r, events).delivered| + 127
  }

  /** A character is dropped only when 127 wait: if at every moment fewer than 128 characters
      have been typed beyond those delivered, every typed character is accepted. */
  lemma {:induction false} Lossless(r: Ring, events: seq<Event>)
    requires Fresh(r) && forall k :: 0 <= k <= |events| ==> Room(r, events[..k])
    ensures QueueOk(EMPTY) && QueueRun(EMPTY, events).accepted == AllTyped(events)
    ensures QueueRun(EMPTY, events).mods == ModsAfter(events)
    decreases |events|
  {
    hide Pending, SlotAt, Modified, Typed, RingStep, Room;
    if events != [] {
      var n := |events| - 1;
      var earlier := events[..n];
      forall k | 0 <= k <= n ensures Room(r, earlier[..k]) { assert earlier[..k] == events[..k]; }
      Lossless(r, earlier);
      RunRefines(r, EMPTY, events);
      assert events[..|events|] == events;
      Accepted(r, events);
    }
  }

  /** One more event with room. */
  lemma Accepted(r: Ring, events: seq<Event>)
    requires Fresh(r) && events != [] && Room(r, events) && QueueOk(QueueRun(EMPTY, events))
    requires Matches(RingRun(r, events), QueueRun(EMPTY, events))
    requires QueueRun(EMPTY, events[..|events| - 1]).accepted == AllTyped(events[..|events| - 1])
    requires QueueRun(EMPTY, events[..|events| - 1]).mods == ModsAfter(events[..|events| - 1])
    ensures QueueRun(EMPTY, events).accepted == AllTyped(events) && QueueRun(EMPTY, events).mods == ModsAfter(events)
  {
    hide SlotAt, Modified, Typed, RingStep;
  }

  /** The handler never writes a slot the consumer has yet to deliver. */
  lemma NoOverwrite(r: Ring, sc: Scancode, k: nat)
    requires RingOk(r) && k < Count(r)
    ensures RingStep(r, Key(sc)).slots[SlotAt(r, k)] == r.slots[SlotAt(r, k)]
  {
  }
}
