/** The keyboard driver: the interrupt handler and the consumer's steps on the shared ring. */
module Keyboard {
  import opened KeyboardSpec

  class Driver {
    const buffer: array<char>
    var head: nat
    var tail: nat
    var shiftDown: bool
    var ctrlDown: bool
    var altDown: bool
    ghost var consumer: Consumer
    ghost var delivered: seq<char>

    ghost predicate Valid()
      reads this
    {
      buffer.Length == SIZE && head < SIZE && tail < SIZE
    }

    ghost function State(): (r: Ring)
      requires Valid()
      reads this, buffer
      ensures RingOk(r)
    {
      Ring(Mods(shiftDown, ctrlDown, altDown), buffer[..], head, tail, consumer, delivered)
    }

    constructor ()
      ensures Valid() && Fresh(State()) && fresh(buffer)
    {
      buffer := new char[SIZE];
      head, tail := 0, 0;
      shiftDown, ctrlDown, altDown := false, false, false;
      consumer, delivered := Testing, [];
    }

    /** The interrupt handler. */
    method HandleScancode(sc: Scancode)
      requires Valid()
      modifies buffer, `head, `shiftDown, `ctrlDown, `altDown
      ensures Valid() && State() == RingStep(old(State()), Key(sc))
    {
      hide TableAt;
      if sc >= 0x80 {
        var release := sc % 0x80;
        if release == 0x2A || release == 0x36 {
          shiftDown := false;
        } else if release == 0x1D {
          ctrlDown := false;
        } else if release == 0x38 {
          altDown := false;
        }
        return;
      }
      if sc == 0x2A || sc == 0x36 { shiftDown := true; return; }
      if sc == 0x1D { ctrlDown := true; return; }
      if sc == 0x38 { altDown := true; return; }
      var c := if shiftDown then TableAt(SHIFTED, sc) else TableAt(PLAIN, sc);
      if c != '\0' {
        var next := (head + 1) % SIZE;
        if next != tail {
          buffer[head] := c;
          head := next;
        }
      }
    }

    /** The consumer's test; it moves on only when a character waits. */
    method HasData() returns (data: bool)
      requires Valid() && consumer == Testing
      modifies `consumer
      ensures State() == RingStep(old(State()), Turn) && (data <==> tail != head)
      ensures consumer == if data then Reading else Testing
    {
      data := tail != head;
      if data { consumer := Reading; }
    }

    method ReadSlot() returns (c: char)
      requires Valid() && consumer == Reading
      modifies `consumer
      ensures State() == RingStep(old(State()), Turn) && consumer == Holding(c)
    {
      c := buffer[tail];
      consumer := Holding(c);
    }

    method Advance(c: char)
      requires Valid() && consumer == Holding(c)
      modifies `tail, `consumer, `delivered
      ensures Valid() && State() == RingStep(old(State()), Turn)
      ensures consumer == Testing && delivered == old(delivered) + [c]
    {
      tail := (tail + 1) % SIZE;
      consumer, delivered := Testing, delivered + [c];
    }

    /** Wait for a character and take it; `arrivals` are the interrupts that come while it waits.
        The whole call is one interleaved run of the ring. */
    method GetChar(arrivals: seq<Scancode>) returns (c: char, got: bool, used: nat, ghost events: seq<Event>)
      requires Valid() && consumer == Testing
      modifies this, buffer
      ensures Valid() && consumer == Testing && used <= |arrivals|
      ensures State() == RingRun(old(State()), events) && Keys(events) == arrivals[..used]
      ensures got ==> delivered == old(delivered) + [c]
      ensures !got ==> used == |arrivals| && delivered == old(delivered) && tail == head
    {
      hide RingStep, RingRun, Keys;
      used, got, c := 0, false, '\0';
      events := [];
      NoEvents(old(State()));
      var data := HasData();
      events := Extend(old(State()), events, Turn);
      while !data
        invariant Valid() && used <= |arrivals| && delivered == old(delivered)
        invariant State() == RingRun(old(State()), events) && Keys(events) == arrivals[..used]
        invariant if data then consumer == Reading else consumer == Testing && tail == head
        decreases !data, |arrivals| - used
      {
        if used == |arrivals| { return; }
        HandleScancode(arrivals[used]);
        events := Extend(old(State()), events, Key(arrivals[used]));
        used := used + 1;
        data := HasData();
        events := Extend(old(State()), events, Turn);
      }
      c := ReadSlot();
      events := Extend(old(State()), events, Turn);
      Advance(c);
      events := Extend(old(State()), events, Turn);
      got := true;
    }
  }

  lemma NoEvents(r: Ring)
    requires RingOk(r)
    ensures RingRun(r, []) == r && Keys([]) == []
  {}

  lemma Extend(r: Ring, events: seq<Event>, e: Event) returns (longer: seq<Event>)
    requires RingOk(r)
    ensures longer == events + [e]
    ensures RingRun(r, longer) == RingStep(RingRun(r, events), e)
    ensures Keys(longer) == if e.Key? then Keys(events) + [e.sc] else Keys(events)
  {
    longer := events + [e];
    assert longer[..|events|] == events;
  }
}
