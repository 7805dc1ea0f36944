/** keyboard.c: one key ring a process; keys go to the process in the foreground, the running task pops. */
module Keyboard {
  import opened Words

  const RING: int := 0x400
  const NONE: byte := 0

  /** struct keyboard_buffer; head and tail only ever count up, in 32 bits. */
  datatype Ring = Ring(buffer: seq<byte>, head: u32, tail: u32)

  /** Slot of the key i places behind the head. */
  function Slot(head: u32, i: nat): (j: nat)
    requires i <= RING
    ensures j < RING
  {
    var h := head % RING;
    if h + i < RING then h + i else h + i - RING
  }

  function Count(r: Ring): nat {
    Sub32(r.tail, r.head)
  }

  /** Keys pushed and not yet popped, oldest first. */
  function Pending(r: Ring): (keys: seq<byte>)
    requires |r.buffer| == RING && Count(r) <= RING
    ensures |keys| == Count(r)
    ensures forall i :: 0 <= i < |keys| ==> keys[i] == r.buffer[Slot(r.head, i)]
  {
    seq(Count(r), i requires 0 <= i < Count(r) => r.buffer[Slot(r.head, i)])
  }

  /** How far slot j lies behind the head. */
  function SlotsAhead(head: u32, j: nat): (d: nat)
    requires j < RING
    ensures d < RING && Slot(head, d) == j
  {
    var h := head % RING;
    if j >= h then j - h else j - h + RING
  }

  /** Exactly the slots from head to tail hold a key. */
  ghost predicate RingOK(r: Ring) {
    && |r.buffer| == RING && Count(r) <= RING
    && forall j: nat :: j < RING ==> (r.buffer[j] != NONE <==> SlotsAhead(r.head, j) < Count(r))
  }

  function Pushed(r: Ring, c: byte): Ring
    requires |r.buffer| == RING
  {
    if c == NONE then r
    else r.(buffer := r.buffer[r.tail % RING := c], tail := Add32(r.tail, 1))
  }

  function Popped(r: Ring): Ring
    requires |r.buffer| == RING
  {
    if r.buffer[r.head % RING] == NONE then r
    else r.(buffer := r.buffer[r.head % RING := NONE], head := Add32(r.head, 1))
  }

  lemma TailSlot(r: Ring)
    requires Count(r) <= RING
    ensures r.tail % RING == Slot(r.head, Count(r))
  {
    if r.tail >= r.head {
      SlotOfSum(r.head, Count(r), r.tail);
    } else {
      SlotOfSum(r.head, Count(r), r.tail + TWO_32);
      assert (r.tail + TWO_32) % RING == r.tail % RING;
    }
  }

  lemma SlotOfSum(head: u32, n: nat, sum: nat)
    requires n <= RING && sum == head + n
    ensures sum % RING == Slot(head, n)
  {
    var q, h := head / RING, head % RING;
    assert sum == q * RING + (h + n);
    if h + n < RING {
      RemainderIs(sum, q, h + n);
    } else {
      RemainderIs(sum, q + 1, h + n - RING);
    }
  }

  lemma RemainderIs(x: nat, q: nat, r: nat)
    requires x == q * RING + r && r < RING
    ensures x % RING == r
  {
  }

  /** With room in the ring a key goes to the end of what is pending; NUL goes nowhere. */
  lemma PushAppends(r: Ring, c: byte)
    requires RingOK(r) && Count(r) < 0x400
    ensures RingOK(Pushed(r, c))
    ensures Pending(Pushed(r, c)) == Pending(r) + if c == NONE then [] else [c]
  {
    if c != NONE {
      TailSlot(r);
      var s := Pushed(r, c);
      assert Count(s) == Count(r) + 1;
      forall j: nat | j < RING
        ensures s.buffer[j] != NONE <==> SlotsAhead(s.head, j) < Count(s)
      {
        assert j == r.tail % RING <==> SlotsAhead(r.head, j) == Count(r);
      }
      forall i | 0 <= i < Count(r)
        ensures Pending(s)[i] == Pending(r)[i]
      {
        assert Slot(r.head, i) != r.tail % RING;
      }
      assert Pending(s) == Pending(r) + [c];
    }
  }

  /** On a full ring the new key overwrites the oldest one, and is what the next pop yields. */
  lemma PushOnFullRing(r: Ring, c: byte)
    requires RingOK(r) && Count(r) == RING && c != NONE
    ensures !RingOK(Pushed(r, c))
    ensures Pushed(r, c).buffer[r.head % RING] == c
    ensures Pending(r) != [] && r.buffer[r.head % RING] == Pending(r)[0]
  {
    TailSlot(r);
    assert Slot(r.head, 0) == r.head % RING;
  }

  /** A pop yields the oldest pending key, or NUL when there is none. */
  lemma PopTakesFirst(r: Ring)
    requires RingOK(r)
    ensures RingOK(Popped(r))
    ensures r.buffer[r.head % RING] == if Pending(r) == [] then NONE else Pending(r)[0]
    ensures r.buffer[r.head % RING] == NONE <==> Pending(r) == []
    ensures Pending(Popped(r)) == if Pending(r) == [] then [] else Pending(r)[1..]
  {
    var j := r.head % RING;
    assert Slot(r.head, 0) == j && SlotsAhead(r.head, j) == 0;
    if r.buffer[j] != NONE {
      var s := Popped(r);
      assert Count(s) == Count(r) - 1;
      NextHead(r.head);
      forall k: nat | k < RING
        ensures s.buffer[k] != NONE <==> SlotsAhead(s.head, k) < Count(s)
      {
        assert SlotsAhead(s.head, k) == if k == j then RING - 1 else SlotsAhead(r.head, k) - 1;
      }
      forall i | 0 <= i < Count(s)
        ensures Pending(s)[i] == Pending(r)[i + 1]
      {
        assert Slot(s.head, i) == Slot(r.head, i + 1) != j;
      }
      assert Pending(s) == Pending(r)[1..];
    }
  }

  lemma NextHead(head: u32)
    ensures Add32(head, 1) % RING == if head % RING == RING - 1 then 0 else head % RING + 1
  {
    if head == TWO_32 - 1 {
      assert head % RING == RING - 1;
    }
  }

  // -- The rings in place ------------------------------------------------------------------------

  /** The keyboard part of struct process. */
  class ProcessKeys {
    const buffer: array<byte>
    var head: u32
    var tail: u32

    constructor ()
      ensures fresh(buffer) && buffer.Length == RING && RingOK(Value()) && Pending(Value()) == []
    {
      buffer := new byte[RING](_ => NONE);
      head, tail := 0, 0;
    }

    ghost function Value(): Ring
      reads this, buffer
    {
      Ring(buffer[..], head, tail)
    }

    /** keyboard_get_tail_index. */
    function TailIndex(): nat
      reads this
    {
      tail % RING
    }

    method Push(c: byte)
      requires buffer.Length == RING
      modifies this, buffer
      ensures Value() == Pushed(old(Value()), c)
    {
      if c == NONE {
        return;
      }
      buffer[TailIndex()] := c;
      tail := Add32(tail, 1);
    }

    method Pop() returns (c: byte)
      requires buffer.Length == RING
      modifies this, buffer
      ensures Value() == Popped(old(Value())) && c == old(buffer[head % RING])
    {
      var index := head % RING;
      c := buffer[index];
      if c == NONE {
        return;
      }
      buffer[index] := NONE;
      head := Add32(head, 1);
    }
  }

  // -- Runs over several processes ---------------------------------------------------------------

  /** The process in the foreground and the one whose task runs; -1 when there is none. */
  datatype State = State(rings: seq<Ring>, foreground: int, running: int)

  datatype Event = Push(c: byte) | Pop(c: byte) | ProcessSwitch(i: int) | TaskSwitch(i: int)

  ghost predicate Known(s: State, i: int) {
    0 <= i < |s.rings|
  }

  ghost predicate AllOK(s: State) {
    forall i :: 0 <= i < |s.rings| ==> RingOK(s.rings[i])
  }

  /** keyboard_push, keyboard_pop, process_switch and task_switch, on rings of 1024 slots. */
  ghost predicate Step(s: State, e: Event, s': State) {
    && (forall i :: 0 <= i < |s.rings| ==> |s.rings[i].buffer| == RING)
    && match e
    case Push(c) =>
      if Known(s, s.foreground) then
        && (c != 0 ==> Count(s.rings[s.foreground]) < 0x400)
        && s' == s.(rings := s.rings[s.foreground := Pushed(s.rings[s.foreground], c)])
      else s' == s
    case Pop(c) =>
      if Known(s, s.running) then
        var r := s.rings[s.running];
        c == r.buffer[r.head % RING] && s' == s.(rings := s.rings[s.running := Popped(r)])
      else c == NONE && s' == s
    case ProcessSwitch(i) => s' == s.(foreground := i)
    case TaskSwitch(i) => s' == s.(running := i)
  }

  ghost predicate IsRun(states: seq<State>, events: seq<Event>) {
    && |states| == |events| + 1
    && forall k :: 0 <= k < |events| ==> Step(states[k], events[k], states[k + 1])
  }

  /** A key as a sequence; NUL is no key. */
  ghost function Key(c: byte): seq<byte> {
    if c == 0 then [] else [c]
  }

  /** Who is in the foreground after n events: whoever the last process_switch named, or first at the start. */
  ghost function Foreground(events: seq<Event>, first: int, n: nat): int
    requires n <= |events|
  {
    if n == 0 then first
    else if events[n - 1].ProcessSwitch? then events[n - 1].i
    else Foreground(events, first, n - 1)
  }

  /** Whose task runs after n events, likewise. */
  ghost function Running(events: seq<Event>, first: int, n: nat): int
    requires n <= |events|
  {
    if n == 0 then first
    else if events[n - 1].TaskSwitch? then events[n - 1].i
    else Running(events, first, n - 1)
  }

  /** The key an event gives to process i, when process f is in the foreground. */
  ghost function KeyIn(f: int, e: Event, i: int): seq<byte> {
    if e.Push? && f == i then Key(e.c) else []
  }

  /** The key an event takes out for process i, when the task of process r runs. */
  ghost function KeyOut(r: int, e: Event, i: int): seq<byte> {
    if e.Pop? && r == i then Key(e.c) else []
  }

  /** The keys pushed while process i was in the foreground, told from the events alone. */
  ghost function KeysIn(events: seq<Event>, first: int, i: int, n: nat): seq<byte>
    requires n <= |events|
  {
    if n == 0 then []
    else KeysIn(events, first, i, n - 1) + KeyIn(Foreground(events, first, n - 1), events[n - 1], i)
  }

  /** The keys popped while the task of process i ran. */
  ghost function KeysOut(events: seq<Event>, first: int, i: int, n: nat): seq<byte>
    requires n <= |events|
  {
    if n == 0 then []
    else KeysOut(events, first, i, n - 1) + KeyOut(Running(events, first, n - 1), events[n - 1], i)
  }

  lemma {:induction false} SwitchesTell(states: seq<State>, events: seq<Event>, n: nat)
    requires IsRun(states, events) && n <= |events|
    ensures states[n].foreground == Foreground(events, states[0].foreground, n)
    ensures states[n].running == Running(events, states[0].running, n)
  {
    if n > 0 {
      SwitchesTell(states, events, n - 1);
      assert Step(states[n - 1], events[n - 1], states[n]);
    }
  }

  /** A ring in order put in place of another leaves all rings in order. */
  lemma RingReplaced(s: State, k: int, r: Ring, s': State)
    requires AllOK(s) && Known(s, k) && RingOK(r) && s'.rings == s.rings[k := r]
    ensures AllOK(s') && |s'.rings| == |s.rings| && s'.rings[k] == r
    ensures forall i :: Known(s, i) && i != k ==> s'.rings[i] == s.rings[i]
  {
  }

  /** The key popped, if any, and what is pending then are what was pending. */
  lemma PopSplits(r: Ring, c: byte)
    requires RingOK(r) && c == r.buffer[r.head % RING]
    ensures RingOK(Popped(r))
    ensures Key(c) + Pending(Popped(r)) == Pending(r)
  {
    PopTakesFirst(r);
    HeadAndTail(Pending(r));
  }

  lemma HeadAndTail(keys: seq<byte>)
    ensures keys != [] ==> [keys[0]] + keys[1..] == keys
  {
  }

  lemma PushOnRing(s: State, c: byte, s': State, i: int)
    requires AllOK(s) && Step(s, Push(c), s') && Known(s, i)
    ensures AllOK(s') && |s'.rings| == |s.rings|
    ensures Pending(s'.rings[i]) == Pending(s.rings[i]) + KeyIn(s.foreground, Push(c), i)
  {
    var k := s.foreground;
    if Known(s, k) && c != NONE {
      PushAppends(s.rings[k], c);
      RingReplaced(s, k, Pushed(s.rings[k], c), s');
    }
  }

  lemma PopOnRing(s: State, c: byte, s': State, i: int)
    requires AllOK(s) && Step(s, Pop(c), s') && Known(s, i)
    ensures AllOK(s') && |s'.rings| == |s.rings|
    ensures KeyOut(s.running, Pop(c), i) + Pending(s'.rings[i]) == Pending(s.rings[i])
  {
    var k := s.running;
    if Known(s, k) {
      PopSplits(s.rings[k], c);
      RingReplaced(s, k, Popped(s.rings[k]), s');
    }
    assert [] + Pending(s'.rings[i]) == Pending(s'.rings[i]);
  }

  lemma StepOnRing(s: State, e: Event, s': State, i: int)
    requires AllOK(s) && Step(s, e, s') && Known(s, i)
    ensures AllOK(s') && |s'.rings| == |s.rings|
    ensures KeyOut(s.running, e, i) + Pending(s'.rings[i]) == Pending(s.rings[i]) + KeyIn(s.foreground, e, i)
  {
    match e
    case Push(c) => PushOnRing(s, c, s', i);
    case Pop(c) => PopOnRing(s, c, s', i);
    case _ =>
  }

  /**
   Over any interleaving the keys a process has popped, followed by those still pending, are the keys
   pushed while it was in the foreground, in order. Who is in the foreground and whose task runs is
   told by the switches among the events.
   */
  lemma {:induction false} KeysComeOutInOrder(states: seq<State>, events: seq<Event>, i: int, n: nat)
    requires IsRun(states, events) && n <= |events| && Known(states[0], i)
    requires AllOK(states[0]) && Pending(states[0].rings[i]) == []
    ensures AllOK(states[n]) && Known(states[n], i)
    ensures var popped, pushed := KeysOut(events, states[0].running, i, n), KeysIn(events, states[0].foreground, i, n);
            popped + Pending(states[n].rings[i]) == pushed && popped <= pushed
  {
    if n > 0 {
      KeysComeOutInOrder(states, events, i, n - 1);
      var s, e, s' := states[n - 1], events[n - 1], states[n];
      SwitchesTell(states, events, n - 1);
      StepOnRing(s, e, s', i);
      OneMoreEvent(KeysOut(events, states[0].running, i, n - 1), KeyOut(s.running, e, i), Pending(s'.rings[i]),
                   KeysIn(events, states[0].foreground, i, n - 1), KeyIn(s.foreground, e, i), Pending(s.rings[i]));
    }
  }

  /** What one event takes out and puts in keeps the keys in line. */
  lemma OneMoreEvent(popped: seq<byte>, out: seq<byte>, now: seq<byte>, pushed: seq<byte>, into: seq<byte>,
                     before: seq<byte>)
    requires popped + before == pushed && out + now == before + into
    ensures (popped + out) + now == pushed + into && popped + out <= pushed + into
  {
    assert (popped + out) + now == popped + (out + now);
    assert (popped + before) + into == popped + (before + into);
  }
}
