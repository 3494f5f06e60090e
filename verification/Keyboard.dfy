/** The keyboard ring shared by the interrupt handler and keyboard_getchar, with the handler free to
    interrupt the reader between any two of its steps.
 */
module Keyboard {
  const SIZE: nat := 256

  datatype Ring = Ring(buffer: seq<char>, head: nat, tail: nat)

  predicate Shaped(r: Ring) {
    |r.buffer| == SIZE && r.head < SIZE && r.tail < SIZE
  }

  function Length(r: Ring): (n: nat)
    requires Shaped(r)
    ensures n < SIZE
  {
    (r.head + SIZE - r.tail) % SIZE
  }

  /** Where the character `i` places behind the oldest is kept. */
  function Place(r: Ring, i: nat): (p: nat)
    requires Shaped(r)
    ensures p < SIZE
  {
    (r.tail + i) % SIZE
  }

  /** The characters waiting, oldest first. */
  function Queue(r: Ring): (q: seq<char>)
    requires Shaped(r)
    ensures |q| == Length(r)
  {
    seq(Length(r), i requires 0 <= i < Length(r) => r.buffer[Place(r, i)])
  }

  /** The handler's part: a character is dropped when it is NUL or the ring is full. */
  function Push(r: Ring, c: char): Ring
    requires Shaped(r)
  {
    var nextHead := (r.head + 1) % SIZE;
    if c == '\0' || nextHead == r.tail then r
    else Ring(r.buffer[r.head := c], nextHead, r.tail)
  }

  function Pop(r: Ring): Ring
    requires Shaped(r)
  {
    r.(tail := (r.tail + 1) % SIZE)
  }

  /** The wrap-around written out. */
  lemma PlaceIs(r: Ring, i: nat)
    requires Shaped(r) && i <= SIZE
    ensures Place(r, i) == if r.tail + i < SIZE then r.tail + i else r.tail + i - SIZE
    ensures Length(r) == if r.head >= r.tail then r.head - r.tail else r.head + SIZE - r.tail
  {
  }

  lemma HeadIsLast(r: Ring, i: nat)
    requires Shaped(r) && i <= Length(r)
    ensures Place(r, i) == r.head <==> i == Length(r)
  {
    PlaceIs(r, i);
    hide Place, Length;
  }

  /** The handler finds no room exactly when 255 characters are held. */
  lemma FullWhen(r: Ring)
    requires Shaped(r)
    ensures (r.head + 1) % SIZE == r.tail <==> Length(r) == SIZE - 1
    ensures (r.head + 1) % SIZE != r.tail ==> Length(r.(head := (r.head + 1) % SIZE)) == Length(r) + 1
  {
    PlaceIs(r, 0);
    PlaceIs(r.(head := (r.head + 1) % SIZE), 0);
  }

  /** A push appends exactly when there is room for it: at most 255 characters are held. */
  lemma PushAppends(r: Ring, c: char)
    requires Shaped(r)
    ensures Shaped(Push(r, c))
    ensures Queue(Push(r, c)) == if c != '\0' && |Queue(r)| < SIZE - 1 then Queue(r) + [c] else Queue(r)
  {
    FullWhen(r);
    var q := Push(r, c);
    if c != '\0' && (r.head + 1) % SIZE != r.tail {
      forall i: nat | i <= Length(r) ensures Place(q, i) == Place(r, i) && (Place(r, i) == r.head <==> i == Length(r)) {
        HeadIsLast(r, i);
      }
      hide Place, Length;
      assert Queue(q) == Queue(r) + [c];
    }
  }

  lemma PopShifts(r: Ring, i: nat)
    requires Shaped(r) && Length(r) > 0 && i < SIZE
    ensures Shaped(Pop(r)) && Length(Pop(r)) == Length(r) - 1 && Place(Pop(r), i) == Place(r, i + 1)
  {
    PlaceIs(r, i + 1);
    PlaceIs(Pop(r), i);
    PlaceIs(r, 1);
  }

  /** Advancing the tail removes the oldest character. */
  lemma PopRemovesFirst(r: Ring)
    requires Shaped(r) && Queue(r) != []
    ensures Shaped(Pop(r)) && Queue(Pop(r)) == Queue(r)[1..]
  {
    hide Place, Length;
    PopShifts(r, 0);
    forall i: nat | i < Length(r) - 1 ensures Place(Pop(r), i) == Place(r, i + 1) { PopShifts(r, i); }
  }

  lemma FirstIsAtTail(r: Ring)
    requires Shaped(r)
    ensures Queue(r) == [] <==> r.head == r.tail
    ensures Queue(r) != [] ==> Queue(r)[0] == r.buffer[r.tail]
  {
  }

  // ----- preemption -----

  /** Where keyboard_getchar stands: outside or waiting, past its test, or past its read. */
  datatype Reader = Waiting | Tested | Holding(c: char)

  /** The ring, the reader, and the history: what the handler accepted and the reader returned. */
  datatype System = System(ring: Ring, reader: Reader, accepted: seq<char>, delivered: seq<char>)

  datatype Event = Interrupt(c: char) | Test | Read | Advance

  /** One step: the handler runs whole, keyboard_getchar one statement at a time. */
  function Step(s: System, e: Event): System
    requires Shaped(s.ring)
  {
    match e
    case Interrupt(c) =>
      var ring := Push(s.ring, c);
      s.(ring := ring, accepted := if ring == s.ring then s.accepted else s.accepted + [c])
    case Test =>
      if s.reader == Waiting && s.ring.head != s.ring.tail then s.(reader := Tested) else s
    case Read =>
      if s.reader == Tested then s.(reader := Holding(s.ring.buffer[s.ring.tail])) else s
    case Advance =>
      if s.reader.Holding? then System(Pop(s.ring), Waiting, s.accepted, s.delivered + [s.reader.c]) else s
  }

  /** Delivered and queued characters are the accepted ones in order; past its test the reader has a
      character to take, and past its read it holds the oldest one. */
  ghost predicate Inv(s: System) {
    && Shaped(s.ring)
    && s.delivered + Queue(s.ring) == s.accepted
    && (s.reader != Waiting ==> Queue(s.ring) != [])
    && (s.reader.Holding? ==> s.reader.c == Queue(s.ring)[0])
  }

  lemma StepKeepsInv(s: System, e: Event)
    requires Inv(s)
    ensures Inv(Step(s, e))
    ensures |Queue(Step(s, e).ring)| <= SIZE - 1
  {
    hide Queue;
    FirstIsAtTail(s.ring);
    match e {
      case Interrupt(c) =>
        PushAppends(s.ring, c);
        assert s.delivered + (Queue(s.ring) + [c]) == s.accepted + [c];
      case Test =>
      case Read =>
      case Advance =>
        if s.reader.Holding? {
          PopRemovesFirst(s.ring);
          assert Queue(s.ring) == [s.reader.c] + Queue(s.ring)[1..];
          assert s.delivered + [s.reader.c] + Queue(s.ring)[1..] == s.accepted;
        }
    }
  }

  function Run(s: System, es: seq<Event>): System
    requires Inv(s)
    decreases |es|
  {
    if es == [] then s else StepKeepsInv(s, es[0]); Run(Step(s, es[0]), es[1..])
  }

  /** Whatever the interleaving, no accepted character is lost, duplicated, reordered or overwritten,
      and at most 255 are held. */
  lemma {:induction false} NothingLost(s: System, es: seq<Event>)
    requires Inv(s)
    ensures Inv(Run(s, es))
    ensures Run(s, es).delivered + Queue(Run(s, es).ring) == Run(s, es).accepted
    ensures |Queue(Run(s, es).ring)| <= 255
    ensures s.delivered <= Run(s, es).delivered && s.accepted <= Run(s, es).accepted
    decreases |es|
  {
    hide Queue, Push, Pop;
    if es == [] {
    } else {
      StepKeepsInv(s, es[0]);
      NothingLost(Step(s, es[0]), es[1..]);
    }
  }

  // ----- the driver -----

  class Driver {
    const buffer: array<char>
    var head: nat
    var tail: nat

    ghost predicate Valid()
      reads this, buffer
    {
      buffer.Length == SIZE && Shaped(View())
    }

    ghost function View(): Ring
      reads this, buffer
    {
      Ring(buffer[..], head, tail)
    }

    constructor ()
      ensures Valid() && fresh(buffer) && Queue(View()) == []
    {
      buffer := new char[SIZE];
      head, tail := 0, 0;
    }

    /** The end of keyboard_handler. */
    method Enqueue(c: char)
      requires Valid()
      modifies this`head, buffer
      ensures Valid() && View() == Push(old(View()), c)
    {
      if c != '\0' {
        var nextHead := (head + 1) % SIZE;
        if nextHead != tail {
          buffer[head] := c;
          head := nextHead;
        }
      }
    }

    /** keyboard_getchar once a character is there. */
    method Getchar() returns (c: char)
      requires Valid() && head != tail
      modifies this`tail
      ensures Valid() && View() == Pop(old(View()))
      ensures Queue(old(View())) != [] && c == Queue(old(View()))[0] && Queue(View()) == Queue(old(View()))[1..]
    {
      FirstIsAtTail(View());
      PopRemovesFirst(View());
      c := buffer[tail];
      tail := (tail + 1) % SIZE;
    }

    method Available() returns (b: bool)
      requires Valid()
      ensures b <==> Queue(View()) != []
    {
      FirstIsAtTail(View());
      return head != tail;
    }
  }
}
