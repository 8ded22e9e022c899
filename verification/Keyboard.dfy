/** The keyboard ring of drivers/keyboard.c. The interrupt handler puts and
    erases characters at the head at any moment; the reader takes them at the
    tail in three separate steps. */
module Keyboard {
  import Runs

  const BUFFER_SIZE: nat := 256

  /** Where the reader stands inside `keyboard_buffer_get`. */
  datatype Reader = Idle | Checked | Holding(c: char)

  datatype Ring = Ring(buffer: seq<char>, head: nat, tail: nat, reader: Reader)

  datatype Event = Put(c: char) | Backspace | Check | Read | Advance

  // ---- The code's steps -------------------------------------------------

  /** `(buffer_head - 1) % BUFFER_SIZE` stored into eight bits. */
  function Back(head: nat): nat
    requires head < BUFFER_SIZE
  {
    if head == 0 then 255 else head - 1
  }

  ghost predicate Shape(r: Ring)
  {
    |r.buffer| == BUFFER_SIZE && r.head < BUFFER_SIZE && r.tail < BUFFER_SIZE
  }

  /** The check spins until the ring is not empty, so it completes only then. */
  ghost predicate CanStep(r: Ring, e: Event)
  {
    match e
    case Check => r.reader.Idle? && r.head != r.tail
    case Read => r.reader.Checked?
    case Advance => r.reader.Holding?
    case _ => true
  }

  function Stepped(r: Ring, e: Event): Ring
    requires |r.buffer| == BUFFER_SIZE && r.head < BUFFER_SIZE && r.tail < BUFFER_SIZE
  {
    match e
    case Put(c) => r.(buffer := r.buffer[r.head := c], head := (r.head + 1) % BUFFER_SIZE)
    case Backspace => if r.head == r.tail then r else r.(head := Back(r.head))
    case Check => r.(reader := Checked)
    case Read => r.(reader := Holding(r.buffer[r.tail]))
    case Advance => r.(tail := (r.tail + 1) % BUFFER_SIZE, reader := Idle)
  }

  class Buffer {
    const buffer: array<char>
    var head: nat
    var tail: nat
    var reader: Reader

    ghost function Abs(): Ring
      reads this, buffer
    {
      Ring(buffer[..], head, tail, reader)
    }

    ghost predicate Valid()
      reads this, buffer
    {
      buffer.Length == BUFFER_SIZE && Shape(Abs())
    }

    constructor ()
      ensures Valid() && fresh(buffer) && head == tail == 0 && reader == Idle
    {
      buffer := new char[BUFFER_SIZE](_ => '\0');
      head, tail, reader := 0, 0, Idle;
    }

    /** `keyboard_buffer_put`. */
    method PutChar(c: char)
      requires Valid()
      modifies this`head, buffer
      ensures Valid() && Abs() == Stepped(old(Abs()), Put(c))
    {
      buffer[head] := c;
      head := (head + 1) % BUFFER_SIZE;
    }

    /** `rm_last_char_buffer`. */
    method RemoveLast()
      requires Valid()
      modifies this`head
      ensures Valid() && Abs() == Stepped(old(Abs()), Backspace)
    {
      if head != tail {
        head := Back(head);
      }
    }

    /** One test of the spin loop in `keyboard_buffer_get`. */
    method Poll() returns (ready: bool)
      requires Valid() && reader.Idle?
      modifies this`reader
      ensures Valid() && ready == CanStep(old(Abs()), Check)
      ensures Abs() == if ready then Stepped(old(Abs()), Check) else old(Abs())
    {
      ready := head != tail;
      if ready {
        reader := Checked;
      }
    }

    method ReadChar()
      requires Valid() && reader.Checked?
      modifies this`reader
      ensures Valid() && Abs() == Stepped(old(Abs()), Read)
    {
      reader := Holding(buffer[tail]);
    }

    method TakeChar() returns (c: char)
      requires Valid() && reader.Holding?
      modifies this`reader, this`tail
      ensures Valid() && Abs() == Stepped(old(Abs()), Advance) && c == old(reader).c
    {
      c := reader.c;
      tail := (tail + 1) % BUFFER_SIZE;
      reader := Idle;
    }
  }

  // ---- What the ring means ----------------------------------------------

  function At(r: Ring, i: nat): nat { (r.tail + i) % BUFFER_SIZE }

  /** The ring holds exactly the characters `pending`, oldest first, and a reader
      inside a get is about to take the first of them. */
  ghost predicate Represents(r: Ring, pending: seq<char>)
  {
    && Shape(r) && |pending| < BUFFER_SIZE && r.head == At(r, |pending|)
    && (forall i :: 0 <= i < |pending| ==> r.buffer[At(r, i)] == pending[i])
    && (!r.reader.Idle? ==> pending != [])
    && (r.reader.Holding? ==> r.reader.c == pending[0])
  }

  /** When an event does what it is for. */
  ghost predicate Safe(r: Ring, pending: seq<char>, e: Event)
  {
    match e
    case Put(_) => |pending| < 255
    case Backspace => r.reader.Idle? || |pending| != 1
    case _ => true
  }

  /** The intended effect on the pending characters. */
  function Edited(pending: seq<char>, e: Event): seq<char> {
    match e
    case Put(c) => pending + [c]
    case Backspace => if pending == [] then [] else pending[..|pending| - 1]
    case Advance => if pending == [] then [] else pending[1..]
    case _ => pending
  }

  lemma PutWorks(r: Ring, pending: seq<char>, c: char)
    requires Represents(r, pending) && |pending| < 255
    ensures Represents(Stepped(r, Put(c)), pending + [c])
  {
    var t := Stepped(r, Put(c));
    NextPlace(r, |pending|);
    assert t.head == At(t, |pending| + 1);
    forall i | 0 <= i < |pending| ensures t.buffer[At(t, i)] == pending[i] {
      DistinctPlaces(r, i, |pending|);
    }
  }

  lemma NextPlace(r: Ring, i: nat)
    requires i < BUFFER_SIZE && r.tail < BUFFER_SIZE
    ensures At(r, i + 1) == (At(r, i) + 1) % BUFFER_SIZE && Back(At(r, i + 1)) == At(r, i)
  {
  }

  lemma DistinctPlaces(r: Ring, i: nat, j: nat)
    requires i < j < BUFFER_SIZE && r.tail < BUFFER_SIZE
    ensures At(r, i) != At(r, j)
  {
  }

  lemma BackspaceWorks(r: Ring, pending: seq<char>)
    requires Represents(r, pending) && (r.reader.Idle? || |pending| != 1)
    ensures Represents(Stepped(r, Backspace), Edited(pending, Backspace))
  {
    if pending != [] {
      DistinctPlaces(r, 0, |pending|);
      NextPlace(r, |pending| - 1);
    }
  }

  lemma AdvanceWorks(r: Ring, pending: seq<char>)
    requires Represents(r, pending) && r.reader.Holding?
    ensures Represents(Stepped(r, Advance), pending[1..])
  {
    var t := Stepped(r, Advance);
    assert t.head == At(t, |pending| - 1);
    forall i | 0 <= i < |pending| - 1 ensures t.buffer[At(t, i)] == pending[1..][i] {
      assert At(t, i) == At(r, i + 1);
    }
  }

  /** Every step has its intended effect exactly when it is safe: a put needs room
      below 255 pending characters, and a backspace must not take the only
      pending character from a reader inside a get. */
  lemma StepExactlyWhenSafe(r: Ring, pending: seq<char>, e: Event)
    requires Represents(r, pending) && CanStep(r, e)
    ensures Represents(Stepped(r, e), Edited(pending, e)) <==> Safe(r, pending, e)
  {
    if Safe(r, pending, e) {
      match e
      case Put(c) => PutWorks(r, pending, c);
      case Backspace => BackspaceWorks(r, pending);
      case Advance => AdvanceWorks(r, pending);
      case Check => NonEmpty(r, pending);
      case Read => assert At(r, 0) == r.tail;
    }
  }

  lemma NonEmpty(r: Ring, pending: seq<char>)
    requires Represents(r, pending)
    ensures r.head != r.tail <==> pending != []
  {
  }

  /** The 256th pending character makes the ring look empty. */
  lemma OverflowLooksEmpty(r: Ring, pending: seq<char>, c: char)
    requires Represents(r, pending) && |pending| == 255
    ensures Stepped(r, Put(c)).head == r.tail
  {
  }

  /** A backspace that takes the only character from under a reader: when the get
      completes, the ring looks 255 characters full. */
  lemma ErasedUnderReader(r: Ring, c: char)
    requires Represents(r, [c]) && r.reader.Holding?
    ensures var t := Stepped(Stepped(r, Backspace), Advance);
            t.head == At(t, 255)
  {
  }

  // ---- Whole runs -------------------------------------------------------

  /** A run's state: the ring, what it is to hold, what the reader has returned,
      and the text typed so far with its erasures applied. */
  datatype State = State(ring: Ring, pending: seq<char>, returned: seq<char>, text: seq<char>)

  ghost predicate Step(s: State, e: Event, t: State)
  {
    && Shape(s.ring) && CanStep(s.ring, e) && Safe(s.ring, s.pending, e)
    && t.ring == Stepped(s.ring, e) && t.pending == Edited(s.pending, e)
    && t.returned == (if e.Advance? then s.returned + [s.ring.reader.c] else s.returned)
    && t.text == match e
                 case Put(c) => s.text + [c]
                 case Backspace => if s.pending == [] || s.text == [] then s.text else s.text[..|s.text| - 1]
                 case _ => s.text
  }

  ghost predicate Faithful(s: State)
  {
    Represents(s.ring, s.pending) && s.returned + s.pending == s.text
  }

  lemma StepKeepsFaithful(s: State, e: Event, t: State)
    requires Faithful(s) && Step(s, e, t)
    ensures Faithful(t)
  {
    StepExactlyWhenSafe(s.ring, s.pending, e);
    match e
    case Put(c) => assert t.returned + t.pending == (s.returned + s.pending) + [c];
    case Backspace =>
      if s.pending != [] {
        assert s.returned + s.pending[..|s.pending| - 1] == (s.returned + s.pending)[..|s.text| - 1];
      }
    case Advance => assert s.returned + [s.pending[0]] + s.pending[1..] == s.returned + s.pending;
    case _ =>
  }

  /** Over every interleaving of interrupt and reader steps that stays safe, what
      the reader has returned followed by what is pending is the text typed: in
      order, nothing lost, nothing repeated. */
  lemma ReaderGetsTheText(states: seq<State>, events: seq<Event>)
    requires Runs.Run((s: State, e: Event, t: State) => Step(s, e, t), states, events) && Faithful(states[0])
    ensures forall k :: 0 <= k < |states| ==> Faithful(states[k]) && states[k].returned <= states[k].text
  {
    var inv := (s: State) => Faithful(s);
    var step := (s: State, e: Event, t: State) => Step(s, e, t);
    forall s, e, t | inv(s) && step(s, e, t) ensures inv(t) {
      StepKeepsFaithful(s, e, t);
    }
    Runs.Invariant(inv, step, states, events, |events|);
    forall k | 0 <= k < |states| ensures Faithful(states[k]) && states[k].returned <= states[k].text {
      assert inv(states[k]);
    }
  }
}
