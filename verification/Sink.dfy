/** The access-log sink: a bounded channel, one reused batch buffer, and the batches handed to the repository. */
module Sink {
  import opened Common

  datatype Event = Event(id: int)

  const CHANNEL := 500
  const BATCH := 50

  /** What the sink holds, and the batches it has handed off. */
  datatype State = State(ch: seq<Event>, buffer: seq<Event>, log: seq<seq<Event>>)

  const EMPTY := State([], [], [])

  /** A decision is offered; or the loop takes an event from the channel; or its ticker fires. */
  datatype Step = Offer(e: Event) | Take | Tick

  function Flushed(s: State): State {
    if s.buffer == [] then s else s.(buffer := [], log := s.log + [s.buffer])
  }

  /** An event moved from the channel to the buffer, which is flushed when full. */
  function Taken(s: State): State
    requires s.ch != []
  {
    var t := s.(ch := s.ch[1..], buffer := s.buffer + [s.ch[0]]);
    if |t.buffer| >= BATCH then Flushed(t) else t
  }

  /** A full channel drops what is offered; an empty one leaves nothing to take. */
  function After(s: State, step: Step): State {
    match step
    case Offer(e) => if |s.ch| < CHANNEL then s.(ch := s.ch + [e]) else s
    case Take => if s.ch != [] then Taken(s) else s
    case Tick => Flushed(s)
  }

  function Run(s: State, steps: seq<Step>): State
    decreases |steps|
  {
    if steps == [] then s else Run(After(s, steps[0]), steps[1..])
  }

  /** The drain on shutdown: everything left in the channel, then a last flush. */
  function Drained(s: State): State
    decreases |s.ch|
  {
    if s.ch == [] then Flushed(s) else Drained(Taken(s))
  }

  /** The offers of a run that found room, in order. */
  function Accepted(s: State, steps: seq<Step>): seq<Event>
    decreases |steps|
  {
    if steps == [] then []
    else
      (if steps[0].Offer? && |s.ch| < 500 then [steps[0].e] else []) + Accepted(After(s, steps[0]), steps[1..])
  }

  function Concat(batches: seq<seq<Event>>): seq<Event> {
    if batches == [] then [] else Concat(batches[..|batches| - 1]) + batches[|batches| - 1]
  }

  /** Everything the sink has ever accepted, in the order it holds it. */
  function Held(s: State): seq<Event> {
    Concat(s.log) + s.buffer + s.ch
  }

  predicate Sized(s: State) {
    && |s.ch| <= 500 && |s.buffer| < 50
    && forall i :: 0 <= i < |s.log| ==> 1 <= |s.log[i]| <= 50
  }

  lemma FlushKeeps(s: State)
    requires |s.ch| <= CHANNEL && |s.buffer| <= BATCH && forall i :: 0 <= i < |s.log| ==> 1 <= |s.log[i]| <= BATCH
    ensures Sized(Flushed(s)) && Held(Flushed(s)) == Held(s) && Flushed(s).buffer == [] && Flushed(s).ch == s.ch
  {
    assert (s.log + [s.buffer])[..|s.log|] == s.log;
  }

  lemma TakeKeeps(s: State)
    requires Sized(s) && s.ch != []
    ensures Sized(Taken(s)) && Held(Taken(s)) == Held(s) && Taken(s).ch == s.ch[1..]
  {
    var t := s.(ch := s.ch[1..], buffer := s.buffer + [s.ch[0]]);
    assert s.ch == [s.ch[0]] + s.ch[1..];
    assert Held(t) == Held(s);
    FlushKeeps(t);
  }

  lemma StepKeeps(s: State, step: Step)
    requires Sized(s)
    ensures Sized(After(s, step)) && Held(After(s, step)) == Held(s) + Accepted(s, [step])
  {
    match step
    case Offer(e) =>
    case Take => if s.ch != [] { TakeKeeps(s); }
    case Tick => FlushKeeps(s);
  }

  /** Over any run, the batches, the buffer and the channel hold what was accepted: in order, once, within bounds. */
  lemma {:induction false} RunKeeps(s: State, steps: seq<Step>)
    requires Sized(s)
    ensures Sized(Run(s, steps)) && Held(Run(s, steps)) == Held(s) + Accepted(s, steps)
    decreases |steps|
  {
    if steps != [] {
      StepKeeps(s, steps[0]);
      RunKeeps(After(s, steps[0]), steps[1..]);
    }
  }

  lemma {:induction false} DrainKeeps(s: State)
    requires Sized(s)
    ensures var d := Drained(s); Sized(d) && d.ch == [] && d.buffer == [] && Held(d) == Held(s)
    decreases |s.ch|
  {
    if s.ch == [] {
      FlushKeeps(s);
    } else {
      TakeKeeps(s);
      DrainKeeps(Taken(s));
    }
  }

  /** After the shutdown drain the batches are exactly the accepted events, if no one offers any more. */
  lemma NothingLost(steps: seq<Step>)
    ensures var d := Drained(Run(EMPTY, steps));
            && Concat(d.log) == Accepted(EMPTY, steps)
            && forall i :: 0 <= i < |d.log| ==> 1 <= |d.log[i]| <= BATCH
  {
    RunKeeps(EMPTY, steps);
    DrainKeeps(Run(EMPTY, steps));
    var d := Drained(Run(EMPTY, steps));
    assert Held(d) == Concat(d.log) && Held(EMPTY) == [];
  }

  /** Without a tick every batch is full. */
  lemma {:induction false} BatchesFullWithoutTicks(s: State, steps: seq<Step>)
    requires Sized(s) && forall i :: 0 <= i < |steps| ==> !steps[i].Tick?
    ensures forall i :: |s.log| <= i < |Run(s, steps).log| ==> |Run(s, steps).log[i]| == BATCH
    ensures s.log <= Run(s, steps).log
    decreases |steps|
  {
    if steps != [] {
      StepKeeps(s, steps[0]);
      BatchesFullWithoutTicks(After(s, steps[0]), steps[1..]);
    }
  }

  /**
   The sink as it runs. The buffer is one array that every batch reuses; a flush hands off a copy. `log`
   is what each copy held when it was handed off.
   */
  class Sink {
    var ch: seq<Event>
    var buffer: array<Event>
    var len: nat
    var handedOff: seq<array<Event>>
    ghost var log: seq<seq<Event>>

    /** The batches handed off still hold what they held then, and none of them is the buffer. */
    ghost predicate Valid()
      reads this, buffer, set a | a in handedOff
    {
      && buffer.Length == BATCH && len <= BATCH && |handedOff| == |log|
      && forall i :: 0 <= i < |handedOff| ==> handedOff[i] != buffer && handedOff[i][..] == log[i]
    }

    ghost function Now(): State
      requires Valid()
      reads this, buffer, set a | a in handedOff
    {
      State(ch, buffer[..len], log)
    }

    constructor ()
      ensures Valid() && Now() == EMPTY && fresh(buffer)
    {
      ch, len, handedOff, log := [], 0, [], [];
      buffer := new Event[BATCH](_ => Event(0));
    }

    method OnDecision(e: Event)
      requires Valid()
      modifies this`ch
      ensures Valid() && Now() == After(old(Now()), Offer(e))
    {
      if |ch| < CHANNEL {
        ch := ch + [e];
      }
    }

    method Flush()
      requires Valid()
      modifies this`len, this`handedOff, this`log
      ensures Valid() && Now() == Flushed(old(Now())) && len == 0
      ensures old(handedOff) <= handedOff
    {
      if len == 0 {
        return;
      }
      var events := new Event[len](_ => Event(0));
      for i := 0 to len
        modifies events
        invariant events[..i] == buffer[..i]
      {
        events[i] := buffer[i];
      }
      assert events[..] == buffer[..len];
      handedOff, log := handedOff + [events], log + [events[..]];
      len := 0;
    }

    /** One event from the channel into the buffer, in place. */
    method Receive()
      requires Valid() && Sized(Now()) && ch != []
      modifies this, buffer
      ensures Valid() && buffer == old(buffer) && Now() == Taken(old(Now()))
      ensures old(handedOff) <= handedOff
    {
      buffer[len] := ch[0];
      ch, len := ch[1..], len + 1;
      assert Now() == old(Now()).(ch := old(ch)[1..], buffer := old(buffer[..len]) + [old(ch)[0]]);
      if len >= BATCH {
        Flush();
      }
    }

    /** The shutdown path of Run. */
    method Drain()
      requires Valid() && Sized(Now())
      modifies this, buffer
      ensures Valid() && buffer == old(buffer) && Now() == Drained(old(Now()))
      ensures ch == [] && len == 0 && old(handedOff) <= handedOff
    {
      while ch != []
        invariant Valid() && buffer == old(buffer) && Sized(Now())
        invariant Drained(Now()) == Drained(old(Now())) && old(handedOff) <= handedOff
        decreases |ch|
      {
        TakeKeeps(Now());
        Receive();
      }
      Flush();
    }

    /** One offer, one turn of the loop or one tick. */
    method Act(step: Step)
      requires Valid() && Sized(Now())
      modifies this, buffer
      ensures Valid() && buffer == old(buffer) && Now() == After(old(Now()), step)
    {
      match step
      case Offer(e) => OnDecision(e);
      case Take => if ch != [] { Receive(); }
      case Tick => Flush();
    }

    /** A whole run: offers, takes and ticks in the given order, then the shutdown. */
    method RunAll(steps: seq<Step>)
      requires Valid() && Now() == EMPTY
      modifies this, buffer
      ensures Valid() && Now() == Drained(Run(EMPTY, steps))
      ensures Concat(log) == Accepted(EMPTY, steps)
      ensures forall i :: 0 <= i < |handedOff| ==> 1 <= handedOff[i].Length <= BATCH && handedOff[i][..] == log[i]
    {
      for i := 0 to |steps|
        invariant Valid() && buffer == old(buffer) && Sized(Now())
        invariant Run(Now(), steps[i..]) == Run(EMPTY, steps)
      {
        assert steps[i..][1..] == steps[i + 1..];
        StepKeeps(Now(), steps[i]);
        Act(steps[i]);
      }
      assert steps[|steps|..] == [];
      Drain();
      NothingLost(steps);
    }
  }
}
