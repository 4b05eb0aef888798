/**
 The hover highlight in `tick` of main.js.

 The state is whether `currentIntersect` is non-null together with the
 colour of the tracked cylinder's material. Each frame the ray test against
 that cylinder (a library call the model does not look into) is reduced to
 one boolean, and the step returns the new state and the colour writes it
 performed, in order.
 */
module Highlight {

  /** The two material colours the source writes: 0x00ffff and 0xff0000. */
  datatype Colour = Cyan | Red

  function Flip(c: Colour): Colour {
    match c
    case Cyan => Red
    case Red => Cyan
  }

  /** `intersecting` is true when `currentIntersect` is non-null. */
  datatype State = State(intersecting: bool, colour: Colour)

  /** A fresh cylinder: cyan, and nothing recorded as hovered. */
  const Initial: State := State(false, Cyan)

  /** The colour a material ends with after a list of writes (the last one wins). */
  function Paint(c: Colour, writes: seq<Colour>): Colour {
    if |writes| == 0 then c else writes[|writes| - 1]
  }

  /** The result of one frame: the next state and the colour writes of that frame. */
  datatype Frame = Frame(next: State, writes: seq<Colour>)

  /**
   One frame of the highlight logic. A write happens only on an edge: red
   when the ray starts hitting, cyan when it stops; repeated hits or repeated
   misses write nothing. After the frame `currentIntersect` is non-null
   exactly when the ray hit.
   */
  function Step(s: State, hit: bool): (f: Frame)
    ensures f.next.intersecting == hit
    ensures f.next.colour == Paint(s.colour, f.writes)
    ensures |f.writes| <= 1
    ensures f.writes == [Red] <==> !s.intersecting && hit
    ensures f.writes == [Cyan] <==> s.intersecting && !hit
    ensures s.intersecting == hit ==> f.writes == []
  {
    if hit then
      if !s.intersecting then Frame(State(true, Red), [Red])
      else Frame(State(true, s.colour), [])
    else if s.intersecting then Frame(State(false, Cyan), [Cyan])
    else Frame(s, [])
  }

  /** The colour shows red exactly when the ray is recorded as hitting. */
  predicate Consistent(s: State) {
    s.colour == Red <==> s.intersecting
  }

  /** One frame keeps the colour in step with the hover state. */
  lemma StepConsistent(s: State, hit: bool)
    requires Consistent(s)
    ensures Consistent(Step(s, hit).next)
  {
  }

  /** Frames over a sequence of ray results: every state reached and every frame's writes. */
  datatype Trace = Trace(states: seq<State>, writes: seq<seq<Colour>>)

  function Run(s: State, hits: seq<bool>): (t: Trace)
    ensures |t.states| == |hits| && |t.writes| == |hits|
    ensures forall i :: 0 <= i < |hits| ==> t.states[i].intersecting == hits[i]
    decreases |hits|
  {
    if |hits| == 0 then Trace([], [])
    else
      var f := Step(s, hits[0]);
      var rest := Run(f.next, hits[1..]);
      Trace([f.next] + rest.states, [f.writes] + rest.writes)
  }

  /** The state after the last frame of a run (the start state for an empty run). */
  function Last(s: State, t: Trace): State {
    if |t.states| == 0 then s else t.states[|t.states| - 1]
  }

  /**
   Starting from a consistent state, the colour is red exactly when
   `currentIntersect` is non-null after every frame.
   */
  lemma {:induction false} RunConsistent(s: State, hits: seq<bool>)
    requires Consistent(s)
    ensures forall i :: 0 <= i < |hits| ==> Consistent(Run(s, hits).states[i])
    decreases |hits|
  {
    if |hits| > 0 {
      var f := Step(s, hits[0]);
      StepConsistent(s, hits[0]);
      RunConsistent(f.next, hits[1..]);
    }
  }

  /** All writes of a run, frame after frame. */
  function Flatten(ws: seq<seq<Colour>>): seq<Colour>
    decreases |ws|
  {
    if |ws| == 0 then [] else ws[0] + Flatten(ws[1..])
  }

  /** Writes alternate between the two colours, beginning with `first`. */
  predicate Alternating(ws: seq<Colour>, first: Colour)
    decreases |ws|
  {
    |ws| == 0 || (ws[0] == first && Alternating(ws[1..], Flip(first)))
  }

  /** The write the next edge will perform from state `s`. */
  function NextWrite(s: State): Colour {
    if s.intersecting then Cyan else Red
  }

  /**
   Over any run the writes alternate red, cyan, red, ...: a restore is never
   done twice in a row and never skipped before the next red.
   */
  lemma {:induction false} RunAlternates(s: State, hits: seq<bool>)
    ensures Alternating(Flatten(Run(s, hits).writes), NextWrite(s))
    decreases |hits|
  {
    if |hits| > 0 {
      var f := Step(s, hits[0]);
      var rest := Run(f.next, hits[1..]);
      RunAlternates(f.next, hits[1..]);
      assert Run(s, hits).writes == [f.writes] + rest.writes;
      assert ([f.writes] + rest.writes)[1..] == rest.writes;
      assert Flatten(Run(s, hits).writes) == f.writes + Flatten(rest.writes);
      if f.writes != [] {
        assert NextWrite(f.next) == Flip(NextWrite(s));
        assert (f.writes + Flatten(rest.writes))[1..] == Flatten(rest.writes);
      } else {
        assert f.writes + Flatten(rest.writes) == Flatten(rest.writes);
      }
    }
  }

  /** The worked sequence hit, hit, miss, hit, hit from a fresh cylinder. */
  lemma ExampleRun()
    ensures Run(Initial, [true, true, false, true, true]).writes == [[Red], [], [Cyan], [Red], []]
    ensures Last(Initial, Run(Initial, [true, true, false, true, true])) == State(true, Red)
  {
    var hits := [true, true, false, true, true];
    var s1 := Step(Initial, true).next;
    var s2 := Step(s1, true).next;
    var s3 := Step(s2, false).next;
    var s4 := Step(s3, true).next;
    assert hits[1..] == [true, false, true, true];
    assert hits[2..] == [false, true, true];
    assert hits[3..] == [true, true];
    assert hits[4..] == [true];
  }
}
