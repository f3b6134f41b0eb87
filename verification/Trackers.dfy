/** `perf_minimum_t` and `perf_maximum_t`: trackers that threads update by compare-and-exchange. */
module Trackers {

  datatype Tracker = Minimum | Maximum

  /** `value < min`, or `value > max`. */
  predicate Better(t: Tracker, a: nat, b: nat) {
    if t.Minimum? then a < b else a > b
  }

  /** One call of `update`: before its load, with the value it has seen, or over. */
  datatype Update = Calling(value: nat) | Seeing(value: nat, seen: nat) | Over(value: nat)

  datatype State = State(current: nat, updates: seq<Update>)

  /** One atomic step of one call; a weak exchange may fail although the values are equal. */
  datatype Step = Step(who: nat, spurious: bool)

  function Advance(t: Tracker, s: State, step: Step): State {
    if step.who >= |s.updates| then s
    else
      match s.updates[step.who]
      case Calling(v) => s.(updates := s.updates[step.who := Seeing(v, s.current)])
      case Seeing(v, seen) =>
        if !Better(t, v, seen) then s.(updates := s.updates[step.who := Over(v)])
        else if s.current == seen && !step.spurious then State(v, s.updates[step.who := Over(v)])
        else s.(updates := s.updates[step.who := Seeing(v, s.current)])
      case Over(_) => s
  }

  function Run(t: Tracker, s: State, schedule: seq<Step>): State
    decreases |schedule|
  {
    if schedule == [] then s else Run(t, Advance(t, s, schedule[0]), schedule[1..])
  }

  function Begin(initial: nat, values: seq<nat>): State {
    State(initial, seq(|values|, i requires 0 <= i < |values| => Calling(values[i])))
  }

  ghost predicate Finished(s: State) {
    forall i :: 0 <= i < |s.updates| ==> s.updates[i].Over?
  }

  /** The tracker never gets worse; it holds its first value or a submitted one; what is over has counted. */
  ghost predicate Tracks(t: Tracker, s: State, initial: nat, values: seq<nat>) {
    && |s.updates| == |values|
    && (forall i :: 0 <= i < |values| ==> s.updates[i].value == values[i])
    && (forall i :: 0 <= i < |values| && s.updates[i].Over? ==> !Better(t, values[i], s.current))
    && (forall i :: 0 <= i < |values| && s.updates[i].Seeing? ==> !Better(t, s.updates[i].seen, s.current))
    && !Better(t, initial, s.current)
    && (s.current == initial || s.current in values)
  }

  lemma {:induction false} AdvanceTracks(t: Tracker, s: State, step: Step, initial: nat, values: seq<nat>)
    requires Tracks(t, s, initial, values)
    ensures Tracks(t, Advance(t, s, step), initial, values)
    ensures !Better(t, s.current, Advance(t, s, step).current)
  {
  }

  /** Whatever the interleaving, the tracker is monotone from any point of a run to any later one. */
  lemma {:induction false} RunTracks(t: Tracker, s: State, schedule: seq<Step>, initial: nat, values: seq<nat>)
    requires Tracks(t, s, initial, values)
    ensures Tracks(t, Run(t, s, schedule), initial, values)
    ensures !Better(t, s.current, Run(t, s, schedule).current)
    decreases |schedule|
  {
    if schedule != [] {
      AdvanceTracks(t, s, schedule[0], initial, values);
      hide Advance, Tracks;
      RunTracks(t, Advance(t, s, schedule[0]), schedule[1..], initial, values);
    }
  }

  /** The best of a number of values, and of the one the tracker starts with. */
  function Best(t: Tracker, initial: nat, values: seq<nat>): nat {
    if values == [] then initial
    else
      var rest := Best(t, initial, values[1..]);
      if Better(t, values[0], rest) then values[0] else rest
  }

  lemma {:induction false} BestIsBest(t: Tracker, initial: nat, values: seq<nat>, v: nat)
    requires v == initial || v in values
    requires !Better(t, initial, v) && forall i :: 0 <= i < |values| ==> !Better(t, values[i], v)
    ensures Best(t, initial, values) == v
  {
    if values != [] {
      var best := Best(t, initial, values[1..]);
      if v == initial || v in values[1..] {
        BestIsBest(t, initial, values[1..], v);
      } else {
        assert v == values[0];
        BestIsWithin(t, initial, values[1..]);
        assert best == initial || exists i :: 0 <= i < |values[1..]| && best == values[1..][i];
        assert forall i :: 0 <= i < |values[1..]| ==> values[1..][i] == values[i + 1];
      }
    }
  }

  lemma {:induction false} BestIsWithin(t: Tracker, initial: nat, values: seq<nat>)
    ensures Best(t, initial, values) == initial || Best(t, initial, values) in values
  {
    if values != [] {
      BestIsWithin(t, initial, values[1..]);
    }
  }

  /** Once all calls are over, whatever their interleaving, the tracker holds the best value. */
  lemma {:induction false} NothingIsLost(t: Tracker, initial: nat, values: seq<nat>, schedule: seq<Step>)
    requires Finished(Run(t, Begin(initial, values), schedule))
    ensures Run(t, Begin(initial, values), schedule).current == Best(t, initial, values)
  {
    hide Run;
    RunTracks(t, Begin(initial, values), schedule, initial, values);
    BestIsBest(t, initial, values, Run(t, Begin(initial, values), schedule).current);
  }

  /** The value that `reset` stores: no value of the type is worse. */
  function Initial(t: Tracker, bits: nat): nat {
    if t.Minimum? then AllOnes(bits) else 0
  }

  function AllOnes(bits: nat): nat {
    if bits == 0 then 0 else 2 * AllOnes(bits - 1) + 1
  }

  /** So a tracker that was reset ends with the least or the greatest of the submitted values. */
  lemma {:induction false} ExactlyTheBest(t: Tracker, bits: nat, values: seq<nat>, schedule: seq<Step>)
    requires values != [] && forall i :: 0 <= i < |values| ==> values[i] <= AllOnes(bits)
    requires Finished(Run(t, Begin(Initial(t, bits), values), schedule))
    ensures var end := Run(t, Begin(Initial(t, bits), values), schedule).current;
            && end in values
            && forall i :: 0 <= i < |values| ==> if t.Minimum? then end <= values[i] else end >= values[i]
  {
    hide Run, AllOnes;
    RunTracks(t, Begin(Initial(t, bits), values), schedule, Initial(t, bits), values);
    var end := Run(t, Begin(Initial(t, bits), values), schedule).current;
    if end == Initial(t, bits) {
      assert !Better(t, values[0], end);
      assert values[0] == end;
    }
  }

  // ---------------------------------------------------------------------------------------------
  // Progress
  // ---------------------------------------------------------------------------------------------

  /** Two undisturbed steps end a call, from any state: no call waits for another. */
  lemma {:induction false} EndsAlone(t: Tracker, s: State, who: nat)
    requires who < |s.updates|
    ensures var r := Run(t, s, [Step(who, false), Step(who, false)]);
            |r.updates| == |s.updates| && r.updates[who].Over?
  {
    var step := Step(who, false);
    var a := Advance(t, s, step);
    assert [step, step][1..] == [step] && [step][1..] == [];
    assert Run(t, a, [step]) == Advance(t, a, step);
    assert Run(t, s, [step, step]) == Run(t, a, [step]);
  }
}
