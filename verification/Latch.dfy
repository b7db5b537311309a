/** Latched events: one that has fired does not fire again until something has
    re-armed it. Shared by the shock detector, the tamper flag and the alarms. */
module Latch {

  /** One step of a latch: its state around the step, whether its event fired,
      and whether the input was one that re-arms it. */
  datatype Step = Step(before: bool, after: bool, fired: bool, rearmed: bool)

  predicate Obeys(s: Step) {
    && (s.fired ==> !s.before && s.after)
    && (s.before && !s.after ==> s.rearmed)
  }

  predicate Chained(steps: seq<Step>) {
    && (forall k :: 0 <= k < |steps| ==> Obeys(steps[k]))
    && (forall k :: 0 < k < |steps| ==> steps[k].before == steps[k - 1].after)
  }

  /** Between two firings lies a step that re-arms. */
  lemma {:induction false} RearmedBetween(steps: seq<Step>, i: nat, j: nat) returns (k: nat)
    requires Chained(steps) && i < j < |steps| && steps[i].after && steps[j].fired
    ensures i < k < j && steps[k].rearmed
    decreases j - i
  {
    assert steps[i + 1].before;
    if steps[i + 1].after {
      k := RearmedBetween(steps, i + 1, j);
    } else {
      k := i + 1;
    }
  }
}
