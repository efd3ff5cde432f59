/** The range iterator of a `Variable`: a current value that starts at `start`
    and moves by `step` towards `end`, where it stops. */
module Ranges {
  import opened Wrappers
  import opened Text
  import Numeric

  /** The value `nextValue` moves to from `current`: one step further while that
      does not pass `end`, and `end` itself otherwise. */
  function Next(current: real, end: real, step: real): (r: real)
    ensures current <= end - step ==> r == current + step
    ensures current > end - step ==> r == end
  {
    if current <= end - step then current + step else end
  }

  /** The current value after `startIteration` and `k` calls of `nextValue`. */
  function Iterate(start: real, end: real, step: real, k: nat): real {
    if k == 0 then start else Next(Iterate(start, end, step, k - 1), end, step)
  }

  /** For an ascending range, the `k`-th value is `start + k * step` cut off at `end`. */
  lemma {:induction false} IterateClosed(start: real, end: real, step: real, k: nat)
    requires step > 0.0 && start <= end
    ensures Iterate(start, end, step, k) == if start + (k as real) * step <= end then start + (k as real) * step else end
  {
    if k == 0 {
      assert (k as real) * step == 0.0;
    } else {
      IterateClosed(start, end, step, k - 1);
      var prev := Iterate(start, end, step, k - 1);
      var x := start + ((k - 1) as real) * step;
      MulSucc(k - 1, step);
      assert start + (k as real) * step == x + step;
      NextCut(prev, x, end, step);
      assert Iterate(start, end, step, k) == Next(prev, end, step);
    }
  }

  /** `Next` of a value cut off at `end` is the next value cut off at `end`. */
  lemma NextCut(prev: real, x: real, end: real, step: real)
    requires step > 0.0 && prev == if x <= end then x else end
    ensures Next(prev, end, step) == if x + step <= end then x + step else end
  {
  }

  /** One more step adds `step` to the product. */
  lemma MulSucc(k: nat, step: real)
    ensures ((k + 1) as real) * step == (k as real) * step + step
  {
  }

  /** Every value of an ascending range lies between `start` and `end`, and no call
      of `nextValue` lowers it. */
  lemma IterateBounds(start: real, end: real, step: real, k: nat)
    requires step > 0.0 && start <= end
    ensures start <= Iterate(start, end, step, k) <= end
    ensures Iterate(start, end, step, k) <= Iterate(start, end, step, k + 1)
  {
    IterateClosed(start, end, step, k);
    IterateClosed(start, end, step, k + 1);
    assert (k as real) * step >= 0.0;
    assert ((k + 1) as real) * step == (k as real) * step + step;
  }

  /** The range reaches `end` exactly from the `Steps(start, end, step)`-th value
      on, that is after ceil((end - start) / step) calls of `nextValue`, and stays
      there. */
  lemma EndedAfter(start: real, end: real, step: real, k: nat)
    requires step > 0.0 && start <= end
    ensures Iterate(start, end, step, k) == end <==> k >= Numeric.Steps(start, end, step)
    ensures Numeric.Steps(start, end, step) == Numeric.Ceil((end - start) / step)
  {
    IterateClosed(start, end, step, k);
    Numeric.StepsBounds(start, end, step, k);
    Numeric.StepsIsCeil(start, end, step);
  }

  /** Once at `end`, an ascending range stays there. */
  lemma StaysAtEnd(end: real, step: real)
    requires step > 0.0
    ensures Next(end, end, step) == end
  {
  }

  /** A ranged numeric element with its iteration state. */
  class Variable {
    const name: string
    const start: real
    const end: real
    const step: real
    var currentValue: real
    /** How many times `nextValue` ran since `startIteration`; None before it. */
    ghost var calls: Option<nat>

    /** The iteration state follows the range: after `startIteration` and `n`
        calls the current value is the `n`-th value of the range. */
    ghost predicate Valid()
      reads this
    {
      calls.Some? ==> currentValue == Iterate(start, end, step, calls.value)
    }

    constructor (name: string, start: real, end: real, step: real)
      ensures this.name == name && this.start == start && this.end == end && this.step == step
      ensures currentValue == 0.0 && calls == None
      ensures Valid()
    {
      this.name := name;
      this.start := start;
      this.end := end;
      this.step := step;
      currentValue := 0.0;
      calls := None;
    }

    /** `startIteration`: back to `start`. */
    method StartIteration() returns (v: real)
      modifies this
      ensures v == start && currentValue == start
      ensures calls == Some(0)
      ensures Valid()
    {
      currentValue := start;
      calls := Some(0);
      v := currentValue;
    }

    /** `nextValue`: one step further, cut off at `end`. */
    method NextValue() returns (v: real)
      requires Valid()
      modifies this
      ensures v == currentValue == Next(old(currentValue), end, step)
      ensures calls == if old(calls).Some? then Some(old(calls).value + 1) else None
      ensures Valid()
    {
      if currentValue <= end - step {
        currentValue := currentValue + step;
      } else {
        currentValue := end;
      }
      calls := if calls.Some? then Some(calls.value + 1) else None;
      v := currentValue;
    }

    /** `hasEnded`: the current value is `end`. */
    predicate HasEnded()
      reads this
    {
      currentValue == end
    }

    /** An ascending range has ended exactly once `nextValue` ran
        `Steps(start, end, step)` times since `startIteration`. */
    lemma EndedAfterCalls()
      requires Valid() && step > 0.0 && start <= end && calls.Some?
      ensures HasEnded() <==> calls.value >= Numeric.Steps(start, end, step)
    {
      EndedAfter(start, end, step, calls.value);
    }

    /** The element this variable stands for in a configuration. */
    function Element(): (e: Numeric.NumericElement)
      ensures e.Variable? && e.name == name
      ensures e.start == start && e.end == end && e.step == step
    {
      Numeric.Variable(name, start, end, step)
    }

    /** `toString`: the name, the start, the end and the step, separated by spaces. */
    function ToString(nt: Numeric.NumberText): string {
      Numeric.ToString(Element(), nt)
    }

    /** With a space-free name, splitting `toString` on spaces gives the name and
        the three numbers back, in constructor order. */
    lemma ToStringFields(nt: Numeric.NumberText)
      requires Numeric.Faithful(nt) && ' ' !in name
      ensures JavaSplit(ToString(nt), ' ') == [name, nt.show(start), nt.show(end), nt.show(step)]
    {
      Numeric.SplitToString(Element(), nt);
    }
  }
}
