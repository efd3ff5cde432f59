/** The numeric elements of a configuration (`NumericElement`, `Parameter`,
    `Variable`), the text form of their numbers and the arithmetic of a range. */
module Numeric {
  import opened Wrappers
  import opened Text

  /** A fixed parameter or a ranged variable; the name is common to both. */
  datatype NumericElement =
    | Parameter(name: string, value: real)
    | Variable(name: string, start: real, end: real, step: real)

  /** How a number is written as text (`Float.toString`) and how that text is read
      back as a number (the SQL literal); `read` is `None` on text that is no number. */
  datatype NumberText = NumberText(show: real -> string, read: string -> Option<real>)

  /** Every number's text is non-empty, has no space and reads back as the number,
      and the literal "0" reads as zero. */
  ghost predicate Faithful(nt: NumberText) {
    && (forall x :: nt.read(nt.show(x)) == Some(x) && nt.show(x) != "" && ' ' !in nt.show(x))
    && nt.read("0") == Some(0.0)
  }

  /** Under a faithful text form, different numbers have different texts. */
  lemma ShowInjective(nt: NumberText, x: real, y: real)
    requires Faithful(nt) && nt.show(x) == nt.show(y)
    ensures x == y
  {
    assert nt.read(nt.show(x)) == Some(x);
    assert nt.read(nt.show(y)) == Some(y);
  }

  /** The space-separated fields of `toString`: name and value of a Parameter,
      name, start, end and step of a Variable. */
  function Fields(e: NumericElement, nt: NumberText): (r: seq<string>)
    ensures |r| == if e.Parameter? then 2 else 4
    ensures r[0] == e.name
  {
    match e
    case Parameter(name, value) => [name, nt.show(value)]
    case Variable(name, start, end, step) => [name, nt.show(start), nt.show(end), nt.show(step)]
  }

  /** `toString` of a Parameter or a Variable. */
  function ToString(e: NumericElement, nt: NumberText): string {
    Joined(Fields(e, nt), ' ')
  }

  /** Splitting `toString` on spaces gives the fields back when the name has no space. */
  lemma SplitToString(e: NumericElement, nt: NumberText)
    requires Faithful(nt) && ' ' !in e.name
    ensures JavaSplit(ToString(e, nt), ' ') == Fields(e, nt)
  {
    var fs := Fields(e, nt);
    SplitJoined(fs, ' ');
  }

  /** The number of increments by `step` that take `start` to a value at or past
      `end`; zero when `start` is already there or `step` is not positive. */
  function Steps(start: real, end: real, step: real): nat
    decreases if step > 0.0 && start < end then ((end - start) / step).Floor + 1 else 0
  {
    if step <= 0.0 || start >= end then 0
    else
      StepsDecrease(start, end, step);
      1 + Steps(start + step, end, step)
  }

  /** One increment lowers the floor of the remaining quotient by one. */
  lemma StepsDecrease(start: real, end: real, step: real)
    requires step > 0.0
    ensures ((end - (start + step)) / step).Floor == ((end - start) / step).Floor - 1
  {
    assert end - (start + step) == (end - start) - step;
    DivShift(end - start, step);
    FloorShift((end - start) / step);
  }

  /** Subtracting one lowers the floor by one. */
  lemma FloorShift(x: real)
    ensures (x - 1.0).Floor == x.Floor - 1
  {
    var f := x.Floor;
    assert (f as real) <= x < (f as real) + 1.0;
    assert ((f - 1) as real) <= x - 1.0 < ((f - 1) as real) + 1.0;
  }

  /** Removing one `step` from `d` lowers `d / step` by one. */
  lemma DivShift(d: real, step: real)
    requires step > 0.0
    ensures (d - step) / step == d / step - 1.0
  {
    var q := d / step;
    var r := (d - step) / step;
    assert q * step == d;
    assert r * step == d - step;
    assert (q - 1.0) * step == q * step - step;
    MulCancel(r, q - 1.0, step);
  }

  lemma MulCancel(a: real, b: real, step: real)
    requires step > 0.0 && a * step == b * step
    ensures a == b
  {
    assert (a - b) * step == 0.0;
  }

  /** `Steps` is the least count of increments that reaches `end`. */
  lemma {:induction false} StepsBounds(start: real, end: real, step: real, k: nat)
    requires step > 0.0
    ensures k < Steps(start, end, step) <==> start + (k as real) * step < end
    decreases Steps(start, end, step)
  {
    if start >= end {
      assert (k as real) * step >= 0.0;
    } else if k > 0 {
      StepsBounds(start + step, end, step, k - 1);
      assert start + (k as real) * step == (start + step) + ((k - 1) as real) * step;
    }
  }

  /** The smallest integer at or above `x`. */
  function Ceil(x: real): int {
    -((-x).Floor)
  }

  /** `Ceil(x)` is the integer `n` with `n - 1 < x <= n`. */
  lemma CeilUnique(x: real, n: int)
    requires ((n - 1) as real) < x <= n as real
    ensures Ceil(x) == n
  {
  }

  /** Comparing `m * step` with `d` compares `m` with `d / step`, for positive `step`. */
  lemma CompareQuotient(m: real, d: real, step: real)
    requires step > 0.0
    ensures m * step < d <==> m < d / step
  {
    var q := d / step;
    assert q * step == d;
    if m < q {
      assert (q - m) * step > 0.0;
    } else {
      assert (m - q) * step >= 0.0;
    }
  }

  /** For an ascending range, the increment count is the ceiling of (end - start) / step. */
  lemma StepsIsCeil(start: real, end: real, step: real)
    requires step > 0.0 && start <= end
    ensures Steps(start, end, step) == Ceil((end - start) / step)
  {
    var n := Steps(start, end, step);
    StepsBounds(start, end, step, n);
    CompareQuotient(n as real, end - start, step);
    if n > 0 {
      StepsBounds(start, end, step, n - 1);
      CompareQuotient((n - 1) as real, end - start, step);
    } else {
      CompareQuotient(-1.0, end - start, step);
    }
    CeilUnique((end - start) / step, n);
  }
}
