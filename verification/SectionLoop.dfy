/**
 The loop arithmetic of a {section} tag: what the code emitted by
 `_compile_section_start` computes from the attribute values at run time, and
 the loop the documentation describes.
 */
module SectionLoop {
  import opened Options

  /** The value of `loop=`: an array, whose length counts, or a number. */
  datatype Bound = Items(count: nat) | Number(value: int)

  /** Attribute values at run time; None is an attribute the tag does not have. */
  datatype Attributes = Attributes(
    loop: Option<Bound>,
    start: Option<int>,
    step: Option<int>,
    max: Option<int>,
    show: Option<bool>)

  /** The section properties once the emitted prologue has run. */
  datatype Props = Props(loop: int, show: bool, max: int, step: int, start: int, total: int)

  function Abs(x: int): int {
    if x < 0 then -x else x
  }

  /** PHP's ceil(a / b). Division rounds down here because b is positive. */
  function Ceiling(a: int, b: int): int
    requires b > 0
  {
    -((-a) / b)
  }

  function LoopOf(a: Attributes): int {
    match a.loop
    case None => 1
    case Some(Items(n)) => n
    case Some(Number(k)) => Max(0, k)
  }

  function StepOf(a: Attributes): int {
    match a.step
    case None => 1
    case Some(k) => if k == 0 then 1 else k
  }

  function MaxOf(a: Attributes): int {
    match a.max
    case None => LoopOf(a)
    case Some(m) => if m < 0 then LoopOf(a) else m
  }

  function StartOf(a: Attributes): int {
    var loop, step := LoopOf(a), StepOf(a);
    match a.start
    case None => if step > 0 then 0 else loop - 1
    case Some(s) =>
      if s < 0 then Max(if step > 0 then 0 else -1, loop + s)
      else Min(s, if step > 0 then loop else loop - 1)
  }

  /** The general expression for the number of passes. */
  function GeneralTotal(loop: int, start: int, step: int, max: int): int
    requires step != 0
  {
    Min(Ceiling(if step > 0 then loop - start else start + 1, Abs(step)), max)
  }

  /** The number of passes before `show` is looked at, with the shortcut the compiler takes. */
  function TotalOf(a: Attributes): int {
    if a.start == None && a.step == None && a.max == None then
      LoopOf(a)
    else
      GeneralTotal(LoopOf(a), StartOf(a), StepOf(a), MaxOf(a))
  }

  /** `show` is on unless the tag turns it off. */
  predicate Wanted(a: Attributes) {
    a.show.None? || a.show.value
  }

  /** The whole prologue. */
  function Setup(a: Attributes): Props {
    var total := if Wanted(a) then TotalOf(a) else 0;
    Props(LoopOf(a), Wanted(a) && total != 0, MaxOf(a), StepOf(a), StartOf(a), total)
  }

  /**
   The documented loop: starting at `index`, keep visiting while the index is a
   valid one and fewer than `max` have been visited.
   */
  function Visits(index: int, step: int, loop: int, max: nat): seq<int>
    decreases max
  {
    if max == 0 || !(0 <= index < loop) then []
    else [index] + Visits(index + step, step, loop, max - 1)
  }

  /** The indices the documented loop visits for these attributes. */
  function Planned(a: Attributes): seq<int> {
    MaxNonNegative(a);
    if Wanted(a) then Visits(StartOf(a), StepOf(a), LoopOf(a), MaxOf(a)) else []
  }

  lemma MaxNonNegative(a: Attributes)
    ensures MaxOf(a) >= 0
  {}

  // ----- the division -----

  lemma CeilingBounds(a: int, b: int)
    requires b > 0
    ensures (Ceiling(a, b) - 1) * b < a <= Ceiling(a, b) * b
  {
    var q := (-a) / b;
    assert -a == q * b + (-a) % b;
    assert (Ceiling(a, b) - 1) * b == -(q * b) - b;
  }

  lemma CeilingUnique(a: int, b: int, n: int)
    requires b > 0 && (n - 1) * b < a <= n * b
    ensures Ceiling(a, b) == n
  {
    var c := Ceiling(a, b);
    CeilingBounds(a, b);
    if c < n {
      MulMonotone(c, n - 1, b);
    } else if n < c {
      MulMonotone(n, c - 1, b);
    }
  }

  lemma MulMonotone(x: int, y: int, b: int)
    requires x <= y && b > 0
    ensures x * b <= y * b
  {}

  lemma CeilingStep(a: int, b: int)
    requires b > 0
    ensures Ceiling(a - b, b) == Ceiling(a, b) - 1
  {
    var c := Ceiling(a, b);
    CeilingBounds(a, b);
    assert (c - 1 - 1) * b == (c - 1) * b - b;
    assert (c - 1) * b == c * b - b;
    CeilingUnique(a - b, b, c - 1);
  }

  /** Distance that is left to run, in the direction of the step. */
  function Left(index: int, step: int, loop: int): int {
    if step > 0 then loop - index else index + 1
  }

  /** The closed form counts exactly the visits of the documented loop. */
  lemma {:induction false} VisitsCount(index: int, step: int, loop: int, max: nat)
    requires step != 0
    requires if step > 0 then 0 <= index < loop + step else -1 + step < index < loop
    ensures |Visits(index, step, loop, max)| == Min(Ceiling(Left(index, step, loop), Abs(step)), max)
    decreases max
  {
    var left, b := Left(index, step, loop), Abs(step);
    CeilingBounds(left, b);
    if max > 0 {
      if 0 <= index < loop {
        VisitsCount(index + step, step, loop, max - 1);
        CeilingStep(left, b);
        assert Ceiling(left, b) > 0 by {
          if Ceiling(left, b) <= 0 { MulMonotone(Ceiling(left, b), 0, b); }
        }
      } else {
        CeilingUnique(left, b, 0);
      }
    } else if Ceiling(left, b) < 0 {
      MulMonotone(Ceiling(left, b), -1, b);
    }
  }

  /** The normalised start is a place the documented loop may begin (or be finished) at. */
  lemma StartInRange(a: Attributes)
    ensures LoopOf(a) >= 0 && StepOf(a) != 0
    ensures StepOf(a) > 0 ==> 0 <= StartOf(a) <= LoopOf(a)
    ensures StepOf(a) < 0 ==> -1 <= StartOf(a) < LoopOf(a)
  {}

  /**
   For all attribute values: the emitted total is exactly the number of indices
   the documented loop visits, and the section is shown exactly when there is one.
   */
  lemma TotalExact(a: Attributes)
    ensures Setup(a).total == |Planned(a)|
    ensures Setup(a).show <==> Planned(a) != []
  {
    StartInRange(a);
    MaxNonNegative(a);
    ShortcutTotal(a);
    VisitsCount(StartOf(a), StepOf(a), LoopOf(a), MaxOf(a));
  }

  /** The shortcut taken when start, step and max are absent is the general formula. */
  lemma ShortcutTotal(a: Attributes)
    ensures TotalOf(a) == GeneralTotal(LoopOf(a), StartOf(a), StepOf(a), MaxOf(a))
  {
    if a.start == None && a.step == None && a.max == None {
      var n := LoopOf(a);
      assert StepOf(a) == 1 && StartOf(a) == 0 && MaxOf(a) == n;
      assert Ceiling(n, 1) == n;
    }
  }

  /** The k-th visit is `k` steps from the first, inside [0, loop). */
  lemma {:induction false} VisitAt(index: int, step: int, loop: int, max: nat, k: nat)
    requires k < |Visits(index, step, loop, max)|
    ensures Visits(index, step, loop, max)[k] == index + k * step
    ensures 0 <= index + k * step < loop
    decreases max
  {
    if k > 0 {
      VisitAt(index + step, step, loop, max - 1, k - 1);
      assert index + step + (k - 1) * step == index + k * step;
    }
  }

  /** Visiting stops only because the quota is used up or the next index is out of range. */
  lemma {:induction false} VisitsMaximal(index: int, step: int, loop: int, max: nat)
    ensures |Visits(index, step, loop, max)| <= max
    ensures var n := |Visits(index, step, loop, max)|;
            n == max || !(0 <= index + n * step < loop)
    decreases max
  {
    if max > 0 && 0 <= index < loop {
      VisitsMaximal(index + step, step, loop, max - 1);
      var n := |Visits(index, step, loop, max)|;
      assert index + step + (n - 1) * step == index + n * step;
    }
  }

  lemma MulInjective(j: int, k: int, step: int)
    requires j != k && step != 0
    ensures j * step != k * step
  {
    assert k * step == j * step + (k - j) * step;
  }

  /**
   The emitted `for` runs `total` passes, the k-th with index start + k * step. Those
   indices lie in [0, loop) and are pairwise distinct. The run stops only because total
   equals max or the next index leaves [0, loop), or because `show` is off.
   */
  lemma SectionSafeAndExact(a: Attributes)
    ensures var p := Setup(a);
            && 0 <= p.total <= p.max
            && (forall k :: 0 <= k < p.total ==> 0 <= p.start + k * p.step < p.loop)
            && (forall j, k :: 0 <= j < k < p.total ==> p.start + j * p.step != p.start + k * p.step)
            && (if Wanted(a) then p.total == p.max || !(0 <= p.start + p.total * p.step < p.loop) else p.total == 0)
  {
    var p := Setup(a);
    TotalExact(a);
    StartInRange(a);
    MaxNonNegative(a);
    VisitsMaximal(p.start, p.step, p.loop, p.max);
    forall k | 0 <= k < p.total
      ensures 0 <= p.start + k * p.step < p.loop
    {
      VisitAt(p.start, p.step, p.loop, p.max, k);
    }
    forall j, k | 0 <= j < k < p.total
      ensures p.start + j * p.step != p.start + k * p.step
    {
      MulInjective(j, k, p.step);
    }
  }

  // ----- the plan, from the attributes alone -----

  /**
   For all attribute values. There are n entries: the size of an array, a number but not
   less than 0, or 1; a step of 0 is 1, as is none; a negative max is no max, and that is n.
   The plan goes from the start by the step, inside [0, n), for as long as that and max
   allow, unless `show` is off.
   */
  lemma PlanExactly(a: Attributes)
    ensures var n :=
              match a.loop case None => 1 case Some(Items(c)) => c case Some(Number(k)) => if k < 0 then 0 else k;
            var step := if a.step.None? || a.step.value == 0 then 1 else a.step.value;
            var quota := if a.max.None? || a.max.value < 0 then n else a.max.value;
            var p, plan := Setup(a), Planned(a);
            && p.loop == n && p.step == step && p.max == quota && p.total == |plan| && (p.show <==> plan != [])
            && (forall k :: 0 <= k < |plan| ==> plan[k] == p.start + k * step && 0 <= plan[k] < n)
            && |plan| <= quota
            && (a.show == Some(false) ==> plan == [])
            && (a.show != Some(false) ==> |plan| == quota || !(0 <= p.start + |plan| * step < n))
  {
    var p, plan := Setup(a), Planned(a);
    TotalExact(a);
    SectionSafeAndExact(a);
    forall k | 0 <= k < |plan|
      ensures plan[k] == p.start + k * p.step && 0 <= plan[k] < p.loop
    {
      VisitAt(p.start, p.step, p.loop, p.max, k);
    }
  }

  /**
   For all attribute values: where a section of n entries begins. A start from -n to -1
   counts from the end, one from 0 to n - 1 is the first index. Further off, a section
   that goes towards the entries begins at the near end, and one that goes away from them
   visits nothing. Without a start it begins at the end it does not go to.
   */
  lemma BeginsWhere(a: Attributes)
    ensures var n :=
              match a.loop case None => 1 case Some(Items(c)) => c case Some(Number(k)) => if k < 0 then 0 else k;
            var forwards := a.step.None? || a.step.value >= 0;
            var p, plan := Setup(a), Planned(a);
            && (plan != [] ==> plan[0] == p.start)
            && match a.start
               case None => p.start == if forwards then 0 else n - 1
               case Some(s) =>
                 if s < -n then if forwards then p.start == 0 else plan == []
                 else if s < 0 then
                   var counted := a.(start := Some(n + s));
                   p == Setup(counted) && plan == Planned(counted) && p.start == n + s
                 else if s < n then p.start == s
                 else if forwards then plan == [] else p.start == n - 1
  {
    PlanExactly(a);
    if a.start.Some? && a.start.value < 0 { PlanExactly(a.(start := Some(LoopOf(a) + a.start.value))); }
  }
}
