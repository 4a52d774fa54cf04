/**
 * The step strip of `render_wizard_steps`: which record indices the (at most
 * five) steps show around the review cursor, and how each step is marked.
 */
module Wizard {

  /** How a step is drawn: done (a tick), current (an arrow) or upcoming
      (its one-based number). */
  datatype StepState = Done | Current | Upcoming

  /** `steps_to_show = min(5, total_records)` */
  function StepCount(total: nat): (n: nat)
    ensures n <= 5 && n <= total
    ensures n == 5 || n == total
  {
    if total < 5 then total else 5
  }

  /** The record index shown by step `i`: the first records while the cursor
      is near the start, the last five near the end, otherwise a window with
      the cursor in the middle. */
  function StepIndex(i: nat, current: nat, total: nat): int {
    if total <= 5 then i
    else if current < 2 then i
    else if current >= total - 3 then total - 5 + i
    else current - 2 + i
  }

  /** The indices of all steps, left to right: `min(5, total)` consecutive
      indices. While a record is under review they are all record indices
      and the cursor's record is one of them; once the cursor is at or past
      the end they are the last records. */
  function Window(current: nat, total: nat): (w: seq<int>)
    ensures |w| == StepCount(total)
    ensures forall i :: 0 <= i < |w| - 1 ==> w[i + 1] == w[i] + 1
    ensures current < total ==> current in w
    ensures current < total ==> forall i :: 0 <= i < |w| ==> 0 <= w[i] < total
    ensures total <= current ==> forall i :: 0 <= i < |w| ==> w[i] == total - |w| + i
  {
    var w := seq(StepCount(total), i requires 0 <= i => StepIndex(i, current, total));
    if current < total then
      assert w[current - StepIndex(0, current, total)] == current;
      w
    else w
  }

  /** A step before the cursor is done, the cursor's step is current and the
      ones after it are upcoming. */
  function Classify(index: int, current: nat): (s: StepState)
    ensures s == Done <==> index < current
    ensures s == Current <==> index == current
    ensures s == Upcoming <==> index > current
  {
    if index < current then Done
    else if index == current then Current
    else Upcoming
  }

  /** The first index of the window. */
  function WindowStart(current: nat, total: nat): int {
    StepIndex(0, current, total)
  }

  /** While a record is under review the strip shows `min(5, total)`
      consecutive record indices, all of them real records, and the cursor's
      record is one of them. */
  lemma WindowCoversCursor(current: nat, total: nat)
    requires current < total
    ensures var w := Window(current, total);
      && |w| == StepCount(total)
      && 0 <= WindowStart(current, total)
      && WindowStart(current, total) + |w| <= total
      && (forall i :: 0 <= i < |w| ==> w[i] == WindowStart(current, total) + i)
      && WindowStart(current, total) <= current < WindowStart(current, total) + |w|
  {
  }

  /** So each index in the window is a record index, and the cursor sits at
      position `current - start`. */
  lemma WindowInRange(current: nat, total: nat)
    requires current < total
    ensures var w := Window(current, total);
      && (forall i :: 0 <= i < |w| ==> 0 <= w[i] < total)
      && (forall i :: 0 <= i < |w| - 1 ==> w[i + 1] == w[i] + 1)
      && current in w
  {
    WindowCoversCursor(current, total);
    var w := Window(current, total);
    var k := current - WindowStart(current, total);
    assert w[k] == current;
  }

  /** Exactly one step is current; the steps before it are done and the
      steps after it upcoming. */
  lemma OneCurrentStep(current: nat, total: nat)
    requires current < total
    ensures var w := Window(current, total); var k := current - WindowStart(current, total);
      && 0 <= k < |w|
      && Classify(w[k], current) == Current
      && (forall i :: 0 <= i < k ==> Classify(w[i], current) == Done)
      && (forall i :: k < i < |w| ==> Classify(w[i], current) == Upcoming)
  {
    WindowCoversCursor(current, total);
  }

  /** Once every record is reviewed the strip shows the last `min(5, total)`
      records, all of them done. */
  lemma WindowAfterLast(current: nat, total: nat)
    requires 0 < total <= current
    ensures var w := Window(current, total);
      && (forall i :: 0 <= i < |w| ==> w[i] == total - |w| + i)
      && (forall i :: 0 <= i < |w| ==> Classify(w[i], current) == Done)
  {
  }

  lemma ExampleMiddle()
    ensures Window(4, 10) == [2, 3, 4, 5, 6]
  {
  }

  lemma ExampleNearEnd()
    ensures Window(8, 10) == [5, 6, 7, 8, 9]
  {
  }

  lemma ExampleShortSource()
    ensures Window(1, 3) == [0, 1, 2]
  {
  }
}
