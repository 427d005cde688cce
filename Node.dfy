/** A status node: a named unit with a test predicate, an action, a target polarity
    and a priority weight.  The test callback itself is not part of the value: its
    outcome is supplied by the caller as `raw`, and `hasTest` says whether one is bound. */
module Node {

  datatype Status = Status(name: string, hasTest: bool, target: bool, weight: real)

  /** `NFA_Status::test`: the node is met when the raw outcome equals the target,
      and the other way round when `reverse` is set. */
  function Test(s: Status, raw: bool, reverse: bool): (meet: bool)
    requires s.hasTest
  {
    if !reverse then raw == s.target else raw != s.target
  }

  /** `NFA_Status::run`: the signal handed to the run callback. */
  function RunSignal(meet: bool, reverse: bool): (signal: bool)
  {
    if !reverse then meet else !meet
  }

  /** With `reverse`, exactly the nodes that were met become unmet. */
  lemma ReverseInvertsMeet(s: Status, raw: bool)
    requires s.hasTest
    ensures Test(s, raw, true) == !Test(s, raw, false)
    ensures Test(s, raw, false) <==> raw == s.target
  {
  }

  /** The run callback always receives `raw == target`: the inversion applied by
      `run` undoes the one applied by `test`. */
  lemma RunSignalIgnoresReverse(s: Status, raw: bool, reverse: bool)
    requires s.hasTest
    ensures RunSignal(Test(s, raw, reverse), reverse) == (raw == s.target)
  {
  }

  /** The C++ conversion `(int)w`: truncation toward zero. */
  function Trunc(w: real): (t: int)
    ensures w >= 0.0 ==> t as real <= w < t as real + 1.0
    ensures w < 0.0 ==> t as real - 1.0 < w <= t as real
  {
    if w >= 0.0 then w.Floor else -((-w).Floor)
  }

  /** Truncation is monotone, so a higher tier always means a higher weight. */
  lemma TruncMonotone(a: real, b: real)
    requires Trunc(a) > Trunc(b)
    ensures a > b
  {
  }
}
