/** The `Math` built-ins the service and the date helpers use, on integers. */
module JsMath {

  /** `Math.abs`: the magnitude of `x`, which is `x` or its negation. */
  function Abs(x: int): (a: nat)
    ensures a == x || a == -x
  {
    if x < 0 then -x else x
  }
}
