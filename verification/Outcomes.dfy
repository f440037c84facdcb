/** How a kernel routine ends: with a value, asleep on a resource, or in panic(). */
module Outcomes {
  datatype Outcome<+T> = Ok(value: T) | Sleep | Panic {
    predicate IsFailure() {
      !Ok?
    }

    function PropagateFailure<U>(): Outcome<U>
      requires IsFailure()
    {
      if Sleep? then Sleep else Panic
    }

    function Extract(): T
      requires Ok?
    {
      value
    }
  }
}
