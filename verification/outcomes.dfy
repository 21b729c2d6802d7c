/** Failure-carrying values shared by every component of the model.

    The Java program reacts to a bad configuration by printing a message and
    calling System.exit(-1), or by letting an exception escape to the
    top-level catch in AmselMain, which also exits. Both become `Fatal`.
    A sampler that throws while a traffic generator's thread asks it for a
    sample is `Fatal` as well: the generators catch only IOException, so
    the exception ends that thread, though not the program. `Fatal` thus
    means that the activity making the call ends there.
 */
module Outcomes {

  datatype Option<+T> = None | Some(value: T)

  datatype Result<+T> = Ok(value: T) | Fatal(reason: string) {

    predicate IsFailure() {
      Fatal?
    }

    function PropagateFailure<U>(): Result<U>
      requires Fatal?
    {
      Fatal(reason)
    }

    function Extract(): T
      requires Ok?
    {
      value
    }
  }

  /** Fails with `reason` unless `condition` holds; usable with `:-`. */
  datatype Check = Pass | Fail(reason: string) {

    predicate IsFailure() {
      Fail?
    }

    function PropagateFailure<U>(): Result<U>
      requires Fail?
    {
      Fatal(reason)
    }
  }

  function Need(condition: bool, reason: string): (c: Check)
    ensures c.Pass? <==> condition
  {
    if condition then Pass else Fail(reason)
  }

  /** The value of an Option, or a fatal error naming what was missing. */
  function FromOption<T>(o: Option<T>, reason: string): (r: Result<T>)
    ensures r.Ok? <==> o.Some?
    ensures r.Ok? ==> r.value == o.value
  {
    match o
    case Some(v) => Ok(v)
    case None => Fatal(reason)
  }
}
