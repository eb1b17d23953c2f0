/** Argument guards: each either hands its argument back or fails.  Messages and their
    formatting are not modelled; the comparison guards are over integers, with the
    source's `CompareTo` sign test written as the comparison it stands for. */
module Conditions {
  import opened Errors

  function CheckArgument(condition: bool): (r: Result<()>)
    ensures r.Ok? <==> condition
    ensures r.Fail? ==> r.error == Argument
  {
    if condition then Ok(()) else Fail(Argument)
  }

  /** `None` stands for a null reference. */
  function CheckNotNull<T>(value: Option<T>): (r: Result<T>)
    ensures r.Ok? <==> value.Some?
    ensures r.Ok? ==> r.value == value.value
    ensures r.Fail? ==> r.error == ArgumentNull
  {
    match value
    case Some(v) => Ok(v)
    case None => Fail(ArgumentNull)
  }

  function CheckGreater(value: int, bounds: int): (r: Result<int>)
    ensures r.Ok? <==> value > bounds
    ensures r.Ok? ==> r.value == value
    ensures r.Fail? ==> r.error == ArgumentOutOfRange
  {
    if value > bounds then Ok(value) else Fail(ArgumentOutOfRange)
  }

  function CheckLess(value: int, bounds: int): (r: Result<int>)
    ensures r.Ok? <==> value < bounds
    ensures r.Ok? ==> r.value == value
    ensures r.Fail? ==> r.error == ArgumentOutOfRange
  {
    if value < bounds then Ok(value) else Fail(ArgumentOutOfRange)
  }

  function CheckGreaterOrEqual(value: int, bounds: int): (r: Result<int>)
    ensures r.Ok? <==> value >= bounds
    ensures r.Ok? ==> r.value == value
    ensures r.Fail? ==> r.error == ArgumentOutOfRange
  {
    if value >= bounds then Ok(value) else Fail(ArgumentOutOfRange)
  }

  function CheckLessOrEqual(value: int, bounds: int): (r: Result<int>)
    ensures r.Ok? <==> value <= bounds
    ensures r.Ok? ==> r.value == value
    ensures r.Fail? ==> r.error == ArgumentOutOfRange
  {
    if value <= bounds then Ok(value) else Fail(ArgumentOutOfRange)
  }

  /** The strict and the non-strict guards in opposite directions partition the
      integers: for every value and bound exactly one of each pair passes. */
  lemma GuardsPartition(value: int, bounds: int)
    ensures CheckLess(value, bounds).Ok? != CheckGreaterOrEqual(value, bounds).Ok?
    ensures CheckGreater(value, bounds).Ok? != CheckLessOrEqual(value, bounds).Ok?
  {
  }

  /** A value passes both non-strict guards exactly when it equals the bound. */
  lemma NonStrictGuardsMeet(value: int, bounds: int)
    ensures CheckGreaterOrEqual(value, bounds).Ok? && CheckLessOrEqual(value, bounds).Ok? <==> value == bounds
  {
  }
}
