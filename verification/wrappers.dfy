/** Option and Result, the two failure-compatible wrappers used across the model.
    A Rust `Option<T>` becomes `Option<T>` and a `Result<T, E>` becomes
    `Result<T, E>`; where the source's error is a formatted `String`, the
    model's error is either that string or a datatype naming the failed check. */
module Wrappers {

  datatype Option<+T> = None | Some(value: T) {
    predicate IsFailure() { None? }

    function PropagateFailure<U>(): Option<U>
      requires None?
    {
      None
    }

    function Extract(): T
      requires Some?
    {
      value
    }

    function GetOr(default: T): T {
      match this
      case Some(v) => v
      case None => default
    }
  }

  datatype Result<+T, +E> = Ok(value: T) | Err(error: E) {
    predicate IsFailure() { Err? }

    function PropagateFailure<U>(): Result<U, E>
      requires Err?
    {
      Err(error)
    }

    function Extract(): T
      requires Ok?
    {
      value
    }
  }

  /** The decimal rendering of a natural number, as Rust's `{}` formats a `usize`. */
  function NatToString(n: nat): (s: string)
    ensures |s| >= 1
    ensures forall i :: 0 <= i < |s| ==> '0' <= s[i] <= '9'
  {
    if n < 10 then [DigitChar(n)] else NatToString(n / 10) + [DigitChar(n % 10)]
  }

  function DigitChar(d: nat): (c: char)
    requires d < 10
    ensures '0' <= c <= '9'
  {
    ['0', '1', '2', '3', '4', '5', '6', '7', '8', '9'][d]
  }

  /** The decimal rendering of a signed integer, with a leading '-' when negative. */
  function IntToString(n: int): string {
    if n < 0 then "-" + NatToString(-n) else NatToString(n)
  }

  /** Rust's `{}` rendering of a `bool`. */
  function BoolToString(b: bool): string {
    if b then "true" else "false"
  }

  /** `i32::abs`, without the overflow at the most negative value. */
  function Abs(n: int): nat {
    if n < 0 then -n else n
  }

  /** Three-digit values print digit by digit. */
  lemma NatToStringExamples()
    ensures NatToString(200) == "200" && NatToString(150) == "150"
  {
    assert NatToString(20) == "20";
    assert NatToString(15) == "15";
  }

  /** A fallible step applied to every element in order, stopping at the
      first failure, as a Rust loop with `?` does. */
  function MapResult<A, B, E>(xs: seq<A>, f: A -> Result<B, E>): (r: Result<seq<B>, E>)
    ensures r.Ok? <==> forall i :: 0 <= i < |xs| ==> f(xs[i]).Ok?
    ensures r.Ok? ==> |r.value| == |xs| && forall i :: 0 <= i < |xs| ==> f(xs[i]) == Ok(r.value[i])
    ensures r.Err? ==> exists i :: 0 <= i < |xs| && f(xs[i]) == Err(r.error) && forall k :: 0 <= k < i ==> f(xs[k]).Ok?
    decreases |xs|
  {
    if |xs| == 0 then Ok([])
    else
      var front := xs[..|xs| - 1];
      assert forall i :: 0 <= i < |front| ==> front[i] == xs[i];
      match MapResult(front, f)
      case Err(e) => Err(e)
      case Ok(ys) =>
        match f(xs[|xs| - 1])
        case Err(e) => Err(e)
        case Ok(y) => Ok(ys + [y])
  }
}
