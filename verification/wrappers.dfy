/** Option and Result types shared by the whole model, and the exceptions of
    the Python program that the model reports as values instead of raising. */
module Wrappers {

  datatype Option<+T> = None | Some(value: T) {

    predicate IsFailure() {
      None?
    }

    function PropagateFailure<U>(): Option<U>
      requires None?
    {
      None
    }

    function Extract(): T
      requires Some?
    {
      value
    }

    function GetOr(default: T): T {
      match this
      case Some(v) => v
      case None => default
    }
  }

  /** The Python exceptions the modelled code raises or lets through. */
  datatype Error =
    | KeyError(key: string)       // a dict lookup of a missing key
    | BareKeyError                // `raise KeyError` with no argument
    | IndexError                  // indexing past the end of a string or list
    | TypeError                   // comparing values that have no common order
    | ValueError                  // `max` of an empty sequence
    | FileNotFound(path: string)  // `open` or `os.listdir` of a missing path
    | ParseError(text: string)    // the TOML parser refused its input
    | RuntimeError(message: string)
    | Exit(code: int)             // `sys.exit(code)`

  datatype Result<+T> = Ok(value: T) | Err(error: Error) {

    predicate IsFailure() {
      Err?
    }

    function PropagateFailure<U>(): Result<U>
      requires Err?
    {
      Err(error)
    }

    function Extract(): T
      requires Ok?
    {
      value
    }
  }

  /** `[f(x) for x in xs]` where `f` may raise: the results in order, or
      the first error. */
  function MapAll<A, B>(f: A -> Result<B>, xs: seq<A>): (r: Result<seq<B>>)
    ensures r.Ok? ==> |r.value| == |xs| && forall i :: 0 <= i < |xs| ==> f(xs[i]) == Ok(r.value[i])
    ensures r.Ok? <==> forall i :: 0 <= i < |xs| ==> f(xs[i]).Ok?
    ensures r.Err? ==> exists i :: 0 <= i < |xs| && f(xs[i]) == Err(r.error) && forall j :: 0 <= j < i ==> f(xs[j]).Ok?
  {
    if |xs| == 0 then Ok([])
    else
      var first :- f(xs[0]);
      var rest := MapAll(f, xs[1..]);
      if rest.Err? then
        assert forall j :: 1 <= j < |xs| ==> xs[j] == xs[1..][j - 1];
        Err(rest.error)
      else
        Ok([first] + rest.value)
  }
}
