/** Result types shared by every module. */
module Basics {

  datatype Option<+T> = None | Some(value: T)

  /** What a Go function with an error result returns. */
  datatype Result<+T> = Ok(value: T) | Err(error: Error) {
    predicate IsFailure() { Err? }
    function PropagateFailure<U>(): Result<U>
      requires Err?
    {
      Err(error)
    }
    function Extract(): T
      requires Ok?
    {
      value
    }
    function Outcome(): Outcome<T> {
      match this
      case Ok(v) => Done(v)
      case Err(e) => Failed(e)
    }
  }

  /** What a call can do as a whole: return, return an error, or panic. */
  datatype Outcome<+T> = Done(value: T) | Failed(error: Error) | Panicked(panic: Panic) {
    predicate IsFailure() { !Done? }
    function PropagateFailure<U>(): Outcome<U>
      requires !Done?
    {
      match this
      case Failed(e) => Failed(e)
      case Panicked(p) => Panicked(p)
    }
    function Extract(): T
      requires Done?
    {
      value
    }
  }

  datatype Error =
    | NotFound(kind: string, name: string)
    | Invalid(subject: string, reason: string)
    | Library(message: string)

  /** The run-time panics the compiler can reach. */
  datatype Panic =
    | NilPipelineSpec
    | NilTaskSpec
    | NilWorkspace(workspace: string)
    | IndexOutOfRange(task: string)

  /** `order` lists every member of `keys` exactly once. */
  ghost predicate Enumerates(order: seq<string>, keys: set<string>) {
    && (forall k :: k in order <==> k in keys)
    && (forall i, j :: 0 <= i < j < |order| ==> order[i] != order[j])
  }
}
