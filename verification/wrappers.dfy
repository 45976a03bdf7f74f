/** Failure-carrying datatypes shared by the codec, the line parser and the writer. */
module Wrappers {

  /** Rust's `Option`: a value that may be absent. */
  datatype Option<+T> = None | Some(value: T)

  /** Why a Rust computation stopped with a panic instead of returning. */
  datatype PanicReason =
    | InvalidTag       // the assertions of `OptField::tag`
    | EmptyArrayValue  // `o_contents[0]` on a `B` field whose contents are empty
    | EmptyLine        // `s[0..1]` in the line filter, on an empty line

  /** The result of a Rust parser that returns `Option<T>` but may also panic:
      `Ok` is `Some`, `Rejected` is `None`, `Panic` is an abort. */
  datatype Outcome<+T> = Ok(value: T) | Rejected | Panic(reason: PanicReason) {

    predicate IsFailure() {
      !Ok?
    }

    /** A rejection stays a rejection and a panic keeps its reason, as Rust's `?` does. */
    function PropagateFailure<U>(): Outcome<U>
      requires !Ok?
    {
      if Rejected? then Rejected else Panic(reason)
    }

    function Extract(): T
      requires Ok?
    {
      value
    }

    /** Rust's `Option::map` on the value; failures are kept. */
    function Map<U>(f: T -> U): (r: Outcome<U>)
      ensures r.Ok? <==> Ok?
      ensures r.Ok? ==> r.value == f(value)
      ensures r.Rejected? <==> Rejected?
    {
      match this
      case Ok(v) => Ok(f(v))
      case Rejected => Rejected
      case Panic(why) => Panic(why)
    }

    /** The `Option` a caller sees once panics are ruled out. */
    function ToOption(): (r: Option<T>)
      ensures r.Some? <==> Ok?
      ensures r.Some? ==> r.value == value
    {
      if Ok? then Some(value) else None
    }
  }

  /** An `Option` read as an outcome that cannot panic. */
  function FromOption<T>(o: Option<T>): (r: Outcome<T>)
    ensures r.Ok? <==> o.Some?
    ensures r.Ok? ==> r.value == o.value
    ensures !r.Panic?
  {
    match o
    case Some(v) => Ok(v)
    case None => Rejected
  }
}
