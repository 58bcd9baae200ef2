/** Small value types shared by the whole model. */
module Base {

  datatype Option<T> = None | Some(value: T)

  /** A computation that either yields a value or raises the exception `error`. */
  datatype Result<T, E> = Ok(value: T) | Err(error: E)

  /**
   * Python's `range(lo, hi)` with step 1: the chapter numbers lo, lo + 1, ..., hi - 1.
   * Every range the parsers build has lo <= hi.
   */
  datatype Range = Range(lo: int, hi: int) {
    predicate Contains(n: int) {
      lo <= n < hi
    }
  }

  /** `xs` followed by what `r` yields, or the exception `r` raises. */
  function Cons<T, E>(xs: seq<T>, r: Result<seq<T>, E>): Result<seq<T>, E> {
    match r
    case Ok(ys) => Ok(xs + ys)
    case Err(e) => Err(e)
  }

  lemma ConsNil<T, E>(r: Result<seq<T>, E>)
    ensures Cons([], r) == r
  {
    if r.Ok? {
      assert [] + r.value == r.value;
    }
  }

  lemma ConsCons<T, E>(xs: seq<T>, ys: seq<T>, r: Result<seq<T>, E>)
    ensures Cons(xs, Cons(ys, r)) == Cons(xs + ys, r)
  {
    if r.Ok? {
      assert xs + (ys + r.value) == (xs + ys) + r.value;
    }
  }
}
