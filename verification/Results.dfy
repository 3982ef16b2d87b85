/** Optional values and failures. */
module Results {
  datatype Option<T> = None | Some(value: T)

  datatype Result<T, E> = Ok(value: T) | Err(error: E)

  /** What a list gives whose first members have given `parts`. */
  ghost function Behind<T, E>(parts: seq<T>, r: Result<seq<T>, E>): Result<seq<T>, E> {
    match r case Err(e) => Err(e) case Ok(rest) => Ok(parts + rest)
  }

  lemma NothingBehind<T, E>(r: Result<seq<T>, E>)
    ensures Behind([], r) == r
  {
    if r.Ok? { assert [] + r.value == r.value; }
  }
}
