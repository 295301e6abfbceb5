/** Datatypes shared by every module of the model. */
module Common {

  /** A value that may be absent, as a nil in Go or a NULL in SQL. */
  datatype Option<+T> = None | Some(value: T)

  /** A Go (value, error) return. */
  datatype Result<+T, +E> = Ok(value: T) | Err(error: E)

  /** No element of s occurs at two indices. */
  ghost predicate Distinct<T>(s: seq<T>) {
    forall i, j :: 0 <= i < j < |s| ==> s[i] != s[j]
  }

  /** s without its element at index i. */
  function RemoveAt<T>(s: seq<T>, i: nat): seq<T>
    requires i < |s|
  {
    s[..i] + s[i + 1..]
  }
}
