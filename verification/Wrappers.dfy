/** The failure-compatible datatypes shared by every module. */
module Wrappers {

  datatype Option<+T> = None | Some(value: T) {
    function GetOr(default: T): T {
      match this
      case Some(v) => v
      case None => default
    }
  }

  datatype Result<+T, +E> = Ok(value: T) | Err(error: E) {
    predicate IsFailure() {
      Err?
    }

    function PropagateFailure<U>(): Result<U, E>
      requires Err?
    {
      Err(error)
    }

    function Extract(): T
      requires Ok?
    {
      value
    }
  }

  /** A function the model does not look into, as the table of its answers: what is read is finite, so what holds for
      every table holds for every function. */
  type Table<K(==), V> = map<K, V>

  function Find<K(==), V>(t: Table<K, V>, k: K): Option<V> {
    if k in t then Some(t[k]) else None
  }
}
