/** Datatypes and sequence vocabulary the other modules share. */
module Common {

  type Byte = b: int | 0 <= b < 256

  datatype Option<+T> = None | Some(value: T)

  predicate Distinct<T(==)>(s: seq<T>) {
    forall i, j :: 0 <= i < j < |s| ==> s[i] != s[j]
  }

  lemma FrontOfConcat<T>(x: seq<T>, y: seq<T>)
    requires y != []
    ensures var n := |x + y| - 1; (x + y)[..n] == x + y[..|y| - 1] && (x + y)[n] == y[|y| - 1]
  {
  }

  lemma NothingAfter<T>(x: seq<T>)
    ensures x + [] == x
  {
  }
}
