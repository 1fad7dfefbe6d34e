/**
 Small shared vocabulary of the scraper model: an optional value usable with
 `:-`, and the sequence predicates the other modules state their contracts in.
 */
module Common {

  /** A value that may be absent; `None` also stands for a Python exception
      that aborts the computation it occurs in. */
  datatype Option<+T> = None | Some(value: T) {

    predicate IsFailure() {
      None?
    }

    function PropagateFailure<U>(): Option<U>
      requires None?
    {
      None
    }

    function Extract(): T
      requires Some?
    {
      value
    }
  }

  /** No element occurs twice. */
  predicate Distinct<T(==)>(s: seq<T>) {
    forall i, j :: 0 <= i < j < |s| ==> s[i] != s[j]
  }

  /** Python's `x in t` for two strings: `x` occurs in `t` as a contiguous substring. */
  predicate Contains(t: string, x: string) {
    exists i :: 0 <= i <= |t| && x <= t[i..]
  }

  /** The position of the first occurrence of `x` in `s`. */
  function IndexOf<T(==)>(s: seq<T>, x: T): (i: nat)
    requires x in s
    ensures i < |s| && s[i] == x
    ensures forall j :: 0 <= j < i ==> s[j] != x
  {
    if s[0] == x then 0 else 1 + IndexOf(s[1..], x)
  }
}
