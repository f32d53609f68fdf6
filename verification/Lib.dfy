/** Definitions that several parts of the model share. */
module Lib {

  datatype Option<T> = None | Some(value: T)

  newtype Byte = x: int | 0 <= x < 256

  /** DIVROUNDUP (include/lib.h). */
  function DivRoundUp(a: nat, b: nat): (r: nat)
    requires b > 0
    ensures r * b >= a && (r > 0 ==> (r - 1) * b < a)
  {
    var r := (a + b - 1) / b;
    assert r * b + (a + b - 1) % b == a + b - 1;
    r
  }

  /** No element occurs twice. */
  ghost predicate Distinct<T>(q: seq<T>) {
    forall i, j :: 0 <= i < j < |q| ==> q[i] != q[j]
  }
}
