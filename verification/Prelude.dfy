/** Types and counting facts shared by every module. */
module Prelude {

  datatype Option<+T> = None | Some(value: T)

  datatype Result<+T, +E> = Ok(value: T) | Err(error: E)

  function Max(a: int, b: int): int {
    if a < b then b else a
  }

  /** A set whose members are numbered differently with numbers in 1..n has at most n members. */
  lemma {:induction false} NumberedSetBound<T>(s: set<T>, number: map<T, int>, n: nat)
    requires forall x | x in s :: x in number && 1 <= number[x] <= n
    requires forall x, y | x in s && y in s && number[x] == number[y] :: x == y
    ensures |s| <= n
  {
    if s != {} {
      if x :| x in s && number[x] == n {
        NumberedSetBound(s - {x}, number, n - 1);
      } else {
        var x :| x in s;
        NumberedSetBound(s, number, n - 1);
      }
    }
  }

  /** A subset has no more members than its superset. */
  lemma {:induction false} SubsetSize<T>(a: set<T>, b: set<T>)
    requires a <= b
    ensures |a| <= |b|
  {
    assert b == a + (b - a);
  }
}
