/** Failure-carrying values and counting, used by the other modules. */
module Wrappers {
  datatype Option<+T> = None | Some(value: T)

  datatype Result<+T, +E> = Success(value: T) | Failure(error: E)

  /** How many elements a test holds for. */
  function Count<T>(s: seq<T>, p: T -> bool): nat {
    if s == [] then 0 else Count(s[..|s| - 1], p) + (if p(s[|s| - 1]) then 1 else 0)
  }

  /** The places below `n` where the test holds. */
  function Places<T>(s: seq<T>, p: T -> bool, n: nat): set<int>
    requires n <= |s|
  {
    set i | 0 <= i < n && p(s[i])
  }

  lemma PlacesGrow<T>(s: seq<T>, p: T -> bool, n: nat)
    requires n < |s|
    ensures Places(s, p, 0) == {} && n !in Places(s, p, n)
    ensures Places(s, p, n + 1) == if p(s[n]) then Places(s, p, n) + {n} else Places(s, p, n)
  {
  }

  lemma {:induction false} CountOfPrefix<T>(s: seq<T>, p: T -> bool, n: nat)
    requires n <= |s|
    ensures Count(s[..n], p) == |Places(s, p, n)|
  {
    if n == 0 {
      assert Places(s, p, 0) == {};
    } else {
      hide Places;
      CountOfPrefix(s, p, n - 1);
      PlacesGrow(s, p, n - 1);
      assert s[..n][..n - 1] == s[..n - 1];
    }
  }

  /** Count is the number of places where the test holds. */
  lemma {:induction false} CountIsCardinality<T>(s: seq<T>, p: T -> bool, places: set<int>)
    requires forall i :: i in places <==> 0 <= i < |s| && p(s[i])
    ensures Count(s, p) == |places|
  {
    hide Count;
    CountOfPrefix(s, p, |s|);
    assert s[..|s|] == s;
    assert places == Places(s, p, |s|);
  }
}
