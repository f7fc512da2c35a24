/** How often an element occurs in a sequence. */
module Counting {
  /** Occurrences of x among the first n elements. */
  function Occurs<T(==)>(s: seq<T>, n: nat, x: T): nat
    requires n <= |s|
  {
    if n == 0 then 0 else Occurs(s, n - 1, x) + (if s[n - 1] == x then 1 else 0)
  }

  lemma {:induction false} OccursSame<T>(a: seq<T>, b: seq<T>, n: nat, x: T)
    requires n <= |a| && n <= |b| && forall i :: 0 <= i < n ==> a[i] == b[i]
    ensures Occurs(a, n, x) == Occurs(b, n, x)
  {
    if n > 0 { OccursSame(a, b, n - 1, x); }
  }

  lemma {:induction false} OccursAppend<T>(s: seq<T>, y: T, x: T)
    ensures Occurs(s + [y], |s| + 1, x) == Occurs(s, |s|, x) + (if y == x then 1 else 0)
  {
    OccursSame(s, s + [y], |s|, x);
  }

  lemma {:induction false} OccursConcat<T>(a: seq<T>, b: seq<T>, n: nat, x: T)
    requires n <= |b|
    ensures Occurs(a + b, |a| + n, x) == Occurs(a, |a|, x) + Occurs(b, n, x)
  {
    if n == 0 {
      OccursSame(a, a + b, |a|, x);
    } else {
      OccursConcat(a, b, n - 1, x);
    }
  }

  lemma {:induction false} OccursInsert<T>(s: seq<T>, k: nat, y: T, n: nat, x: T)
    requires k <= n <= |s|
    ensures Occurs(s[..k] + [y] + s[k..], n + 1, x) == Occurs(s, n, x) + (if y == x then 1 else 0)
  {
    var t := s[..k] + [y] + s[k..];
    if n == k {
      OccursSame(s, t, k, x);
    } else {
      OccursInsert(s, k, y, n - 1, x);
      assert t[n] == s[n - 1];
    }
  }

  lemma {:induction false} OccursMember<T>(s: seq<T>, n: nat, x: T)
    requires n <= |s|
    ensures Occurs(s, n, x) > 0 <==> x in s[..n]
  {
    if n > 0 {
      OccursMember(s, n - 1, x);
      assert s[..n] == s[..n - 1] + [s[n - 1]];
    }
  }
}
