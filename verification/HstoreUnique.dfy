/**
  hstoreUniquePairs: sorting a work array of pairs by length-first key order and
  squeezing duplicate keys out of it in place.
 */
module HstoreUnique {
  import opened Bytes
  import opened Counting
  import opened HstoreLayout
  import opened HstoreOrder

  /** One element of the work array; `needfree` marks separately allocated strings. */
  datatype Item = Item(pair: Pair, needfree: bool)

  /** comparePairs: by key, then items that need freeing last. */
  function ItemCmp(a: Item, b: Item): int {
    var c := KeyCmp(a.pair.key, b.pair.key);
    if c != 0 || a.needfree == b.needfree then c else if a.needfree then 1 else -1
  }

  predicate InOrder(s: seq<Item>) {
    forall i, j :: 0 <= i < j < |s| ==> ItemCmp(s[i], s[j]) <= 0
  }

  lemma {:induction false} ItemCmpTrans(a: Item, b: Item, c: Item)
    requires ItemCmp(a, b) <= 0 && ItemCmp(b, c) <= 0
    ensures ItemCmp(a, c) <= 0
  {
    var x, y, z := a.pair.key, b.pair.key, c.pair.key;
    if KeyCmp(x, y) < 0 {
      KeyCmpTrans(x, y, z);
    }
  }

  lemma {:induction false} ItemCmpTotal(a: Item, b: Item)
    ensures ItemCmp(a, b) <= 0 || ItemCmp(b, a) <= 0
  {
    KeyCmpAntisym(a.pair.key, b.pair.key);
    KeyCmpAntisym(b.pair.key, a.pair.key);
  }

  // ------------------------------------------------------------------ sorting

  ghost predicate Permutes(a: seq<Item>, b: seq<Item>) {
    |a| == |b| && forall x :: Occurs(a, |a|, x) == Occurs(b, |b|, x)
  }

  lemma {:induction false} PermutesMembers(a: seq<Item>, b: seq<Item>, x: Item)
    requires Permutes(a, b)
    ensures x in a <==> x in b
  {
    OccursMember(a, |a|, x);
    OccursMember(b, |b|, x);
    assert a[..|a|] == a && b[..|b|] == b;
  }

  /** Where y goes in an ordered list: before the first greater item. */
  function Slot(s: seq<Item>, n: nat, y: Item): (k: nat)
    requires n <= |s|
    ensures k <= n && forall i :: k <= i < n ==> ItemCmp(s[i], y) > 0
    ensures k > 0 ==> ItemCmp(s[k - 1], y) <= 0
  {
    if n == 0 || ItemCmp(s[n - 1], y) <= 0 then n else Slot(s, n - 1, y)
  }

  lemma {:induction false} InsertInOrder(s: seq<Item>, k: nat, y: Item)
    requires InOrder(s) && k <= |s|
    requires forall i :: k <= i < |s| ==> ItemCmp(s[i], y) > 0
    requires k > 0 ==> ItemCmp(s[k - 1], y) <= 0
    ensures InOrder(s[..k] + [y] + s[k..])
  {
    forall i | 0 <= i < |s|
      ensures if i < k then ItemCmp(s[i], y) <= 0 else ItemCmp(y, s[i]) <= 0
    {
      if i < k - 1 { ItemCmpTrans(s[i], s[k - 1], y); }
      ItemCmpTotal(s[i], y);
    }
    InsertAt(s, k, y);
  }

  lemma {:induction false} InsertAt(s: seq<Item>, k: nat, y: Item)
    requires InOrder(s) && k <= |s|
    requires forall i :: 0 <= i < |s| ==> if i < k then ItemCmp(s[i], y) <= 0 else ItemCmp(y, s[i]) <= 0
    ensures InOrder(s[..k] + [y] + s[k..])
  {
    var t := s[..k] + [y] + s[k..];
    forall i, j | 0 <= i < j < |t|
      ensures ItemCmp(t[i], t[j]) <= 0
    {
      assert t[i] == if i < k then s[i] else if i == k then y else s[i - 1];
      assert t[j] == if j < k then s[j] else if j == k then y else s[j - 1];
    }
  }

  /** s is a permutation of the first n items of t. */
  ghost predicate PermutesTo(s: seq<Item>, t: seq<Item>, n: nat)
    requires n <= |t|
  {
    |s| == n && forall x :: Occurs(s, |s|, x) == Occurs(t, n, x)
  }

  lemma {:induction false} InsertPermutes(s: seq<Item>, t: seq<Item>, n: nat, k: nat)
    requires n < |t| && PermutesTo(s, t, n) && k <= n
    ensures PermutesTo(s[..k] + [t[n]] + s[k..], t, n + 1)
  {
    var r := s[..k] + [t[n]] + s[k..];
    forall x
      ensures Occurs(r, |r|, x) == Occurs(t, n + 1, x)
    {
      OccursInsert(s, k, t[n], n, x);
    }
  }

  /** Stands for qsort: all a caller may rely on is order and permutation. */
  method Sort(t: seq<Item>) returns (s: seq<Item>)
    ensures InOrder(s) && Permutes(s, t)
  {
    s := [];
    for n := 0 to |t|
      invariant InOrder(s) && PermutesTo(s, t, n)
    {
      var k := Slot(s, n, t[n]);
      InsertInOrder(s, k, t[n]);
      InsertPermutes(s, t, n, k);
      s := s[..k] + [t[n]] + s[k..];
    }
  }

  method SortArray(a: array<Item>)
    modifies a
    ensures InOrder(a[..]) && Permutes(a[..], old(a[..]))
  {
    var s := Sort(a[..]);
    forall i | 0 <= i < a.Length { a[i] := s[i]; }
    assert a[..] == s;
  }

  // ------------------------------------------------------------ deduplication

  function PairsIn(s: seq<Item>): (ps: seq<Pair>)
    ensures |ps| == |s|
  {
    seq(|s|, i requires 0 <= i < |s| => s[i].pair)
  }

  predicate SortedItems(u: seq<Item>) {
    forall i, j :: 0 <= i < j < |u| ==> KeyCmp(u[i].pair.key, u[j].pair.key) < 0
  }

  lemma {:induction false} SortedPairs(u: seq<Item>)
    requires SortedItems(u)
    ensures Sorted(PairsIn(u))
  {
    var ps := PairsIn(u);
    assert forall i :: 0 <= i < |u| ==> ps[i] == u[i].pair;
  }

  /** Some of the first n items has key k. */
  predicate HasKey(s: seq<Item>, n: nat, k: bytes)
    requires n <= |s|
  {
    exists i :: 0 <= i < n && s[i].pair.key == k
  }

  predicate Among(s: seq<Item>, n: nat, x: Item)
    requires n <= |s|
  {
    exists i :: 0 <= i < n && s[i] == x
  }

  /** If x needs freeing then so do all of the first n items with its key. */
  predicate FreedLast(s: seq<Item>, n: nat, x: Item)
    requires n <= |s|
  {
    x.needfree ==> forall i :: 0 <= i < n && s[i].pair.key == x.pair.key ==> s[i].needfree
  }

  /**
    u is the first n items of s without duplicate keys: strictly sorted, the same
    keys, only items of s, and an item that needs freeing only where no other
    item has its key.
   */
  ghost predicate UniqueOf(u: seq<Item>, s: seq<Item>, n: nat)
    requires n <= |s|
  {
    && SortedItems(u)
    && (forall k :: SameKeyIn(u, s, n, k))
    && (forall i :: 0 <= i < |u| ==> KeptFrom(u, s, n, i))
  }

  predicate SameKeyIn(u: seq<Item>, s: seq<Item>, n: nat, k: bytes)
    requires n <= |s|
  {
    HasKey(u, |u|, k) <==> HasKey(s, n, k)
  }

  predicate KeptFrom(u: seq<Item>, s: seq<Item>, n: nat, i: nat)
    requires n <= |s| && i < |u|
  {
    Among(s, n, u[i]) && FreedLast(s, n, u[i])
  }

  /** What the sweep has established for the first p items of the ordered list t. */
  ghost predicate Swept(u: seq<Item>, t: seq<Item>, p: nat) {
    && 0 < |u| <= p <= |t|
    && UniqueOf(u, t, p)
    && u[|u| - 1].pair.key == t[p - 1].pair.key
  }

  lemma {:induction false} SweepStart(t: seq<Item>)
    requires |t| > 0
    ensures Swept([t[0]], t, 1)
  {
    var u := [t[0]];
    assert u[0] == t[0];
    assert KeptFrom(u, t, 1, 0);
    forall k
      ensures SameKeyIn(u, t, 1, k)
    {
    }
  }

  lemma {:induction false} HasKeyAppend(u: seq<Item>, y: Item, k: bytes)
    ensures HasKey(u + [y], |u| + 1, k) <==> HasKey(u, |u|, k) || y.pair.key == k
  {
    var v := u + [y];
    assert v[|u|] == y;
    if HasKey(u, |u|, k) {
      var i :| 0 <= i < |u| && u[i].pair.key == k;
      assert v[i].pair.key == k;
    }
  }

  /** A later item with the same key does not come before one that needs freeing. */
  lemma {:induction false} FreedLastNext(t: seq<Item>, p: nat, x: Item)
    requires InOrder(t) && p < |t| && Among(t, p, x) && FreedLast(t, p, x)
    ensures Among(t, p + 1, x) && FreedLast(t, p + 1, x)
  {
    var i :| 0 <= i < p && t[i] == x;
    assert ItemCmp(t[i], t[p]) <= 0;
  }

  lemma {:induction false} SweepSame(u: seq<Item>, t: seq<Item>, p: nat)
    requires InOrder(t) && Swept(u, t, p) && p < |t| && t[p].pair.key == u[|u| - 1].pair.key
    ensures Swept(u, t, p + 1)
  {
    var n := p + 1;
    forall k
      ensures SameKeyIn(u, t, n, k)
    {
      assert SameKeyIn(u, t, p, k);
      assert HasKey(t, p + 1, k) <==> HasKey(t, p, k) || t[p].pair.key == k;
    }
    forall i | 0 <= i < |u|
      ensures KeptFrom(u, t, n, i)
    {
      assert KeptFrom(u, t, p, i);
      FreedLastNext(t, p, u[i]);
    }
  }

  lemma {:induction false} NewKeyAfter(u: seq<Item>, t: seq<Item>, p: nat)
    requires InOrder(t) && Swept(u, t, p) && p < |t| && t[p].pair.key != u[|u| - 1].pair.key
    ensures forall i :: 0 <= i < |u| ==> KeyCmp(u[i].pair.key, t[p].pair.key) < 0
    ensures !HasKey(t, p, t[p].pair.key)
  {
    var n := |u| - 1;
    assert ItemCmp(t[p - 1], t[p]) <= 0;
    forall i | 0 <= i < |u|
      ensures KeyCmp(u[i].pair.key, t[p].pair.key) < 0
    {
      if i < n { KeyCmpTrans(u[i].pair.key, u[n].pair.key, t[p].pair.key); }
    }
    assert !HasKey(u, |u|, t[p].pair.key) && SameKeyIn(u, t, p, t[p].pair.key);
  }

  lemma {:induction false} SweepNew(u: seq<Item>, t: seq<Item>, p: nat)
    requires InOrder(t) && Swept(u, t, p) && p < |t| && t[p].pair.key != u[|u| - 1].pair.key
    ensures Swept(u + [t[p]], t, p + 1)
  {
    NewKeyAfter(u, t, p);
    var v, n := u + [t[p]], p + 1;
    forall k
      ensures SameKeyIn(v, t, n, k)
    {
      assert SameKeyIn(u, t, p, k);
      HasKeyAppend(u, t[p], k);
      assert HasKey(t, p + 1, k) <==> HasKey(t, p, k) || t[p].pair.key == k;
    }
    forall i | 0 <= i < |v|
      ensures KeptFrom(v, t, n, i)
    {
      if i < |u| {
        assert KeptFrom(u, t, p, i);
        FreedLastNext(t, p, u[i]);
      }
    }
  }

  // --------------------------------------------------------------- permutation

  lemma {:induction false} AmongPermutes(t: seq<Item>, s: seq<Item>, x: Item)
    requires Permutes(t, s) && Among(t, |t|, x)
    ensures Among(s, |s|, x)
  {
    PermutesMembers(t, s, x);
  }

  lemma {:induction false} KeyPermutes(t: seq<Item>, s: seq<Item>, k: bytes)
    requires Permutes(t, s) && HasKey(t, |t|, k)
    ensures HasKey(s, |s|, k)
  {
    var i :| 0 <= i < |t| && t[i].pair.key == k;
    AmongPermutes(t, s, t[i]);
    var j :| 0 <= j < |s| && s[j] == t[i];
  }

  lemma {:induction false} FreedPermutes(t: seq<Item>, s: seq<Item>, x: Item)
    requires Permutes(t, s) && FreedLast(t, |t|, x)
    ensures FreedLast(s, |s|, x)
  {
    if x.needfree {
      forall j | 0 <= j < |s| && s[j].pair.key == x.pair.key
        ensures s[j].needfree
      {
        PermutesMembers(t, s, s[j]);
      }
    }
  }

  lemma {:induction false} UniquePermutes(u: seq<Item>, t: seq<Item>, s: seq<Item>)
    requires UniqueOf(u, t, |t|) && Permutes(t, s)
    ensures UniqueOf(u, s, |s|)
  {
    forall k
      ensures SameKeyIn(u, s, |s|, k)
    {
      assert SameKeyIn(u, t, |t|, k);
      if HasKey(t, |t|, k) { KeyPermutes(t, s, k); }
      if HasKey(s, |s|, k) { KeyPermutes(s, t, k); }
    }
    forall i | 0 <= i < |u|
      ensures KeptFrom(u, s, |s|, i)
    {
      assert KeptFrom(u, t, |t|, i);
      AmongPermutes(t, s, u[i]);
      FreedPermutes(t, s, u[i]);
    }
  }

  // --------------------------------------------------------------- the routine

  function Len(x: Item): nat { |x.pair.key| + |ValBytes(x.pair)| }

  predicate SameKey(x: Item, y: Item) { x.pair.key == y.pair.key }

  /** Bytes of the first n items. */
  function Total(u: seq<Item>, n: nat): nat
    requires n <= |u|
  {
    if n == 0 then 0 else Total(u, n - 1) + Len(u[n - 1])
  }

  lemma {:induction false} TotalSame(u: seq<Item>, v: seq<Item>, n: nat)
    requires n <= |u| && n <= |v| && forall i :: 0 <= i < n ==> u[i] == v[i]
    ensures Total(u, n) == Total(v, n)
  {
    if n > 0 { TotalSame(u, v, n - 1); }
  }

  lemma {:induction false} TotalStrs(u: seq<Item>, n: nat)
    requires n <= |u|
    ensures Total(u, n) == |StrsTo(PairsIn(u), n)|
  {
    if n > 0 { TotalStrs(u, n - 1); }
  }

  lemma {:induction false} SweepNext(u: seq<Item>, t: seq<Item>, p: nat, v: seq<Item>)
    requires InOrder(t) && Swept(u, t, p) && p < |t|
    requires v == if t[p].pair.key == u[|u| - 1].pair.key then u else u + [t[p]]
    ensures Swept(v, t, p + 1)
  {
    if t[p].pair.key == u[|u| - 1].pair.key {
      SweepSame(u, t, p);
    } else {
      SweepNew(u, t, p);
    }
  }

  /** The result of the sweep over the first p items: each run of equal keys keeps its first. */
  function Squeezed(t: seq<Item>, p: nat): (u: seq<Item>)
    requires 0 < p <= |t|
    ensures 0 < |u| <= p
    decreases p, t
  {
    if p == 1 then [t[0]]
    else
      var u := Squeezed(t, p - 1);
      if SameKey(t[p - 1], u[|u| - 1]) then u else u + [t[p - 1]]
  }

  lemma {:induction false} SqueezedSwept(t: seq<Item>, p: nat)
    requires InOrder(t) && 0 < p <= |t|
    ensures Swept(Squeezed(t, p), t, p)
  {
    if p == 1 {
      SweepStart(t);
    } else {
      SqueezedSwept(t, p - 1);
      SweepNext(Squeezed(t, p - 1), t, p - 1, Squeezed(t, p));
    }
  }

  /** The sweep has dealt with p items of t; the kept ones are at the front, up to position res. */
  predicate Sweeping(s: seq<Item>, t: seq<Item>, p: nat, res: nat, buflen: nat) {
    && res < p <= |t| == |s| && s[p..] == t[p..]
    && s[..res + 1] == Squeezed(t, p) && buflen == Total(s[..res + 1], res)
  }

  lemma {:induction false} SweepKeeps(s: seq<Item>, t: seq<Item>, p: nat, res: nat, buflen: nat)
    requires Sweeping(s, t, p, res, buflen) && p < |s| && !SameKey(s[p], s[res])
    ensures Sweeping(s[res + 1 := s[p]], t, p + 1, res + 1, buflen + Len(s[res]))
  {
    var r := s[res + 1 := s[p]];
    assert s[p] == s[p..][0] == t[p];
    assert r[..res + 2] == s[..res + 1] + [t[p]];
    assert r[p + 1..] == s[p..][1..];
    TotalSame(s[..res + 1], r[..res + 2], res);
  }

  lemma {:induction false} SweepSkips(s: seq<Item>, t: seq<Item>, p: nat, res: nat, buflen: nat)
    requires Sweeping(s, t, p, res, buflen) && p < |s| && SameKey(s[p], s[res])
    ensures Sweeping(s, t, p + 1, res, buflen)
  {
    assert s[p] == s[p..][0] == t[p];
    assert s[p + 1..] == s[p..][1..];
  }

  /** The in-place sweep: reads at p, writes at or before p. */
  method Squeeze(a: array<Item>) returns (n: nat, buflen: nat)
    requires a.Length > 0
    modifies a
    ensures n <= a.Length && a[..n] == Squeezed(old(a[..]), a.Length)
    ensures buflen == Total(a[..n], n)
  {
    ghost var t := a[..];
    var p, res := 1, 0;
    buflen := 0;
    while p < a.Length
      invariant 1 <= p <= a.Length && Sweeping(a[..], t, p, res, buflen)
    {
      ghost var s := a[..];
      if !SameKey(a[p], a[res]) {
        SweepKeeps(s, t, p, res, buflen);
        buflen := buflen + Len(a[res]);
        res := res + 1;
        a[res] := a[p];
        assert a[..] == s[res := s[p]];
      } else {
        SweepSkips(s, t, p, res, buflen);
      }
      p := p + 1;
    }
    buflen := buflen + Len(a[res]);
    n := res + 1;
  }

  /** hstoreUniquePairs */
  method UniquePairs(a: array<Item>) returns (n: nat, buflen: nat)
    modifies a
    ensures n <= a.Length && UniqueOf(a[..n], old(a[..]), a.Length)
    ensures buflen == |Strs(PairsIn(a[..n]))|
  {
    ghost var was := a[..];
    if a.Length < 2 {
      n, buflen := a.Length, 0;
      if a.Length == 1 {
        SweepStart(was);
        buflen := Len(a[0]);
      }
      assert a[..n] == was;
      TotalStrs(was, n);
      return;
    }
    SortArray(a);
    ghost var t := a[..];
    n, buflen := Squeeze(a);
    SqueezedSwept(t, a.Length);
    UniquePermutes(a[..n], t, was);
    TotalStrs(a[..n], n);
  }
}
