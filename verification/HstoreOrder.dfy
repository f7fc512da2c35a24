/**
  Key order of hstore (shorter keys first, then bytewise), strictly sorted lists
  of pairs, and the finite map such a list stands for.
 */
module HstoreOrder {
  import opened Bytes
  import opened HstoreLayout

  /** The comparison every hstore operation makes on two keys. */
  function KeyCmp(a: bytes, b: bytes): (r: int)
    ensures r == 0 <==> a == b
  {
    if |a| == |b| then Compare(a, b) else if |a| > |b| then 1 else -1
  }

  /** Shorter keys come first; among keys of one length the first byte that differs decides. */
  lemma {:induction false} KeyCmpDecides(a: bytes, b: bytes)
    ensures KeyCmp(a, b) < 0 <==> |a| < |b| || (|a| == |b| && Before(a, b))
  {
    CompareDecides(a, b);
  }

  lemma {:induction false} KeyCmpAntisym(a: bytes, b: bytes)
    ensures KeyCmp(a, b) < 0 <==> KeyCmp(b, a) > 0
  {
    CompareAntisym(a, b);
  }

  lemma {:induction false} KeyCmpTrans(a: bytes, b: bytes, c: bytes)
    requires KeyCmp(a, b) < 0 && KeyCmp(b, c) <= 0
    ensures KeyCmp(a, c) < 0
  {
    if |a| == |b| == |c| {
      LeTrans(a, b, c);
      CompareAntisym(a, b);
      if a == c { CompareAntisym(b, c); }
    }
  }

  predicate Sorted(ps: seq<Pair>) {
    forall i, j :: 0 <= i < j < |ps| ==> KeyCmp(ps[i].key, ps[j].key) < 0
  }

  /** Every key of ps precedes k. */
  predicate Below(ps: seq<Pair>, k: bytes) {
    forall i :: 0 <= i < |ps| ==> KeyCmp(ps[i].key, k) < 0
  }

  lemma {:induction false} BelowTrans(ps: seq<Pair>, a: bytes, b: bytes)
    requires Below(ps, a) && KeyCmp(a, b) <= 0
    ensures Below(ps, b)
  {
    forall i | 0 <= i < |ps|
      ensures KeyCmp(ps[i].key, b) < 0
    {
      KeyCmpTrans(ps[i].key, a, b);
    }
  }

  // --------------------------------------------------------------------- maps

  type Map = map<bytes, Value>

  function ToMapTo(ps: seq<Pair>, n: nat): Map
    requires n <= |ps|
  {
    if n == 0 then map[] else ToMapTo(ps, n - 1)[ps[n - 1].key := ps[n - 1].val]
  }

  function ToMap(ps: seq<Pair>): Map { ToMapTo(ps, |ps|) }

  lemma {:induction false} ToMapSame(a: seq<Pair>, b: seq<Pair>, n: nat)
    requires n <= |a| && n <= |b| && forall i :: 0 <= i < n ==> a[i] == b[i]
    ensures ToMapTo(a, n) == ToMapTo(b, n)
  {
    if n > 0 { ToMapSame(a, b, n - 1); }
  }

  lemma {:induction false} ToMapAppend(ps: seq<Pair>, p: Pair)
    ensures ToMap(ps + [p]) == ToMap(ps)[p.key := p.val]
  {
    ToMapSame(ps, ps + [p], |ps|);
  }

  lemma {:induction false} ToMapKeys(ps: seq<Pair>, n: nat, k: bytes)
    requires n <= |ps|
    ensures k in ToMapTo(ps, n) <==> exists i :: 0 <= i < n && ps[i].key == k
  {
    if n > 0 { ToMapKeys(ps, n - 1, k); }
  }

  lemma {:induction false} SortedLookupTo(ps: seq<Pair>, n: nat, i: nat)
    requires Sorted(ps) && i < n <= |ps|
    ensures ps[i].key in ToMapTo(ps, n) && ToMapTo(ps, n)[ps[i].key] == ps[i].val
  {
    if i < n - 1 {
      SortedLookupTo(ps, n - 1, i);
      assert KeyCmp(ps[i].key, ps[n - 1].key) < 0;
    }
  }

  lemma {:induction false} SortedLookup(ps: seq<Pair>, i: nat)
    requires Sorted(ps) && i < |ps|
    ensures ps[i].key in ToMap(ps) && ToMap(ps)[ps[i].key] == ps[i].val
  {
    SortedLookupTo(ps, |ps|, i);
  }

  lemma {:induction false} BelowAbsent(ps: seq<Pair>, k: bytes)
    requires Below(ps, k)
    ensures k !in ToMap(ps)
  {
    ToMapKeys(ps, |ps|, k);
  }

  lemma {:induction false} SortedAbsentBefore(ps: seq<Pair>, n: nat)
    requires Sorted(ps) && n < |ps|
    ensures ps[n].key !in ToMapTo(ps, n)
  {
    ToMapKeys(ps, n, ps[n].key);
  }

  lemma {:induction false} RemoveAdded(m: Map, k: bytes, v: Value)
    requires k !in m
    ensures m[k := v] - {k} == m
  {
  }

  lemma {:induction false} DropLast(ps: seq<Pair>)
    requires Sorted(ps) && ps != []
    ensures ToMapTo(ps, |ps| - 1) == ToMap(ps) - {ps[|ps| - 1].key}
  {
    var n := |ps| - 1;
    SortedAbsentBefore(ps, n);
    RemoveAdded(ToMapTo(ps, n), ps[n].key, ps[n].val);
  }

  /** A strictly sorted list is determined by its map. */
  lemma {:induction false} SortedUnique(a: seq<Pair>, b: seq<Pair>)
    requires Sorted(a) && Sorted(b) && ToMap(a) == ToMap(b)
    ensures a == b
    decreases |a|
  {
    if a == [] || b == [] {
      if a != [] { SortedLookup(a, 0); }
      if b != [] { SortedLookup(b, 0); }
    } else {
      var m, n := |a| - 1, |b| - 1;
      SortedLookup(a, m);
      SortedLookup(b, n);
      LastKeysAgree(a, b);
      DropLast(a);
      DropLast(b);
      ToMapSame(a[..m], a, m);
      ToMapSame(b[..n], b, n);
      SortedUnique(a[..m], b[..n]);
      assert a == a[..m] + [a[m]] && b == b[..n] + [b[n]];
    }
  }

  lemma {:induction false} LastKeysAgree(a: seq<Pair>, b: seq<Pair>)
    requires Sorted(a) && Sorted(b) && ToMap(a) == ToMap(b) && a != [] && b != []
    ensures a[|a| - 1].key == b[|b| - 1].key
  {
    var x, y := a[|a| - 1].key, b[|b| - 1].key;
    SortedLookup(a, |a| - 1);
    SortedLookup(b, |b| - 1);
    ToMapKeys(a, |a|, y);
    ToMapKeys(b, |b|, x);
    var i :| 0 <= i < |a| && a[i].key == y;
    var j :| 0 <= j < |b| && b[j].key == x;
    if i < |a| - 1 && j < |b| - 1 {
      assert KeyCmp(y, x) < 0 && KeyCmp(x, y) < 0;
      KeyCmpAntisym(x, y);
    }
  }

  // ---------------------------------------------------------- canonical values

  /** The bytes are the packed form of the strictly sorted list ps. */
  predicate CanonicalFor(hs: Mem, ps: seq<Pair>) { Sorted(ps) && Packed(hs, ps) }

  ghost predicate Canonical(hs: Mem) { exists ps :: CanonicalFor(hs, ps) }

  ghost function PairsOf(hs: Mem): (ps: seq<Pair>)
    requires Canonical(hs)
    ensures CanonicalFor(hs, ps)
  {
    var ps :| CanonicalFor(hs, ps);
    ps
  }

  ghost function MapOf(hs: Mem): Map
    requires Canonical(hs)
  {
    ToMap(PairsOf(hs))
  }

  lemma {:induction false} PairsOfUnique(hs: Mem, ps: seq<Pair>)
    requires CanonicalFor(hs, ps)
    ensures Canonical(hs) && PairsOf(hs) == ps
  {
    PackedPairsUnique(hs, ps, PairsOf(hs));
  }

  /** Canonical values are equal exactly when they stand for the same map. */
  lemma {:induction false} CanonicalUnique(a: Mem, b: Mem)
    requires Canonical(a) && Canonical(b)
    ensures a == b <==> MapOf(a) == MapOf(b)
  {
    if MapOf(a) == MapOf(b) {
      SortedUnique(PairsOf(a), PairsOf(b));
      PackedMemUnique(a, b, PairsOf(a));
    }
  }
}
