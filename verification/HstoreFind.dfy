/**
  Key lookup in packed hstores: the binary search that remembers a lower bound
  between calls, and the operations that call it with increasing keys.
 */
module HstoreFind {
  import opened Bytes
  import opened HstoreLayout
  import opened HstoreOrder
  import opened HstoreUnique
  import opened HstoreOps

  // ------------------------------------------------------------------- search

  /** Full search from the start: the position of key k, or -1. */
  function IndexOf(ps: seq<Pair>, n: nat, k: bytes): (r: int)
    requires n <= |ps|
    ensures -1 <= r < n
    ensures r >= 0 ==> ps[r].key == k
    ensures r < 0 ==> forall i :: 0 <= i < n ==> ps[i].key != k
  {
    if n == 0 then -1 else if ps[n - 1].key == k then n - 1 else IndexOf(ps, n - 1, k)
  }

  lemma {:induction false} IndexOfUnique(ps: seq<Pair>, i: nat)
    requires Sorted(ps) && i < |ps|
    ensures IndexOf(ps, |ps|, ps[i].key) == i
  {
    var j := IndexOf(ps, |ps|, ps[i].key);
    assert j != i ==> KeyCmp(ps[j].key, ps[i].key) != 0;
  }

  lemma {:induction false} IndexOfMap(ps: seq<Pair>, k: bytes)
    requires Sorted(ps)
    ensures var i := IndexOf(ps, |ps|, k);
            (i >= 0 <==> k in ToMap(ps)) && (i >= 0 ==> ToMap(ps)[k] == ps[i].val)
  {
    var i := IndexOf(ps, |ps|, k);
    ToMapKeys(ps, |ps|, k);
    if i >= 0 { SortedLookup(ps, i); }
  }

  /** The pairs from position j on have keys after k. */
  predicate AboveFrom(ps: seq<Pair>, j: nat, k: bytes) {
    j <= |ps| && forall i :: j <= i < |ps| ==> KeyCmp(ps[i].key, k) > 0
  }

  lemma {:induction false} AlignedTo(ps: seq<Pair>, m: nat, k: bytes)
    requires Sorted(ps) && m < |ps| && KeyCmp(ps[m].key, k) < 0
    ensures Aligned(ps, m + 1, k)
  {
    forall i | 0 <= i < m
      ensures KeyCmp(ps[i].key, k) < 0
    {
      KeyCmpTrans(ps[i].key, ps[m].key, k);
    }
  }

  lemma {:induction false} AboveTo(ps: seq<Pair>, m: nat, k: bytes)
    requires Sorted(ps) && m < |ps| && KeyCmp(ps[m].key, k) > 0
    ensures AboveFrom(ps, m, k)
  {
    forall i | m <= i < |ps|
      ensures KeyCmp(ps[i].key, k) > 0
    {
      KeyCmpAntisym(k, ps[m].key);
      if i > m { KeyCmpTrans(k, ps[m].key, ps[i].key); }
      KeyCmpAntisym(k, ps[i].key);
    }
  }

  /**
    hstoreFindKey.  The search may start at any bound below which all keys are
    smaller; it finds what a full search finds, and the bound it leaves is again
    good for every later key.
   */
  method FindKey(hs: Mem, lowbound: nat, key: bytes, ghost ps: seq<Pair>) returns (idx: int, lowbound': nat)
    requires CanonicalFor(hs, ps) && Aligned(ps, lowbound, key)
    ensures idx == IndexOf(ps, |ps|, key)
    ensures idx >= 0 ==> lowbound <= idx && lowbound' == idx + 1
    ensures idx < 0 ==> lowbound <= lowbound' && Aligned(ps, lowbound', key) && AboveFrom(ps, lowbound', key)
  {
    var stopHigh := ReadCount(hs, ps);
    var stopLow := lowbound;
    while stopLow < stopHigh
      invariant lowbound <= stopLow <= stopHigh <= |ps|
      invariant Aligned(ps, stopLow, key) && AboveFrom(ps, stopHigh, key)
    {
      var stopMiddle := stopLow + (stopHigh - stopLow) / 2;
      var p := ReadPair(hs, stopMiddle, ps);
      var difference := KeyCmp(p.key, key);
      if difference == 0 {
        IndexOfUnique(ps, stopMiddle);
        return stopMiddle, stopMiddle + 1;
      } else if difference < 0 {
        AlignedTo(ps, stopMiddle, key);
        stopLow := stopMiddle + 1;
      } else {
        AboveTo(ps, stopMiddle, key);
        stopHigh := stopMiddle;
      }
    }
    return -1, stopLow;
  }

  /** One call of a run over strictly increasing keys that shares the bound. */
  method FindNext(hs: Mem, low: nat, ks: seq<Pair>, i: nat, ghost ps: seq<Pair>) returns (idx: int, next: nat)
    requires CanonicalFor(hs, ps) && Sorted(ks) && i < |ks| && Advanced(ks, i, ps, low)
    ensures idx == IndexOf(ps, |ps|, ks[i].key) && Advanced(ks, i + 1, ps, next)
    ensures low <= next && (idx >= 0 ==> low <= idx && next == idx + 1)
  {
    idx, next := FindKey(hs, low, ks[i].key, ps);
    if i + 1 < |ks| {
      assert KeyCmp(ks[i].key, ks[i + 1].key) < 0;
      BoundHolds(ps, next, ks[i].key, ks[i + 1].key, idx);
    }
  }

  lemma {:induction false} BoundHolds(ps: seq<Pair>, low: nat, k: bytes, k': bytes, idx: int)
    requires Sorted(ps) && KeyCmp(k, k') < 0
    requires if idx >= 0 then idx < |ps| && ps[idx].key == k && low == idx + 1 else Aligned(ps, low, k)
    ensures Aligned(ps, low, k')
  {
    if idx >= 0 {
      AlignedTo(ps, idx, k');
    } else {
      forall i | 0 <= i < low
        ensures KeyCmp(ps[i].key, k') < 0
      {
        KeyCmpTrans(ps[i].key, k, k');
      }
    }
  }

  // ------------------------------------------------------------- single lookups

  /** hstore_fetchval; hstore_exists and hstore_defined use the same search. */
  method Fetch(hs: Mem, key: bytes) returns (present: bool, v: Value)
    requires Canonical(hs)
    ensures present <==> key in MapOf(hs)
    ensures v == if key in MapOf(hs) then MapOf(hs)[key] else Null
  {
    ghost var ps := PairsOf(hs);
    IndexOfMap(ps, key);
    var idx, _ := FindKey(hs, 0, key, ps);
    present, v := idx >= 0, Null;
    if idx >= 0 {
      var p := ReadPair(hs, idx, ps);
      v := p.val;
    }
  }

  // ------------------------------------------------------------------- key lists

  const MAX_PAIRS: nat := MAX_ALLOC / 40

  datatype Keys = TooMany | Keys(ks: seq<Pair>)

  lemma {:induction false} NullPairs(u: seq<Item>, s: seq<Item>, ks: seq<Pair>, k: bytes)
    requires UniqueOf(u, s, |s|) && ks == PairsIn(u)
    ensures k in ToMap(ks) <==> HasKey(s, |s|, k)
  {
    ToMapKeys(ks, |ks|, k);
    assert SameKeyIn(u, s, |s|, k);
    if k in ToMap(ks) {
      var i :| 0 <= i < |ks| && ks[i].key == k;
      assert u[i].pair.key == k;
    }
    if HasKey(u, |u|, k) {
      var i :| 0 <= i < |u| && u[i].pair.key == k;
      assert ks[i].key == k;
    }
  }

  /** The items made from the non-null elements of a text array. */
  function NonNull(keys: seq<Value>, n: nat): (s: seq<Item>)
    requires n <= |keys|
    ensures |s| <= n
  {
    if n == 0 then []
    else
      var r := NonNull(keys, n - 1);
      if keys[n - 1].Null? then r else r + [Item(Pair(keys[n - 1].text, Null), false)]
  }

  lemma {:induction false} NonNullKeys(keys: seq<Value>, n: nat, k: bytes)
    requires n <= |keys|
    ensures var s := NonNull(keys, n); HasKey(s, |s|, k) <==> Text(k) in keys[..n]
  {
    if n > 0 {
      NonNullKeys(keys, n - 1, k);
      assert keys[..n] == keys[..n - 1] + [keys[n - 1]];
      if !keys[n - 1].Null? {
        HasKeyAppend(NonNull(keys, n - 1), Item(Pair(keys[n - 1].text, Null), false), k);
      }
    }
  }

  method CollectKeys(keys: seq<Value>) returns (a: array<Item>)
    ensures fresh(a) && a[..] == NonNull(keys, |keys|)
  {
    var s: seq<Item> := [];
    for i := 0 to |keys|
      invariant s == NonNull(keys, i)
    {
      if !keys[i].Null? {
        s := s + [Item(Pair(keys[i].text, Null), false)];
      }
    }
    a := new Item[|s|](i requires 0 <= i < |s| => s[i]);
  }

  /** hstoreArrayToPairs: the non-null elements, sorted and without duplicates. */
  method ArrayToPairs(keys: seq<Value>) returns (r: Keys)
    ensures r.TooMany? <==> |keys| > MAX_PAIRS
    ensures r.Keys? ==> Sorted(r.ks) && forall k :: k in ToMap(r.ks) <==> Text(k) in keys
  {
    if |keys| > MAX_PAIRS {
      return TooMany;
    }
    var a := CollectKeys(keys);
    ghost var s := a[..];
    var n, _ := UniquePairs(a);
    var u := a[..n];
    var ks := PairsIn(u);
    SortedPairs(u);
    forall k
      ensures k in ToMap(ks) <==> Text(k) in keys
    {
      NullPairs(u, s, ks, k);
      NonNullKeys(keys, |keys|, k);
      assert keys[..|keys|] == keys;
    }
    return Keys(ks);
  }

  // ------------------------------------------------------------- runs of lookups

  /** hstore_presentany on a sorted key list. */
  method ExistsAnySorted(hs: Mem, ks: seq<Pair>) returns (res: bool)
    requires Canonical(hs) && Sorted(ks)
    ensures res <==> exists k :: k in ToMap(ks) && k in MapOf(hs)
  {
    ghost var ps := PairsOf(hs);
    var low, i := 0, 0;
    while i < |ks|
      invariant 0 <= i <= |ks| && Advanced(ks, i, ps, low)
      invariant forall j :: 0 <= j < i ==> ks[j].key !in MapOf(hs)
    {
      var idx;
      IndexOfMap(ps, ks[i].key);
      idx, low := FindNext(hs, low, ks, i, ps);
      if idx >= 0 {
        SortedLookup(ks, i);
        return true;
      }
      i := i + 1;
    }
    forall k | k in ToMap(ks)
      ensures k !in MapOf(hs)
    {
      ToMapKeys(ks, |ks|, k);
    }
    return false;
  }

  /** hstore_presentall on a sorted key list. */
  method ExistsAllSorted(hs: Mem, ks: seq<Pair>) returns (res: bool)
    requires Canonical(hs) && Sorted(ks)
    ensures res <==> forall k :: k in ToMap(ks) ==> k in MapOf(hs)
  {
    ghost var ps := PairsOf(hs);
    var low, i := 0, 0;
    while i < |ks|
      invariant 0 <= i <= |ks| && Advanced(ks, i, ps, low)
      invariant forall j :: 0 <= j < i ==> ks[j].key in MapOf(hs)
    {
      var idx;
      IndexOfMap(ps, ks[i].key);
      idx, low := FindNext(hs, low, ks, i, ps);
      if idx < 0 {
        SortedLookup(ks, i);
        return false;
      }
      i := i + 1;
    }
    forall k | k in ToMap(ks)
      ensures k in MapOf(hs)
    {
      ToMapKeys(ks, |ks|, k);
    }
    return true;
  }

  /** m has every association of t. */
  ghost predicate Includes(m: Map, t: Map) {
    forall k :: k in t ==> k in m && m[k] == t[k]
  }

  /** hstore_contains: every pair of the template, nulls compared as equal. */
  method Contains(val: Mem, tmpl: Mem) returns (res: bool)
    requires Canonical(val) && Canonical(tmpl)
    ensures res <==> Includes(MapOf(val), MapOf(tmpl))
  {
    res := ContainsLoop(val, tmpl, PairsOf(val), PairsOf(tmpl));
  }

  method ContainsLoop(val: Mem, tmpl: Mem, ghost vs: seq<Pair>, ghost ts: seq<Pair>) returns (res: bool)
    requires CanonicalFor(val, vs) && CanonicalFor(tmpl, ts)
    ensures res <==> Includes(ToMap(vs), ToMap(ts))
  {
    var tcount := ReadCount(tmpl, ts);
    var lastidx, i := 0, 0;
    res := true;
    while res && i < tcount
      invariant 0 <= i <= tcount && Advanced(ts, i, vs, lastidx)
      invariant res ==> forall j :: 0 <= j < i ==> Holds(ToMap(vs), ts[j])
      invariant !res ==> exists j :: 0 <= j < |ts| && !Holds(ToMap(vs), ts[j])
    {
      res, lastidx := HoldsNext(val, tmpl, i, lastidx, vs, ts);
      i := i + 1;
    }
    HoldsAll(ToMap(vs), ts);
  }

  /** The association p is in m. */
  predicate Holds(m: Map, p: Pair) { p.key in m && m[p.key] == p.val }

  lemma {:induction false} HoldsAll(m: Map, ts: seq<Pair>)
    requires Sorted(ts)
    ensures Includes(m, ToMap(ts)) <==> forall j :: 0 <= j < |ts| ==> Holds(m, ts[j])
  {
    forall j | 0 <= j < |ts|
      ensures ts[j].key in ToMap(ts) && ToMap(ts)[ts[j].key] == ts[j].val
    {
      SortedLookup(ts, j);
    }
    forall k | k in ToMap(ts)
      ensures exists j :: 0 <= j < |ts| && ts[j].key == k
    {
      ToMapKeys(ts, |ts|, k);
    }
  }

  method HoldsNext(val: Mem, tmpl: Mem, i: nat, lastidx: nat, ghost vs: seq<Pair>, ghost ts: seq<Pair>)
    returns (res: bool, lastidx': nat)
    requires CanonicalFor(val, vs) && CanonicalFor(tmpl, ts) && i < |ts| && Advanced(ts, i, vs, lastidx)
    ensures res <==> Holds(ToMap(vs), ts[i])
    ensures Advanced(ts, i + 1, vs, lastidx')
  {
    var t := ReadPair(tmpl, i, ts);
    IndexOfMap(vs, t.key);
    var idx;
    idx, lastidx' := FindKey(val, lastidx, t.key, vs);
    if i + 1 < |ts| {
      assert KeyCmp(ts[i].key, ts[i + 1].key) < 0;
      BoundHolds(vs, lastidx', t.key, ts[i + 1].key, idx);
    }
    res := false;
    if idx >= 0 {
      var v := ReadPair(val, idx, vs);
      res := !(t.val.Null? != v.val.Null? || (!t.val.Null? && t.val.text != v.val.text));
    }
  }

  // -------------------------------------------------------------------- slicing

  /** The pairs of hs (as map m) whose keys are among the first n of ks. */
  function Sliced(m: Map, ks: seq<Pair>, n: nat): seq<Pair>
    requires n <= |ks|
  {
    if n == 0 then []
    else
      var r := Sliced(m, ks, n - 1);
      if ks[n - 1].key in m then r + [Pair(ks[n - 1].key, m[ks[n - 1].key])] else r
  }

  lemma {:induction false} SlicedBelow(m: Map, ks: seq<Pair>, n: nat, k: bytes)
    requires n <= |ks| && forall i :: 0 <= i < n ==> KeyCmp(ks[i].key, k) < 0
    ensures Below(Sliced(m, ks, n), k)
  {
    if n > 0 { SlicedBelow(m, ks, n - 1, k); }
  }

  lemma {:induction false} SlicedSorted(m: Map, ks: seq<Pair>, n: nat)
    requires Sorted(ks) && n <= |ks|
    ensures Sorted(Sliced(m, ks, n))
  {
    if n > 0 {
      SlicedSorted(m, ks, n - 1);
      SlicedBelow(m, ks, n - 1, ks[n - 1].key);
    }
  }

  lemma {:induction false} SlicedLookup(m: Map, ks: seq<Pair>, n: nat, k: bytes)
    requires n <= |ks|
    ensures var s := ToMap(Sliced(m, ks, n));
            (k in s <==> k in m && k in ToMapTo(ks, n)) && (k in s ==> s[k] == m[k])
  {
    if n > 0 {
      SlicedLookup(m, ks, n - 1, k);
      var p := ks[n - 1];
      if p.key in m { ToMapAppend(Sliced(m, ks, n - 1), Pair(p.key, m[p.key])); }
    }
  }

  /** m cut down to the keys of n. */
  ghost function Restrict(m: Map, n: Map): Map {
    map k | k in m && k in n :: m[k]
  }

  lemma {:induction false} SlicedMap(m: Map, ks: seq<Pair>)
    ensures ToMap(Sliced(m, ks, |ks|)) == Restrict(m, ToMap(ks))
  {
    var s := ToMap(Sliced(m, ks, |ks|));
    forall k
      ensures (k in s <==> k in m && k in ToMap(ks)) && (k in s ==> s[k] == m[k])
    {
      SlicedLookup(m, ks, |ks|, k);
    }
  }

  /** What the slice loop has collected lies in the first `low` pairs of hs. */
  predicate Collected(out: seq<Pair>, bufsiz: nat, ps: seq<Pair>, low: nat) {
    low <= |ps| && |out| <= low && bufsiz == |Strs(out)| <= PairStart(ps, low)
  }

  lemma {:induction false} CollectNext(out: seq<Pair>, bufsiz: nat, ps: seq<Pair>, low: nat, idx: nat, p: Pair)
    requires Collected(out, bufsiz, ps, low) && low <= idx < |ps| && p == ps[idx]
    ensures Collected(out + [p], bufsiz + |p.key| + |ValBytes(p)|, ps, idx + 1)
  {
    StrsPrefix(ps, low, idx);
    PairSize(ps, idx);
    StrsAppend(out, p);
  }

  method SliceNext(hs: Mem, low: nat, ks: seq<Pair>, i: nat, out: seq<Pair>, bufsiz: nat, ghost ps: seq<Pair>)
    returns (out': seq<Pair>, bufsiz': nat, low': nat)
    requires CanonicalFor(hs, ps) && Sorted(ks) && i < |ks| && Advanced(ks, i, ps, low)
    requires Collected(out, bufsiz, ps, low) && out == Sliced(ToMap(ps), ks, i)
    ensures Advanced(ks, i + 1, ps, low') && Collected(out', bufsiz', ps, low')
    ensures out' == Sliced(ToMap(ps), ks, i + 1)
  {
    IndexOfMap(ps, ks[i].key);
    var idx;
    idx, low' := FindNext(hs, low, ks, i, ps);
    out', bufsiz' := out, bufsiz;
    if idx >= 0 {
      var p := ReadPair(hs, idx, ps);
      CollectNext(out, bufsiz, ps, low, idx, p);
      out' := out + [p];
      bufsiz' := bufsiz + |p.key| + |ValBytes(p)|;
    } else {
      StrsPrefix(ps, low, low');
    }
  }

  lemma {:induction false} SliceFits(out: seq<Pair>, bufsiz: nat, ps: seq<Pair>, low: nat)
    requires Collected(out, bufsiz, ps, low) && Fits(ps)
    ensures Fits(out)
  {
    StrsPrefix(ps, low, |ps|);
  }

  /** hstore_slice_to_hstore once the keys are sorted; the result always fits. */
  method SliceSorted(hs: Mem, ks: seq<Pair>) returns (r: Mem)
    requires Canonical(hs) && Sorted(ks)
    ensures Canonical(r) && MapOf(r) == Restrict(MapOf(hs), ToMap(ks))
  {
    ghost var ps := PairsOf(hs);
    var out, bufsiz, low, i := [], 0, 0, 0;
    while i < |ks|
      invariant 0 <= i <= |ks| && Advanced(ks, i, ps, low)
      invariant Collected(out, bufsiz, ps, low) && out == Sliced(ToMap(ps), ks, i)
    {
      out, bufsiz, low := SliceNext(hs, low, ks, i, out, bufsiz, ps);
      i := i + 1;
    }
    SliceFits(out, bufsiz, ps, low);
    SlicedSorted(ToMap(ps), ks, i);
    SlicedMap(ToMap(ps), ks);
    var packed := Pack(out, bufsiz);
    r := packed.hs;
  }

  // ---------------------------------------------------------- queries by array

  datatype Outcome<T> = TooManyKeys | Done(v: T)

  /** hstore_exists_any */
  method ExistsAny(hs: Mem, keys: seq<Value>) returns (r: Outcome<bool>)
    requires Canonical(hs)
    ensures r.TooManyKeys? <==> |keys| > MAX_PAIRS
    ensures r.Done? ==> (r.v <==> exists k :: Text(k) in keys && k in MapOf(hs))
  {
    var ks := ArrayToPairs(keys);
    if ks.TooMany? {
      return TooManyKeys;
    }
    var res := ExistsAnySorted(hs, ks.ks);
    return Done(res);
  }

  /** hstore_exists_all: null elements are ignored. */
  method ExistsAll(hs: Mem, keys: seq<Value>) returns (r: Outcome<bool>)
    requires Canonical(hs)
    ensures r.TooManyKeys? <==> |keys| > MAX_PAIRS
    ensures r.Done? ==> (r.v <==> forall k :: Text(k) in keys ==> k in MapOf(hs))
  {
    var ks := ArrayToPairs(keys);
    if ks.TooMany? {
      return TooManyKeys;
    }
    var res := ExistsAllSorted(hs, ks.ks);
    return Done(res);
  }

  /** hstore_slice_to_hstore */
  method Slice(hs: Mem, keys: seq<Value>) returns (r: Outcome<Mem>)
    requires Canonical(hs)
    ensures r.TooManyKeys? <==> |keys| > MAX_PAIRS
    ensures r.Done? ==> Canonical(r.v) && MapOf(r.v) == map k | k in MapOf(hs) && Text(k) in keys :: MapOf(hs)[k]
  {
    var ks := ArrayToPairs(keys);
    if ks.TooMany? {
      return TooManyKeys;
    }
    var out := SliceSorted(hs, ks.ks);
    return Done(out);
  }

  /** hstore_delete_array */
  method DeleteArray(hs: Mem, keys: seq<Value>) returns (r: Outcome<Mem>)
    requires Canonical(hs)
    ensures r.TooManyKeys? <==> |keys| > MAX_PAIRS
    ensures r.Done? ==> Canonical(r.v) && MapOf(r.v) == map k | k in MapOf(hs) && Text(k) !in keys :: MapOf(hs)[k]
  {
    var ks := ArrayToPairs(keys);
    if ks.TooMany? {
      return TooManyKeys;
    }
    var out := DeleteKeys(hs, ks.ks);
    return Done(out);
  }
}
