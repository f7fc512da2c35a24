/**
  The set operations of hstore.  Each one merges sorted packed values into a new
  buffer; its contract says which map the result stands for, and that the result
  is canonical again.  A result that cannot be allocated is an error.
 */
module HstoreOps {
  import opened Bytes
  import opened HstoreLayout
  import opened HstoreOrder
  import opened HstoreBuilder

  datatype Result = Ok(hs: Mem) | TooLarge

  method ReadCount(hs: Mem, ghost ps: seq<Pair>) returns (n: nat)
    requires Packed(hs, ps)
    ensures n == |ps|
  {
    PackedCount(hs, ps);
    n := Count(hs);
  }

  /** Reads key and value of pair i. */
  method ReadPair(hs: Mem, i: nat, ghost ps: seq<Pair>) returns (p: Pair)
    requires Packed(hs, ps) && i < |ps|
    ensures p == ps[i]
  {
    PackedReads(hs, ps, i);
    p := PairAt(hs, i);
  }

  /** Copies pair i of hs, whose key and value are contiguous, into the buffer. */
  method CopyPair(b: Builder, hs: Mem, i: nat, ghost ps: seq<Pair>)
    requires Packed(hs, ps) && i < |ps|
    requires b.Valid() && b.n < b.cap && b.Base() + b.pos + |ps[i].key| + |ValBytes(ps[i])| <= b.mem.Length
    modifies b, b.mem
    ensures b.Valid() && b.items == old(b.items) + [ps[i]]
    ensures b.n == old(b.n) + 1 && b.pos == old(b.pos) + |ps[i].key| + |ValBytes(ps[i])|
  {
    PackedReads(hs, ps, i);
    b.CopyItem(Key(hs, i) + Val(hs, i), |Key(hs, i)|, ValIsNull(hs, i), ps[i]);
  }

  // ----------------------------------------------------------------- deletion

  /** The pairs of ps that are not dropped, in order. */
  function Filtered(ps: seq<Pair>, n: nat, drop: Pair -> bool): seq<Pair>
    requires n <= |ps|
  {
    if n == 0 then []
    else
      var r := Filtered(ps, n - 1, drop);
      if drop(ps[n - 1]) then r else r + [ps[n - 1]]
  }

  lemma {:induction false} FilteredBelow(ps: seq<Pair>, n: nat, drop: Pair -> bool, k: bytes)
    requires n <= |ps| && forall i :: 0 <= i < n ==> KeyCmp(ps[i].key, k) < 0
    ensures Below(Filtered(ps, n, drop), k)
  {
    if n > 0 { FilteredBelow(ps, n - 1, drop, k); }
  }

  lemma {:induction false} FilteredSorted(ps: seq<Pair>, n: nat, drop: Pair -> bool)
    requires Sorted(ps) && n <= |ps|
    ensures Sorted(Filtered(ps, n, drop))
  {
    if n > 0 {
      FilteredSorted(ps, n - 1, drop);
      FilteredBelow(ps, n - 1, drop, ps[n - 1].key);
    }
  }

  /** Filtering removes exactly the dropped associations. */
  lemma {:induction false} FilteredLookup(ps: seq<Pair>, n: nat, drop: Pair -> bool, k: bytes)
    requires Sorted(ps) && n <= |ps|
    ensures var f, m := ToMap(Filtered(ps, n, drop)), ToMapTo(ps, n);
            && (k in f <==> k in m && !drop(Pair(k, m[k])))
            && (k in f ==> f[k] == m[k])
  {
    if n > 0 {
      var r, p := Filtered(ps, n - 1, drop), ps[n - 1];
      FilteredLookup(ps, n - 1, drop, k);
      SortedAbsentBefore(ps, n - 1);
      ToMapAppend(r, p);
    }
  }

  /** The map that remains of m. */
  ghost function Without(m: Map, drop: Pair -> bool): Map {
    map k | k in m && !drop(Pair(k, m[k])) :: m[k]
  }

  lemma {:induction false} WithoutKey(m: Map, key: bytes)
    ensures Without(m, KeyIs(key)) == m - {key}
  {
  }

  lemma {:induction false} WithoutKeys(m: Map, n: Map)
    ensures Without(m, KeyIn(n)) == m - n.Keys
  {
  }

  lemma {:induction false} WithoutNone(m: Map)
    ensures Without(m, PairIn(map[])) == m
  {
  }

  lemma {:induction false} FilteredMap(ps: seq<Pair>, drop: Pair -> bool)
    requires Sorted(ps)
    ensures Sorted(Filtered(ps, |ps|, drop))
    ensures ToMap(Filtered(ps, |ps|, drop)) == Without(ToMap(ps), drop)
  {
    FilteredSorted(ps, |ps|, drop);
    var f, m := ToMap(Filtered(ps, |ps|, drop)), ToMap(ps);
    forall k
      ensures (k in f <==> k in m && !drop(Pair(k, m[k]))) && (k in f ==> f[k] == m[k])
    {
      FilteredLookup(ps, |ps|, drop, k);
    }
  }

  /** Room for the next pair in a buffer as large as the source value. */
  lemma {:induction false} RoomInCopy(ps: seq<Pair>, i: nat, pos: nat)
    requires i < |ps| && pos <= PairStart(ps, i)
    ensures pos + |ps[i].key| + |ValBytes(ps[i])| <= PairStart(ps, i + 1) <= |Strs(ps)|
  {
    PairSize(ps, i);
  }

  function KeyIs(key: bytes): Pair -> bool { (p: Pair) => p.key == key }
  function KeyIn(m: Map): Pair -> bool { (p: Pair) => p.key in m }
  function PairIn(m: Map): Pair -> bool { (p: Pair) => p.key in m && m[p.key] == p.val }

  /** The buffer holds the kept ones of the first i pairs of ps. */
  ghost predicate Filtering(b: Builder, ps: seq<Pair>, i: nat, drop: Pair -> bool)
    reads b, b.mem
  {
    && i <= |ps| && b.Valid() && b.cap == |ps| && b.mem.Length == DataSize(ps)
    && b.n <= i && b.pos <= PairStart(ps, i)
    && b.items == Filtered(ps, i, drop)
  }

  /** A buffer as large as the source value, laid out for as many pairs. */
  method FilterStart(hs: Mem, ghost ps: seq<Pair>, ghost drop: Pair -> bool) returns (b: Builder, count: nat)
    requires Packed(hs, ps)
    ensures fresh(b) && fresh(b.mem) && Filtering(b, ps, 0, drop) && count == |ps|
  {
    count := ReadCount(hs, ps);
    b := new Builder(|hs|, count);
  }

  /** Deals with pair i: it is copied unless it is to be dropped. */
  method FilterStep(b: Builder, hs: Mem, i: nat, keep: bool, ghost ps: seq<Pair>, ghost drop: Pair -> bool)
    requires Packed(hs, ps) && i < |ps| && Filtering(b, ps, i, drop) && keep == !drop(ps[i])
    modifies b, b.mem
    ensures Filtering(b, ps, i + 1, drop)
  {
    RoomInCopy(ps, i, b.pos);
    if keep {
      CopyPair(b, hs, i, ps);
    }
  }

  /** The same, unless the merge moves on without dealing with pair i. */
  method FilterTo(b: Builder, hs: Mem, i: nat, i': nat, keep: bool, ghost ps: seq<Pair>, ghost drop: Pair -> bool)
    requires Packed(hs, ps) && i < |ps| && i <= i' <= i + 1 && Filtering(b, ps, i, drop)
    requires i' > i ==> keep == !drop(ps[i])
    modifies b, b.mem
    ensures Filtering(b, ps, i', drop)
  {
    if i' > i {
      FilterStep(b, hs, i, keep, ps, drop);
    }
  }

  /** Closes the buffer: the result is canonical for the remaining map. */
  method FilterEnd(b: Builder, hs: Mem, ghost ps: seq<Pair>, ghost drop: Pair -> bool) returns (out: Mem)
    requires CanonicalFor(hs, ps) && Filtering(b, ps, |ps|, drop)
    modifies b, b.mem
    ensures Canonical(out) && Canonical(hs) && MapOf(out) == Without(MapOf(hs), drop)
  {
    out := b.Finalize();
    FilteredMap(ps, drop);
    PairsOfUnique(out, b.items);
    PairsOfUnique(hs, ps);
  }

  /** Pair i is kept unless its key is the given one. */
  method DeleteStep(b: Builder, hs: Mem, i: nat, key: bytes, ghost ps: seq<Pair>, ghost drop: Pair -> bool)
    requires Packed(hs, ps) && i < |ps| && drop == KeyIs(key) && Filtering(b, ps, i, drop)
    modifies b, b.mem
    ensures Filtering(b, ps, i + 1, drop)
  {
    var p := ReadPair(hs, i, ps);
    FilterStep(b, hs, i, p.key != key, ps, drop);
  }

  method DeleteLoop(hs: Mem, key: bytes, ghost ps: seq<Pair>) returns (out: Mem)
    requires CanonicalFor(hs, ps)
    ensures Canonical(out) && Canonical(hs) && MapOf(out) == Without(MapOf(hs), KeyIs(key))
  {
    ghost var drop := KeyIs(key);
    var b, count := FilterStart(hs, ps, drop);
    var i := 0;
    while i < count
      invariant fresh(b) && fresh(b.mem) && i <= count && Filtering(b, ps, i, drop)
    {
      DeleteStep(b, hs, i, key, ps, drop);
      i := i + 1;
    }
    out := FilterEnd(b, hs, ps, drop);
  }

  /** hstore_delete: by one key. */
  method Delete(hs: Mem, key: bytes) returns (out: Mem)
    requires Canonical(hs)
    ensures Canonical(out) && MapOf(out) == MapOf(hs) - {key}
  {
    out := DeleteLoop(hs, key, PairsOf(hs));
    WithoutKey(MapOf(hs), key);
  }

  /** Position j of a merge against sorted ks is exact for key k. */
  predicate Aligned(ks: seq<Pair>, j: nat, k: bytes) {
    j <= |ks| && forall i :: 0 <= i < j ==> KeyCmp(ks[i].key, k) < 0
  }

  lemma {:induction false} AlignedAbsent(ks: seq<Pair>, j: nat, k: bytes)
    requires Sorted(ks) && Aligned(ks, j, k) && (j < |ks| ==> KeyCmp(k, ks[j].key) < 0)
    ensures k !in ToMap(ks)
  {
    ToMapKeys(ks, |ks|, k);
    if k in ToMap(ks) {
      var i :| 0 <= i < |ks| && ks[i].key == k;
      if i > j { KeyCmpTrans(k, ks[j].key, ks[i].key); }
    }
  }

  lemma {:induction false} AlignedNext(ps: seq<Pair>, i: nat, ks: seq<Pair>, j: nat)
    requires Sorted(ps) && i < |ps| && Aligned(ks, j, ps[i].key)
    ensures i + 1 < |ps| ==> Aligned(ks, j, ps[i + 1].key)
    ensures j < |ks| && i + 1 < |ps| && KeyCmp(ks[j].key, ps[i].key) <= 0 ==> Aligned(ks, j + 1, ps[i + 1].key)
  {
    if i + 1 < |ps| {
      assert KeyCmp(ps[i].key, ps[i + 1].key) < 0;
      forall m | 0 <= m < j
        ensures KeyCmp(ks[m].key, ps[i + 1].key) < 0
      {
        KeyCmpTrans(ks[m].key, ps[i].key, ps[i + 1].key);
      }
      if j < |ks| && KeyCmp(ks[j].key, ps[i].key) < 0 {
        KeyCmpTrans(ks[j].key, ps[i].key, ps[i + 1].key);
      }
    }
  }

  /** What the comparison at position j says about key k. */
  lemma {:induction false} MergeDecides(ks: seq<Pair>, j: nat, k: bytes, diff: int)
    requires Sorted(ks) && Aligned(ks, j, k)
    requires diff == if j >= |ks| then -1 else KeyCmp(k, ks[j].key)
    ensures diff < 0 ==> k !in ToMap(ks)
    ensures diff == 0 ==> ks[j].key == k && k in ToMap(ks) && ToMap(ks)[k] == ks[j].val
    ensures diff >= 0 ==> KeyCmp(ks[j].key, k) <= 0
    ensures diff > 0 ==> Aligned(ks, j + 1, k)
  {
    if diff < 0 { AlignedAbsent(ks, j, k); }
    if j < |ks| {
      KeyCmpAntisym(k, ks[j].key);
      KeyCmpAntisym(ks[j].key, k);
      if diff == 0 { SortedLookup(ks, j); }
    }
  }

  /** The next position of the merge after pair i of ps has been dealt with. */
  predicate Advanced(ps: seq<Pair>, i: nat, ks: seq<Pair>, j: nat) {
    j <= |ks| && (i < |ps| ==> Aligned(ks, j, ps[i].key))
  }

  /** One comparison of hstore_delete_array: move on in ks, drop pair i, or keep it. */
  method CompareKey(hs: Mem, i: nat, ks: seq<Pair>, j: nat, ghost ps: seq<Pair>) returns (i': nat, j': nat, keep: bool)
    requires CanonicalFor(hs, ps) && Sorted(ks) && i < |ps| && Advanced(ps, i, ks, j)
    ensures Advanced(ps, i', ks, j') && i <= i' <= i + 1 && j <= j' && i' + j' > i + j
    ensures i' > i ==> keep == !KeyIn(ToMap(ks))(ps[i])
  {
    AlignedNext(ps, i, ks, j);
    var p := ReadPair(hs, i, ps);
    var diff := if j >= |ks| then -1 else KeyCmp(p.key, ks[j].key);
    MergeDecides(ks, j, p.key, diff);
    keep := diff < 0;
    i' := if diff <= 0 then i + 1 else i;
    j' := if diff >= 0 then j + 1 else j;
  }

  /** One round of hstore_delete_array. */
  method DeleteKeysStep(b: Builder, hs: Mem, i: nat, ks: seq<Pair>, j: nat, ghost ps: seq<Pair>, ghost drop: Pair -> bool)
    returns (i': nat, j': nat)
    requires CanonicalFor(hs, ps) && Sorted(ks) && i < |ps| && drop == KeyIn(ToMap(ks))
    requires Filtering(b, ps, i, drop) && Advanced(ps, i, ks, j)
    modifies b, b.mem
    ensures Filtering(b, ps, i', drop) && Advanced(ps, i', ks, j') && i <= i' && i' + j' > i + j
  {
    var keep;
    i', j', keep := CompareKey(hs, i, ks, j, ps);
    FilterTo(b, hs, i, i', keep, ps, drop);
  }

  method DeleteKeysLoop(hs: Mem, ks: seq<Pair>, ghost ps: seq<Pair>) returns (out: Mem)
    requires CanonicalFor(hs, ps) && Sorted(ks)
    ensures Canonical(out) && Canonical(hs) && MapOf(out) == Without(MapOf(hs), KeyIn(ToMap(ks)))
  {
    ghost var drop := KeyIn(ToMap(ks));
    var b, count := FilterStart(hs, ps, drop);
    var i, j := 0, 0;
    while i < count
      invariant fresh(b) && fresh(b.mem) && Filtering(b, ps, i, drop) && Advanced(ps, i, ks, j)
      decreases count - i + |ks| - j
    {
      i, j := DeleteKeysStep(b, hs, i, ks, j, ps, drop);
    }
    out := FilterEnd(b, hs, ps, drop);
  }

  /** hstore_delete_array, given the key list in strictly increasing order. */
  method DeleteKeys(hs: Mem, ks: seq<Pair>) returns (out: Mem)
    requires Canonical(hs) && Sorted(ks)
    ensures Canonical(out) && MapOf(out) == MapOf(hs) - ToMap(ks).Keys
  {
    if |ks| == 0 {
      assert MapOf(hs) - {} == MapOf(hs);
      return hs;
    }
    out := DeleteKeysLoop(hs, ks, PairsOf(hs));
    WithoutKeys(MapOf(hs), ToMap(ks));
  }

  /** One comparison of hstore_delete_hstore; values are compared null-aware. */
  method ComparePair(hs: Mem, i: nat, hs2: Mem, j: nat, count2: nat, ghost ps: seq<Pair>, ghost qs: seq<Pair>)
    returns (i': nat, j': nat, keep: bool)
    requires CanonicalFor(hs, ps) && CanonicalFor(hs2, qs) && i < |ps| && count2 == |qs| && Advanced(ps, i, qs, j)
    ensures Advanced(ps, i', qs, j') && i <= i' <= i + 1 && j <= j' && i' + j' > i + j
    ensures i' > i ==> keep == !PairIn(ToMap(qs))(ps[i])
  {
    AlignedNext(ps, i, qs, j);
    var p := ReadPair(hs, i, ps);
    var q := p;
    var diff := -1;
    if j < count2 {
      q := ReadPair(hs2, j, qs);
      diff := KeyCmp(p.key, q.key);
    }
    MergeDecides(qs, j, p.key, diff);
    keep := diff < 0 || p.val.Null? != q.val.Null? || (!p.val.Null? && p.val.text != q.val.text);
    i' := if diff <= 0 then i + 1 else i;
    j' := if diff >= 0 then j + 1 else j;
  }

  /** One round of hstore_delete_hstore. */
  method DeletePairsStep(b: Builder, hs: Mem, i: nat, hs2: Mem, j: nat, count2: nat, ghost ps: seq<Pair>, ghost qs: seq<Pair>,
                         ghost drop: Pair -> bool)
    returns (i': nat, j': nat)
    requires CanonicalFor(hs, ps) && CanonicalFor(hs2, qs) && count2 == |qs| && i < |ps| && drop == PairIn(ToMap(qs))
    requires Filtering(b, ps, i, drop) && Advanced(ps, i, qs, j)
    modifies b, b.mem
    ensures Filtering(b, ps, i', drop) && Advanced(ps, i', qs, j') && i <= i' && i' + j' > i + j
  {
    var keep;
    i', j', keep := ComparePair(hs, i, hs2, j, count2, ps, qs);
    FilterTo(b, hs, i, i', keep, ps, drop);
  }

  method DeletePairsLoop(hs: Mem, hs2: Mem, count2: nat, ghost ps: seq<Pair>, ghost qs: seq<Pair>) returns (out: Mem)
    requires CanonicalFor(hs, ps) && CanonicalFor(hs2, qs) && count2 == |qs|
    ensures Canonical(out) && Canonical(hs) && MapOf(out) == Without(MapOf(hs), PairIn(ToMap(qs)))
  {
    ghost var drop := PairIn(ToMap(qs));
    var b, count := FilterStart(hs, ps, drop);
    var i, j := 0, 0;
    while i < count
      invariant fresh(b) && fresh(b.mem) && Filtering(b, ps, i, drop) && Advanced(ps, i, qs, j)
      decreases count - i + count2 - j
    {
      i, j := DeletePairsStep(b, hs, i, hs2, j, count2, ps, qs, drop);
    }
    out := FilterEnd(b, hs, ps, drop);
  }

  /** hstore_delete_hstore: a pair goes only if both key and value (or null) agree. */
  method DeletePairs(hs: Mem, hs2: Mem) returns (out: Mem)
    requires Canonical(hs) && Canonical(hs2)
    ensures Canonical(out) && MapOf(out) == Without(MapOf(hs), PairIn(MapOf(hs2)))
  {
    var count2 := ReadCount(hs2, PairsOf(hs2));
    if count2 == 0 {
      WithoutNone(MapOf(hs));
      return hs;
    }
    out := DeletePairsLoop(hs, hs2, count2, PairsOf(hs), PairsOf(hs2));
  }

  // ------------------------------------------------------------------ merging

  lemma {:induction false} AddRight(m: Map, n: Map, k: bytes, v: Value)
    ensures m + n[k := v] == (m + n)[k := v]
  {
  }

  lemma {:induction false} AddBoth(m: Map, n: Map, k: bytes, u: Value, v: Value)
    ensures m[k := u] + n[k := v] == (m + n)[k := v]
  {
  }

  lemma {:induction false} AddLeft(m: Map, n: Map, k: bytes, v: Value)
    requires k !in n
    ensures m[k := v] + n == (m + n)[k := v]
  {
  }

  /** out merges the first i pairs of a with the first j pairs of b; b wins. */
  predicate Merged(a: seq<Pair>, b: seq<Pair>, i: nat, j: nat, out: seq<Pair>) {
    && i <= |a| && j <= |b|
    && Sorted(out)
    && ToMap(out) == ToMapTo(a, i) + ToMapTo(b, j)
    && (i < |a| ==> Below(out, a[i].key))
    && (j < |b| ==> Below(out, b[j].key))
  }

  lemma {:induction false} BelowNext(ps: seq<Pair>, i: nat, out: seq<Pair>)
    requires Sorted(ps) && i < |ps| && Below(out, ps[i].key)
    ensures i + 1 < |ps| ==> Below(out + [ps[i]], ps[i + 1].key)
  {
    if i + 1 < |ps| { BelowTrans(out, ps[i].key, ps[i + 1].key); }
  }

  lemma {:induction false} TakeRight(a: seq<Pair>, b: seq<Pair>, i: nat, j: nat, out: seq<Pair>)
    requires Sorted(b) && j < |b| && Merged(a, b, i, j, out)
    requires i < |a| ==> KeyCmp(a[i].key, b[j].key) > 0
    ensures Merged(a, b, i, j + 1, out + [b[j]])
  {
    BelowNext(b, j, out);
    ToMapAppend(out, b[j]);
    AddRight(ToMapTo(a, i), ToMapTo(b, j), b[j].key, b[j].val);
    if i < |a| { KeyCmpAntisym(b[j].key, a[i].key); }
  }

  lemma {:induction false} TakeBoth(a: seq<Pair>, b: seq<Pair>, i: nat, j: nat, out: seq<Pair>)
    requires Sorted(a) && Sorted(b) && i < |a| && j < |b| && Merged(a, b, i, j, out)
    requires a[i].key == b[j].key
    ensures Merged(a, b, i + 1, j + 1, out + [b[j]])
  {
    if i + 1 < |a| { BelowTrans(out, a[i].key, a[i + 1].key); }
    BelowNext(b, j, out);
    ToMapAppend(out, b[j]);
    AddBoth(ToMapTo(a, i), ToMapTo(b, j), b[j].key, a[i].val, b[j].val);
  }

  lemma {:induction false} TakeLeft(a: seq<Pair>, b: seq<Pair>, i: nat, j: nat, out: seq<Pair>)
    requires Sorted(a) && i < |a| && Merged(a, b, i, j, out)
    requires j < |b| ==> KeyCmp(a[i].key, b[j].key) < 0
    ensures Merged(a, b, i + 1, j, out + [a[i]])
  {
    BelowNext(a, i, out);
    ToMapAppend(out, a[i]);
    BelowAbsent(out, a[i].key);
    AddLeft(ToMapTo(a, i), ToMapTo(b, j), a[i].key, a[i].val);
  }

  /** The buffer holds the merge so far, and there is room for the rest. */
  ghost predicate Merging(d: Builder, a: seq<Pair>, b: seq<Pair>, i: nat, j: nat)
    reads d, d.mem
  {
    HasRoom(d, a, b, i, j) && Merged(a, b, i, j, d.items)
  }

  /** Which side the merge takes next: the sign of the key comparison. */
  function Side(a: seq<Pair>, b: seq<Pair>, i: nat, j: nat): int
    requires i <= |a| && j <= |b|
  {
    if i >= |a| then 1 else if j >= |b| then -1 else KeyCmp(a[i].key, b[j].key)
  }

  /** The pair the merge takes next. */
  function Taken(a: seq<Pair>, b: seq<Pair>, i: nat, j: nat, diff: int): Pair
    requires if diff < 0 then i < |a| else j < |b|
  {
    if diff < 0 then a[i] else b[j]
  }

  /** Taking a pair moves past it on its side, and past an equal key on the left. */
  function NextLeft(i: nat, diff: int): nat { if diff <= 0 then i + 1 else i }
  function NextRight(j: nat, diff: int): nat { if diff >= 0 then j + 1 else j }

  lemma {:induction false} MergeNext(a: seq<Pair>, b: seq<Pair>, i: nat, j: nat, diff: int, out: seq<Pair>)
    requires Sorted(a) && Sorted(b) && Merged(a, b, i, j, out) && (i < |a| || j < |b|)
    requires diff == Side(a, b, i, j)
    ensures if diff < 0 then i < |a| else j < |b|
    ensures Merged(a, b, NextLeft(i, diff), NextRight(j, diff), out + [Taken(a, b, i, j, diff)])
  {
    if diff == 0 {
      TakeBoth(a, b, i, j, out);
    } else if diff > 0 {
      TakeRight(a, b, i, j, out);
    } else {
      TakeLeft(a, b, i, j, out);
    }
  }

  /** There is room for the pair that is taken. */
  lemma {:induction false} RoomInMerge(a: seq<Pair>, b: seq<Pair>, i: nat, j: nat, diff: int)
    requires i <= |a| && j <= |b| && (i < |a| || j < |b|) && diff == Side(a, b, i, j)
    ensures var p, i', j' := Taken(a, b, i, j, diff), NextLeft(i, diff), NextRight(j, diff);
      && i' <= |a| && j' <= |b|
      && PairStart(a, i) + PairStart(b, j) + |p.key| + |ValBytes(p)| <= PairStart(a, i') + PairStart(b, j')
      && PairStart(a, i') + PairStart(b, j') <= |Strs(a)| + |Strs(b)|
  {
    StrsPrefix(a, i, |a|);
    StrsPrefix(b, j, |b|);
    if i < |a| { PairSize(a, i); }
    if j < |b| { PairSize(b, j); }
  }

  /** Everything about the buffer of a merge except which pairs it holds. */
  ghost predicate HasRoom(d: Builder, a: seq<Pair>, b: seq<Pair>, i: nat, j: nat)
    reads d, d.mem
  {
    && i <= |a| && j <= |b| && d.Valid()
    && d.cap == |a| + |b| && d.mem.Length >= d.Base() + |Strs(a)| + |Strs(b)|
    && d.n <= i + j && d.pos <= PairStart(a, i) + PairStart(b, j)
  }

  /** One round of the merge: the pair comes from either value. */
  method MergeStep(d: Builder, x: Mem, y: Mem, i: nat, j: nat, diff: int, ghost a: seq<Pair>, ghost b: seq<Pair>)
    requires Packed(x, a) && Packed(y, b) && HasRoom(d, a, b, i, j) && (i < |a| || j < |b|)
    requires diff == Side(a, b, i, j)
    modifies d, d.mem
    ensures HasRoom(d, a, b, NextLeft(i, diff), NextRight(j, diff))
    ensures d.items == old(d.items) + [Taken(a, b, i, j, diff)]
  {
    RoomInMerge(a, b, i, j, diff);
    if diff < 0 {
      CopyPair(d, x, i, a);
    } else {
      CopyPair(d, y, j, b);
    }
  }

  method MergeEnd(d: Builder, ghost a: seq<Pair>, ghost b: seq<Pair>) returns (out: Mem)
    requires Merging(d, a, b, |a|, |b|)
    modifies d, d.mem
    ensures Canonical(out) && MapOf(out) == ToMap(a) + ToMap(b)
  {
    out := d.Finalize();
    PairsOfUnique(out, d.items);
  }

  method MergeStart(alloc: nat, ghost a: seq<Pair>, ghost b: seq<Pair>, count: nat) returns (d: Builder)
    requires 8 + 8 * count + |Strs(a)| + |Strs(b)| <= alloc <= MAX_ALLOC && count == |a| + |b|
    ensures fresh(d) && fresh(d.mem) && Merging(d, a, b, 0, 0)
  {
    d := new Builder(alloc, count);
    var none: Map := map[];
    assert none + none == none;
  }

  method CompareSides(x: Mem, y: Mem, i: nat, j: nat, n1: nat, n2: nat, ghost a: seq<Pair>, ghost b: seq<Pair>)
    returns (diff: int)
    requires Packed(x, a) && Packed(y, b) && n1 == |a| && n2 == |b| && i <= n1 && j <= n2
    ensures diff == Side(a, b, i, j)
  {
    if i >= n1 {
      return 1;
    } else if j >= n2 {
      return -1;
    }
    var p := ReadPair(x, i, a);
    var q := ReadPair(y, j, b);
    diff := KeyCmp(p.key, q.key);
  }

  method ConcatLoop(x: Mem, y: Mem, n1: nat, n2: nat, ghost a: seq<Pair>, ghost b: seq<Pair>) returns (out: Mem)
    requires CanonicalFor(x, a) && CanonicalFor(y, b) && n1 == |a| && n2 == |b| && |x| + |y| <= MAX_ALLOC
    ensures Canonical(out) && MapOf(out) == ToMap(a) + ToMap(b)
  {
    var d := MergeStart(|x| + |y|, a, b, n1 + n2);
    var i, j := 0, 0;
    while i < n1 || j < n2
      invariant 0 <= i <= n1 && 0 <= j <= n2
      invariant fresh(d) && fresh(d.mem) && Merging(d, a, b, i, j)
      decreases n1 - i + n2 - j
    {
      var diff := CompareSides(x, y, i, j, n1, n2, a, b);
      MergeNext(a, b, i, j, diff, d.items);
      MergeStep(d, x, y, i, j, diff, a, b);
      i, j := NextLeft(i, diff), NextRight(j, diff);
    }
    out := MergeEnd(d, a, b);
  }

  /** hstore_concat: the right operand wins. */
  method Concat(x: Mem, y: Mem) returns (r: Result)
    requires Canonical(x) && Canonical(y)
    ensures r.TooLarge? <==> |x| + |y| > MAX_ALLOC
    ensures r.Ok? ==> Canonical(r.hs) && MapOf(r.hs) == MapOf(x) + MapOf(y)
  {
    if |x| + |y| > MAX_ALLOC {
      return TooLarge;
    }
    ghost var a, b := PairsOf(x), PairsOf(y);
    var n1 := ReadCount(x, a);
    var n2 := ReadCount(y, b);
    if n1 == 0 {
      return Ok(y);
    }
    if n2 == 0 {
      assert MapOf(x) + map[] == MapOf(x);
      return Ok(x);
    }
    var out := ConcatLoop(x, y, n1, n2, a, b);
    return Ok(out);
  }

  // ------------------------------------------------ building and single update

  /** hstorePairs: packs a strictly sorted list. */
  method Pack(ps: seq<Pair>, buflen: nat) returns (r: Result)
    requires Sorted(ps) && buflen == |Strs(ps)|
    ensures r.TooLarge? <==> !Fits(ps)
    ensures r.Ok? ==> CanonicalFor(r.hs, ps) && Canonical(r.hs) && MapOf(r.hs) == ToMap(ps)
  {
    if 8 + 8 * |ps| + buflen > MAX_ALLOC {
      return TooLarge;
    }
    var d := new Builder(8 + 8 * |ps| + buflen, |ps|);
    var i := 0;
    while i < |ps|
      invariant 0 <= i <= |ps| && fresh(d) && fresh(d.mem) && Packing(d, ps, i)
    {
      PackStep(d, ps, i);
      i := i + 1;
    }
    var out := d.Finalize();
    assert ps[..i] == ps;
    PairsOfUnique(out, ps);
    return Ok(out);
  }

  ghost predicate Packing(d: Builder, ps: seq<Pair>, i: nat)
    reads d, d.mem
  {
    && i <= |ps| && d.Valid() && d.items == ps[..i]
    && d.cap == |ps| && d.mem.Length == DataSize(ps)
  }

  method PackStep(d: Builder, ps: seq<Pair>, i: nat)
    requires i < |ps| && Packing(d, ps, i)
    modifies d, d.mem
    ensures Packing(d, ps, i + 1)
  {
    RoomToPack(ps, i);
    d.AddItem(ps[i]);
  }

  lemma {:induction false} RoomToPack(ps: seq<Pair>, i: nat)
    requires i < |ps|
    ensures |Strs(ps[..i])| + |ps[i].key| + |ValBytes(ps[i])| <= |Strs(ps)|
    ensures ps[..i + 1] == ps[..i] + [ps[i]]
  {
    PairSize(ps, i);
    StrsSame(ps[..i], ps, i);
  }

  datatype AssignResult = Assigned(hs: Mem) | NullSubscript | KeyTooLong | ValueTooLong | OutOfMemory

  /** The comparison of the merge with the one new pair. */
  method CompareNew(x: Mem, i: nat, j: nat, n1: nat, p: Pair, ghost a: seq<Pair>) returns (diff: int)
    requires Packed(x, a) && n1 == |a| && i <= n1 && j <= 1
    ensures diff == Side(a, [p], i, j)
  {
    if i >= n1 {
      return 1;
    } else if j >= 1 {
      return -1;
    }
    var q := ReadPair(x, i, a);
    diff := KeyCmp(q.key, p.key);
  }

  /** One round: the new pair is added or an old one copied. */
  method AssignStep(d: Builder, x: Mem, i: nat, j: nat, diff: int, p: Pair, ghost a: seq<Pair>)
    requires Packed(x, a) && HasRoom(d, a, [p], i, j) && (i < |a| || j < 1)
    requires diff == Side(a, [p], i, j)
    modifies d, d.mem
    ensures HasRoom(d, a, [p], NextLeft(i, diff), NextRight(j, diff))
    ensures d.items == old(d.items) + [Taken(a, [p], i, j, diff)]
  {
    RoomInMerge(a, [p], i, j, diff);
    if diff < 0 {
      CopyPair(d, x, i, a);
    } else {
      d.AddItem(p);
    }
  }

  lemma {:induction false} OnePair(p: Pair)
    ensures Strs([p]) == p.key + ValBytes(p) && ToMap([p]) == map[p.key := p.val]
  {
    assert StrsTo([p], 1) == StrsTo([p], 0) + (p.key + ValBytes(p)) && StrsTo([p], 0) == [];
    assert ToMapTo([p], 1) == ToMapTo([p], 0)[p.key := p.val] && ToMapTo([p], 0) == map[];
  }

  lemma {:induction false} AddOne(m: Map, k: bytes, v: Value)
    ensures m + map[k := v] == m[k := v]
  {
  }

  method AssignLoop(hs: Mem, p: Pair, n1: nat, vsize: nat, ghost a: seq<Pair>) returns (out: Mem)
    requires CanonicalFor(hs, a) && n1 == |a|
    requires vsize == 8 + 8 * (n1 + 1) + |hs| + |p.key| + |ValBytes(p)| <= MAX_ALLOC
    ensures Canonical(out) && MapOf(out) == ToMap(a)[p.key := p.val]
  {
    OnePair(p);
    var d := MergeStart(vsize, a, [p], n1 + 1);
    var i, j := 0, 0;
    while i < n1 || j < 1
      invariant 0 <= i <= n1 && 0 <= j <= 1
      invariant fresh(d) && fresh(d.mem) && Merging(d, a, [p], i, j)
      decreases n1 - i + 1 - j
    {
      var diff := CompareNew(hs, i, j, n1, p, a);
      MergeNext(a, [p], i, j, diff, d.items);
      AssignStep(d, hs, i, j, diff, p, a);
      i, j := NextLeft(i, diff), NextRight(j, diff);
    }
    out := MergeEnd(d, a, [p]);
    AddOne(ToMap(a), p.key, p.val);
  }

  /** Space the new value is allocated with: a null container gives a one-pair value. */
  ghost function AssignSize(isnull: bool, hs: Mem, p: Pair): nat
    requires !isnull ==> Canonical(hs)
  {
    16 + |p.key| + |ValBytes(p)| + if isnull then 0 else 8 * |PairsOf(hs)| + |hs|
  }

  method AssignNew(p: Pair) returns (r: AssignResult)
    ensures r.Assigned? || r.OutOfMemory?
    ensures r.Assigned? <==> 16 + |p.key| + |ValBytes(p)| <= MAX_ALLOC
    ensures r.Assigned? ==> Canonical(r.hs) && MapOf(r.hs) == map[p.key := p.val]
  {
    OnePair(p);
    var packed := Pack([p], |p.key| + |ValBytes(p)|);
    return if packed.TooLarge? then OutOfMemory else Assigned(packed.hs);
  }

  /** hstore_subscript_assign: a single-key update; a null container counts as empty. */
  method Assign(isnull: bool, hs: Mem, key: Value, val: Value) returns (r: AssignResult)
    requires !isnull ==> Canonical(hs)
    ensures r == NullSubscript <==> key.Null?
    ensures r == KeyTooLong <==> key.Text? && |key.text| > MAX_LEN
    ensures r == ValueTooLong <==> key.Text? && |key.text| <= MAX_LEN && val.Text? && |val.text| > MAX_LEN
    ensures r.Assigned? <==>
      && key.Text? && |key.text| <= MAX_LEN && (val.Text? ==> |val.text| <= MAX_LEN)
      && AssignSize(isnull, hs, Pair(key.text, val)) <= MAX_ALLOC
    ensures r.Assigned? ==>
      Canonical(r.hs) && MapOf(r.hs) == (if isnull then map[] else MapOf(hs))[key.text := val]
  {
    if key.Null? {
      return NullSubscript;
    }
    if |key.text| > MAX_LEN {
      return KeyTooLong;
    }
    if val.Text? && |val.text| > MAX_LEN {
      return ValueTooLong;
    }
    var p := Pair(key.text, val);
    if isnull {
      r := AssignNew(p);
      return;
    }
    ghost var a := PairsOf(hs);
    var n1 := ReadCount(hs, a);
    var vsize := 8 + 8 * (n1 + 1) + |hs| + |p.key| + |ValBytes(p)|;
    if vsize > MAX_ALLOC {
      return OutOfMemory;
    }
    var out := AssignLoop(hs, p, n1, vsize, a);
    return Assigned(out);
  }
}
