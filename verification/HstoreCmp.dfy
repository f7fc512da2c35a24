/**
  The btree comparison and the hash input of hstore.  The order is on packed
  values: string area first, then number of pairs, then entries.
 */
module HstoreCmp {
  import opened Bytes
  import opened HstoreLayout
  import opened HstoreOrder
  import opened HstoreOps

  function Sign(x: int): int { if x < 0 then -1 else if x > 0 then 1 else 0 }

  /** memcmp over the common length, then the lengths. */
  lemma {:induction false} CompareMin(a: bytes, b: bytes)
    ensures var m := if |a| < |b| then |a| else |b|;
            var c := Compare(a[..m], b[..m]);
            Compare(a, b) == if c != 0 then c else Sign(|a| - |b|)
  {
    if a != [] && b != [] {
      var m := if |a| < |b| then |a| else |b|;
      CompareMin(a[1..], b[1..]);
      assert a[..m][1..] == a[1..][..m - 1] && b[..m][1..] == b[1..][..m - 1];
    }
  }

  // ------------------------------------------------------------------- entries

  /** The value entry of pair i as one number: position first, then the null flag. */
  function ValEnt(ps: seq<Pair>, i: nat): nat
    requires i < |ps|
  {
    2 * PairStart(ps, i + 1) + (if ps[i].val.Null? then 1 else 0)
  }

  /** The two entries of each pair, as numbers. */
  datatype Ent = Ent(key: nat, val: nat)

  function Ents(ps: seq<Pair>): (u: seq<Ent>)
    ensures |u| == |ps|
  {
    seq(|ps|, i requires 0 <= i < |ps| => Ent(KeyEnd(ps, i), ValEnt(ps, i)))
  }

  /** The first difference from position i on decides. */
  function EntCmp(u: seq<Ent>, v: seq<Ent>, i: nat): (r: int)
    requires |u| == |v| && i <= |u|
    ensures -1 <= r <= 1
    decreases |u| - i, u, v
  {
    if i == |u| then 0
    else if u[i].key != v[i].key then Sign(u[i].key - v[i].key)
    else if u[i].val != v[i].val then Sign(u[i].val - v[i].val)
    else EntCmp(u, v, i + 1)
  }

  lemma {:induction false} EntAntisym(u: seq<Ent>, v: seq<Ent>, i: nat)
    requires |u| == |v| && i <= |u|
    ensures EntCmp(u, v, i) == -EntCmp(v, u, i)
    decreases |u| - i
  {
    if i < |u| { EntAntisym(u, v, i + 1); }
  }

  lemma {:induction false} EntTrans(u: seq<Ent>, v: seq<Ent>, w: seq<Ent>, i: nat)
    requires |u| == |v| == |w| && i <= |u| && EntCmp(u, v, i) <= 0 && EntCmp(v, w, i) <= 0
    ensures EntCmp(u, w, i) <= 0
    decreases |u| - i
  {
    if i < |u| && u[i] == v[i] == w[i] { EntTrans(u, v, w, i + 1); }
  }

  lemma {:induction false} EntEqual(u: seq<Ent>, v: seq<Ent>, i: nat, j: nat)
    requires |u| == |v| && i <= j < |u| && EntCmp(u, v, i) == 0
    ensures u[j] == v[j]
    decreases j - i
  {
    if i < j { EntEqual(u, v, i + 1, j); }
  }

  // --------------------------------------------------------------------- order

  /** The order hstore_cmp decides, on the pairs. */
  function Order(a: seq<Pair>, b: seq<Pair>): (r: int)
    ensures -1 <= r <= 1
  {
    if |a| == 0 || |b| == 0 then Sign(|a| - |b|)
    else if Strs(a) != Strs(b) then Compare(Strs(a), Strs(b))
    else if |a| != |b| then Sign(|a| - |b|)
    else EntCmp(Ents(a), Ents(b), 0)
  }

  // ----------------------------------------------------------- what decides

  /** Both entries of pair i say the same: where the key ends, where the value ends, whether it is null. */
  predicate SameEntries(a: seq<Pair>, b: seq<Pair>, i: nat)
    requires i < |a| && i < |b|
  {
    && KeyEnd(a, i) == KeyEnd(b, i) && PairStart(a, i + 1) == PairStart(b, i + 1)
    && (a[i].val.Null? <==> b[i].val.Null?)
  }

  /** In pair i the key of a ends earlier; or as early, and its value ends earlier or only that of b is null. */
  predicate EarlierEntries(a: seq<Pair>, b: seq<Pair>, i: nat)
    requires i < |a| && i < |b|
  {
    || KeyEnd(a, i) < KeyEnd(b, i)
    || (KeyEnd(a, i) == KeyEnd(b, i) && PairStart(a, i + 1) < PairStart(b, i + 1))
    || (KeyEnd(a, i) == KeyEnd(b, i) && PairStart(a, i + 1) == PairStart(b, i + 1) && a[i].val.Text? && b[i].val.Null?)
  }

  predicate SameBefore(a: seq<Pair>, b: seq<Pair>, i: nat)
    requires i <= |a| && i <= |b|
  {
    forall d :: 0 <= d < i ==> SameEntries(a, b, d)
  }

  predicate DecidedAt(a: seq<Pair>, b: seq<Pair>, i: nat) {
    i < |a| && i < |b| && SameBefore(a, b, i) && EarlierEntries(a, b, i)
  }

  /** The first pair whose entries differ has the earlier ones in a. */
  ghost predicate EarlierAtFirst(a: seq<Pair>, b: seq<Pair>) { exists i: nat :: DecidedAt(a, b, i) }

  /**
    The order of two values: an empty value comes first; then the first byte in
    which the string areas differ decides, or which of them ends there; then the
    number of pairs; then the first pair whose entries differ.
   */
  ghost predicate Precedes(a: seq<Pair>, b: seq<Pair>) {
    if a == [] || b == [] then b != [] && a == []
    else if Strs(a) != Strs(b) then Before(Strs(a), Strs(b))
    else if |a| != |b| then |a| < |b|
    else EarlierAtFirst(a, b)
  }

  lemma {:induction false} EntsDecide(a: seq<Pair>, b: seq<Pair>, i: nat)
    requires |a| == |b| && i < |a|
    ensures Ents(a)[i] == Ents(b)[i] <==> SameEntries(a, b, i)
    ensures Ents(a)[i] != Ents(b)[i] ==> (EntCmp(Ents(a), Ents(b), i) < 0 <==> EarlierEntries(a, b, i))
  {
  }

  lemma {:induction false} NoneEarlier(a: seq<Pair>, b: seq<Pair>)
    requires |a| == |b| && SameBefore(a, b, |a|)
    ensures !EarlierAtFirst(a, b)
  {
    forall i: nat
      ensures !DecidedAt(a, b, i)
    {
      if i < |a| { assert SameEntries(a, b, i); }
    }
  }

  /** Only the first pair that differs can decide. */
  lemma {:induction false} FirstDecides(a: seq<Pair>, b: seq<Pair>, i: nat)
    requires |a| == |b| && i < |a| && SameBefore(a, b, i) && !SameEntries(a, b, i)
    ensures EarlierAtFirst(a, b) <==> EarlierEntries(a, b, i)
  {
    forall c: nat | c != i
      ensures !DecidedAt(a, b, c)
    {
      if c < i { assert SameEntries(a, b, c); }
    }
    assert DecidedAt(a, b, i) <==> EarlierEntries(a, b, i);
  }

  /** Where the entries first differ; nothing before matters. */
  lemma {:induction false} FirstDiff(u: seq<Ent>, v: seq<Ent>, i: nat) returns (k: nat)
    requires |u| == |v| && i <= |u|
    ensures i <= k <= |u| && EntCmp(u, v, i) == EntCmp(u, v, k) && (k < |u| ==> u[k] != v[k])
    ensures forall j :: i <= j < k ==> u[j] == v[j]
    decreases |u| - i
  {
    k := i;
    if i < |u| && u[i] == v[i] { k := FirstDiff(u, v, i + 1); }
  }

  lemma {:induction false} EntCmpDecides(a: seq<Pair>, b: seq<Pair>)
    requires |a| == |b|
    ensures EntCmp(Ents(a), Ents(b), 0) < 0 <==> EarlierAtFirst(a, b)
  {
    var k := FirstDiff(Ents(a), Ents(b), 0);
    forall j | 0 <= j < k
      ensures SameEntries(a, b, j)
    {
      EntsDecide(a, b, j);
    }
    if k == |a| {
      NoneEarlier(a, b);
    } else {
      EntsDecide(a, b, k);
      FirstDecides(a, b, k);
    }
  }

  /** The order is negative exactly when the first value precedes. */
  lemma {:induction false} OrderDecides(a: seq<Pair>, b: seq<Pair>)
    ensures Order(a, b) < 0 <==> Precedes(a, b)
  {
    CompareDecides(Strs(a), Strs(b));
    if |a| == |b| { EntCmpDecides(a, b); }
  }

  lemma {:induction false} OrderAntisym(a: seq<Pair>, b: seq<Pair>)
    ensures Order(a, b) == -Order(b, a)
  {
    CompareAntisym(Strs(a), Strs(b));
    if |a| == |b| { EntAntisym(Ents(a), Ents(b), 0); }
  }

  lemma {:induction false} OrderTrans(a: seq<Pair>, b: seq<Pair>, c: seq<Pair>)
    requires Order(a, b) <= 0 && Order(b, c) <= 0
    ensures Order(a, c) <= 0
  {
    if |a| > 0 && |b| > 0 && |c| > 0 {
      LeTrans(Strs(a), Strs(b), Strs(c));
      CompareAntisym(Strs(a), Strs(b));
      if |a| == |b| == |c| && Strs(a) == Strs(b) == Strs(c) { EntTrans(Ents(a), Ents(b), Ents(c), 0); }
    }
  }

  /** Equal entries over equal strings give equal pairs. */
  lemma {:induction false} PairFromEntries(a: seq<Pair>, b: seq<Pair>, i: nat)
    requires i < |a| == |b| && Strs(a) == Strs(b) && PairStart(a, i) == PairStart(b, i)
    requires KeyEnd(a, i) == KeyEnd(b, i) && ValEnt(a, i) == ValEnt(b, i)
    ensures a[i] == b[i]
  {
    PairEnds(a, i);
    PairEnds(b, i);
    assert a[i].key == b[i].key && ValBytes(a[i]) == ValBytes(b[i]);
  }

  lemma {:induction false} SamePairs(a: seq<Pair>, b: seq<Pair>)
    requires |a| == |b| && Strs(a) == Strs(b) && EntCmp(Ents(a), Ents(b), 0) == 0
    ensures a == b
  {
    forall i | 0 <= i < |a|
      ensures a[i] == b[i]
    {
      var u, v := Ents(a), Ents(b);
      if i > 0 { EntEqual(u, v, 0, i - 1); }
      EntEqual(u, v, 0, i);
      PairFromEntries(a, b, i);
    }
  }

  lemma {:induction false} OrderZero(a: seq<Pair>, b: seq<Pair>)
    ensures Order(a, b) == 0 <==> a == b
  {
    if a == b {
      EntAntisym(Ents(a), Ents(a), 0);
    } else if Order(a, b) == 0 && |a| > 0 {
      SamePairs(a, b);
    }
  }

  // ---------------------------------------------------------- the packed routine

  /** Entry 2i or 2i + 1 of a packed value as one number. */
  function EntAt(ps: seq<Pair>, i: nat, second: bool): nat
    requires i < |ps|
  {
    if second then ValEnt(ps, i) else 2 * KeyEnd(ps, i)
  }

  lemma {:induction false} PackedEnt(hs: Mem, ps: seq<Pair>, i: nat, second: bool)
    requires Packed(hs, ps) && i < |ps|
    ensures 16 + 8 * i <= |hs|
    ensures var w := WordAt(hs, 8 + 8 * i + if second then 4 else 0);
            EntAt(ps, i, second) == 2 * EndPos(w) + (if IsNull(w) then 1 else 0)
  {
    assert EntriesOf(hs, ps, i, true);
    EntryFields(KeyEnd(ps, i), i == 0, false);
    EntryFields(PairStart(ps, i + 1), false, ps[i].val.Null?);
  }

  /** Whether two entry words differ, and which way. */
  method EntryDiff(x: Mem, y: Mem, e: nat, ghost i: nat, ghost second: bool, ghost a: seq<Pair>, ghost b: seq<Pair>)
    returns (diff: int)
    requires Packed(x, a) && Packed(y, b) && i < |a| == |b| && e == 2 * i + if second then 1 else 0
    ensures diff == Sign(EntAt(a, i, second) - EntAt(b, i, second))
  {
    PackedEnt(x, a, i, second);
    PackedEnt(y, b, i, second);
    var e1, e2 := WordAt(x, 8 + 4 * e), WordAt(y, 8 + 4 * e);
    if EndPos(e1) < EndPos(e2) {
      return -1;
    } else if EndPos(e1) > EndPos(e2) {
      return 1;
    } else if IsNull(e1) == IsNull(e2) {
      return 0;
    }
    return if IsNull(e1) then 1 else -1;
  }

  /** The entries before entry 2i or 2i + 1 agree. */
  predicate AgreeTo(a: seq<Pair>, b: seq<Pair>, i: nat, second: bool)
    requires |a| == |b| && i <= |a|
  {
    && EntCmp(Ents(a), Ents(b), 0) == EntCmp(Ents(a), Ents(b), i)
    && (second ==> i < |a| && KeyEnd(a, i) == KeyEnd(b, i))
  }

  method EntryLoop(x: Mem, y: Mem, count: nat, ghost a: seq<Pair>, ghost b: seq<Pair>) returns (res: int)
    requires Packed(x, a) && Packed(y, b) && |a| == |b| && count == 2 * |a|
    ensures res == EntCmp(Ents(a), Ents(b), 0)
  {
    var e := 0;
    ghost var i, second := 0, false;
    while e < count
      invariant i <= |a| && e == 2 * i + (if second then 1 else 0) && e <= count
      invariant AgreeTo(a, b, i, second)
    {
      var diff := EntryDiff(x, y, e, i, second, a, b);
      if diff != 0 {
        return diff;
      }
      e := e + 1;
      i, second := if second then i + 1 else i, !second;
    }
    return 0;
  }

  /** The string area of a nonempty value, found through its last entry. */
  method ReadStrs(hs: Mem, count: nat, ghost ps: seq<Pair>) returns (s: bytes)
    requires Packed(hs, ps) && count == |ps| > 0
    ensures s == Strs(ps)
  {
    PackedEnt(hs, ps, |ps| - 1, true);
    var len := EndPos(WordAt(hs, 4 + 8 * count));
    assert len == |Strs(ps)|;
    TextOfCells(hs, Strs(ps), 8 + 8 * count, 0, len);
    s := TextAt(hs, 8 + 8 * count, 8 + 8 * count + len);
  }

  method CmpPacked(x: Mem, y: Mem, ghost a: seq<Pair>, ghost b: seq<Pair>) returns (res: int)
    requires Packed(x, a) && Packed(y, b)
    ensures res == Order(a, b)
  {
    var hcount1 := ReadCount(x, a);
    var hcount2 := ReadCount(y, b);
    if hcount1 == 0 || hcount2 == 0 {
      return if hcount1 > 0 then 1 else if hcount2 > 0 then -1 else 0;
    }
    var s1 := ReadStrs(x, hcount1, a);
    var s2 := ReadStrs(y, hcount2, b);
    var min := if |s1| < |s2| then |s1| else |s2|;
    CompareMin(s1, s2);
    res := Compare(s1[..min], s2[..min]);
    if res == 0 {
      if |s1| > |s2| {
        res := 1;
      } else if |s1| < |s2| {
        res := -1;
      } else if hcount1 > hcount2 {
        res := 1;
      } else if hcount2 > hcount1 {
        res := -1;
      } else {
        res := EntryLoop(x, y, 2 * hcount1, a, b);
      }
    }
  }

  /** hstore_cmp */
  method Cmp(x: Mem, y: Mem) returns (res: int)
    requires Canonical(x) && Canonical(y)
    ensures res == Order(PairsOf(x), PairsOf(y))
    ensures res == 0 <==> MapOf(x) == MapOf(y)
    ensures res < 0 <==> Precedes(PairsOf(x), PairsOf(y))
    ensures res > 0 <==> Precedes(PairsOf(y), PairsOf(x))
  {
    OrderDecides(PairsOf(x), PairsOf(y));
    OrderDecides(PairsOf(y), PairsOf(x));
    OrderAntisym(PairsOf(x), PairsOf(y));
    res := CmpPacked(x, y, PairsOf(x), PairsOf(y));
    OrderZero(PairsOf(x), PairsOf(y));
    if MapOf(x) == MapOf(y) { SortedUnique(PairsOf(x), PairsOf(y)); }
  }

  // ---------------------------------------------------------------------- hash

  /** The bytes hstore_hash feeds to the hash function: everything after the size word. */
  function Hashed(hs: Mem): Mem
    requires |hs| >= 8
  {
    hs[4..]
  }

  /**
    hstore_cmp is a total order on canonical values; it is zero exactly when the
    maps agree, and then the hashed bytes are identical.
   */
  lemma {:induction false} CmpIsTotalOrder(x: Mem, y: Mem, z: Mem)
    requires Canonical(x) && Canonical(y) && Canonical(z)
    ensures var a, b, c := PairsOf(x), PairsOf(y), PairsOf(z);
            && Order(a, b) == -Order(b, a)
            && (Order(a, b) <= 0 && Order(b, c) <= 0 ==> Order(a, c) <= 0)
            && (Order(a, b) == 0 <==> MapOf(x) == MapOf(y))
            && (Order(a, b) == 0 <==> Hashed(x) == Hashed(y))
  {
    var a, b, c := PairsOf(x), PairsOf(y), PairsOf(z);
    OrderAntisym(a, b);
    if Order(a, b) <= 0 && Order(b, c) <= 0 { OrderTrans(a, b, c); }
    OrderZero(a, b);
    CanonicalUnique(x, y);
    if Hashed(x) == Hashed(y) { HashedDetermines(x, y, a, b); }
    if MapOf(x) == MapOf(y) { SortedUnique(a, b); }
  }

  lemma {:induction false} HashedDetermines(x: Mem, y: Mem, a: seq<Pair>, b: seq<Pair>)
    requires Packed(x, a) && Packed(y, b) && Hashed(x) == Hashed(y)
    ensures x == y
  {
    assert |x| == |y|;
    forall i | 0 <= i < |x|
      ensures x[i] == y[i]
    {
      if i >= 4 { assert x[i] == Hashed(x)[i - 4] && y[i] == Hashed(y)[i - 4]; }
    }
  }

  /** What hstore_hash asserts about the size word. */
  lemma {:induction false} HashSize(hs: Mem)
    requires Canonical(hs)
    ensures var n := Count(hs);
            VarSize(hs) == |hs| == if n == 0 then 8 else 8 + 8 * n + EndPos(ValEntry(hs, n - 1))
  {
    var ps := PairsOf(hs);
    PackedCount(hs, ps);
    if |ps| > 0 { PackedFields(hs, ps, |ps| - 1); }
  }
}
