/**
  Variable-length GiST keys of btree_gist, as instantiated for bytea:
  one byte per character, truncation on, no leaf-to-node transform.

  An internal key is a pair of byte strings cut shortly after their common
  prefix, so its upper string need not bound the values below it.  `Covers`
  is the invariant that makes the cut harmless at any depth.
 */
module VarKey {
  import opened Bytes

  datatype Key = Key(lower: bytes, upper: bytes)

  // ---------------------------------------------------------------- prefixes

  /** Length of the longest common prefix. */
  function Cp(a: bytes, b: bytes): (n: nat)
    ensures n <= |a| && n <= |b|
    ensures a[..n] == b[..n]
    ensures n < |a| && n < |b| ==> a[n] != b[n]
  {
    if a == [] || b == [] || a[0] != b[0] then 0
    else
      var n := Cp(a[1..], b[1..]);
      assert a[..n + 1] == [a[0]] + a[1..][..n] && b[..n + 1] == [b[0]] + b[1..][..n];
      n + 1
  }

  /** The common prefix length is the only number with these properties. */
  lemma {:induction false} CpUnique(a: bytes, b: bytes, n: nat)
    requires n <= |a| && n <= |b| && a[..n] == b[..n]
    requires n < |a| && n < |b| ==> a[n] != b[n]
    ensures Cp(a, b) == n
  {
    var c := Cp(a, b);
    assert forall i :: 0 <= i < n ==> a[i] == a[..n][i] == b[..n][i] == b[i];
    assert forall i :: 0 <= i < c ==> a[i] == a[..c][i] == b[..c][i] == b[i];
  }

  method NodeCpLen(k: Key) returns (n: nat)
    ensures n == Cp(k.lower, k.upper)
  {
    var ml := if |k.lower| < |k.upper| then |k.lower| else |k.upper|;
    n := 0;
    while n < ml && k.lower[n] == k.upper[n]
      invariant n <= ml
      invariant k.lower[..n] == k.upper[..n]
    {
      n := n + 1;
    }
    CpUnique(k.lower, k.upper, n);
  }

  /** The order is decided just after the common prefix. */
  lemma {:induction false} LeAtCp(a: bytes, b: bytes)
    ensures Le(a, b) <==> Cp(a, b) == |a| || (Cp(a, b) < |b| && a[Cp(a, b)] < b[Cp(a, b)])
  {
    if a != [] && b != [] && a[0] == b[0] {
      LeAtCp(a[1..], b[1..]);
    }
  }

  /** Moving the lower string down shortens the common prefix. */
  lemma {:induction false} CpShrinks(l: bytes, m: bytes, u: bytes)
    requires Le(l, m) && Le(m, u)
    ensures Cp(l, u) <= Cp(m, u)
  {
    if l != [] && u != [] && l[0] == u[0] {
      assert m != [] && m[0] == u[0];
      CpShrinks(l[1..], m[1..], u[1..]);
    }
  }

  /** Past the common prefix, only a shared longer prefix p of u and w matters. */
  lemma {:induction false} CpSharedPrefix(l: bytes, u: bytes, w: bytes, p: bytes)
    requires p <= u && p <= w && Cp(l, u) < |p|
    ensures Cp(l, w) == Cp(l, u)
  {
    var c := Cp(l, u);
    assert u[..c] == p[..c] == w[..c];
    assert u[c] == p[c] == w[c];
    CpUnique(l, w, c);
  }

  // ------------------------------------------------------ union and truncation

  function Cut(s: bytes, n: nat): bytes {
    if |s| <= n then s else s[..n]
  }

  /** gbt_var_node_truncate: keep cpf + 1 bytes of both strings. */
  function Truncate(k: Key, cpf: nat): Key {
    Key(Cut(k.lower, cpf + 1), Cut(k.upper, cpf + 1))
  }

  /** One step of gbt_var_bin_union on an existing key. */
  function Widen(k: Key, e: Key): Key {
    Key(if Compare(k.lower, e.lower) > 0 then e.lower else k.lower,
        if Compare(k.upper, e.upper) < 0 then e.upper else k.upper)
  }

  /** All entries widened together, left to right. */
  function Bounds(es: seq<Key>): Key
    requires es != []
  {
    var n := |es| - 1;
    if n == 0 then es[0] else Widen(Bounds(es[..n]), es[n])
  }

  /** b holds the smallest lower and the greatest upper string of the entries. */
  ghost predicate Extreme(b: Key, es: seq<Key>) {
    && (forall e :: e in es ==> Le(b.lower, e.lower) && Le(e.upper, b.upper))
    && (exists e :: e in es && b.lower == e.lower)
    && (exists e :: e in es && b.upper == e.upper)
  }

  lemma {:induction false} BoundsExtreme(es: seq<Key>)
    requires es != []
    ensures Extreme(Bounds(es), es)
  {
    var n := |es| - 1;
    if n == 0 {
      assert es[0] in es;
    } else {
      BoundsExtreme(es[..n]);
      ExtremeStep(Bounds(es[..n]), es[..n], es[n]);
      assert es == es[..n] + [es[n]];
    }
  }

  lemma {:induction false} ExtremeStep(r: Key, es: seq<Key>, x: Key)
    requires Extreme(r, es)
    ensures Extreme(Widen(r, x), es + [x])
  {
    var w := Widen(r, x);
    CompareAntisym(r.lower, x.lower);
    CompareAntisym(r.upper, x.upper);
    forall e | e in es + [x]
      ensures Le(w.lower, e.lower) && Le(e.upper, w.upper)
    {
      if e in es {
        LeTrans(w.lower, r.lower, e.lower);
        LeTrans(e.upper, r.upper, w.upper);
      }
    }
    var lo :| lo in es && r.lower == lo.lower;
    var hi :| hi in es && r.upper == hi.upper;
    assert x in es + [x] && lo in es + [x] && hi in es + [x];
  }

  function UnionKey(es: seq<Key>): Key
    requires es != []
  {
    var b := Bounds(es);
    Truncate(b, Cp(b.lower, b.upper) + 1)
  }

  /** The gbt_var_bin_union loop shared by union and split. */
  method Fold(es: seq<Key>) returns (k: Key)
    requires es != []
    ensures k == Bounds(es)
  {
    k := es[0];
    var i := 1;
    while i < |es|
      invariant 1 <= i <= |es|
      invariant k == Bounds(es[..i])
    {
      assert es[..i + 1][..i] == es[..i];
      k := Widen(k, es[i]);
      i := i + 1;
    }
    assert es[..i] == es;
  }

  /** gbt_var_union */
  method Union(es: seq<Key>) returns (k: Key)
    requires es != []
    ensures k == UnionKey(es)
  {
    k := Fold(es);
    var plen := NodeCpLen(k);
    k := Truncate(k, plen + 1);
  }

  // ------------------------------------------------------------ the invariant

  /** What a stored internal key promises about a value below it. */
  predicate Covers(k: Key, v: bytes) {
    && Le(k.lower, k.upper)
    && Le(k.lower, v)
    && (Le(v, k.upper) || (k.upper <= v && |k.upper| >= Cp(k.lower, k.upper) + 2))
  }

  /** What the key still promises while it is being widened, before the cut. */
  predicate PreCovers(k: Key, v: bytes) {
    var n := Cp(k.lower, k.upper) + 2;
    && Le(k.lower, k.upper)
    && Le(k.lower, v)
    && (Le(v, k.upper) || (|k.upper| >= n && k.upper[..n] <= v))
  }

  lemma {:induction false} LeafCovers(v: bytes)
    ensures Covers(Key(v, v), v)
  {
  }

  /** Widening in both directions keeps every promise. */
  lemma {:induction false} WidenKeeps(k: Key, w: Key, v: bytes)
    requires PreCovers(k, v)
    requires Le(w.lower, k.lower) && Le(k.upper, w.upper)
    ensures PreCovers(w, v)
  {
    LeTrans(w.lower, k.lower, v);
    LeTrans(w.lower, k.lower, k.upper);
    LeTrans(w.lower, k.upper, w.upper);
    if Le(v, k.upper) {
      LeTrans(v, k.upper, w.upper);
    } else {
      var n := Cp(k.lower, k.upper) + 2;
      var p := k.upper[..n];
      CpShrinks(w.lower, k.lower, k.upper);
      PrefixLe(p, k.upper);
      LeTrans(p, k.upper, w.upper);
      if p <= w.upper {
        CpSharedPrefix(w.lower, k.upper, w.upper, p);
        assert w.upper[..Cp(w.lower, w.upper) + 2] <= p;
      } else {
        PrefixBelow(p, v, w.upper);
      }
    }
  }

  /** Cutting both strings past their common prefix changes neither it nor their order. */
  lemma {:induction false} CutKeepsCp(k: Key, c: nat)
    requires Le(k.lower, k.upper) && c > Cp(k.lower, k.upper)
    ensures var t := Truncate(k, c);
            Cp(t.lower, t.upper) == Cp(k.lower, k.upper) && Le(t.lower, t.upper)
  {
    var t, n := Truncate(k, c), Cp(k.lower, k.upper);
    assert t.lower[..n] == k.lower[..n] && t.upper[..n] == k.upper[..n];
    CpUnique(t.lower, t.upper, n);
    LeAtCp(k.lower, k.upper);
    LeAtCp(t.lower, t.upper);
  }

  /** Cutting keeps a value that the untruncated strings bound. */
  lemma {:induction false} CutKeepsBounded(k: Key, c: nat, v: bytes)
    requires Le(k.lower, k.upper) && Le(k.lower, v) && Le(v, k.upper)
    requires c > Cp(k.lower, k.upper)
    ensures Covers(Truncate(k, c), v)
  {
    var t := Truncate(k, c);
    CutKeepsCp(k, c);
    PrefixLe(t.lower, k.lower);
    LeTrans(t.lower, k.lower, v);
    LeTotal(v, t.upper);
    if !Le(v, t.upper) {
      PrefixConvex(t.upper, v, k.upper);
    }
  }

  /** Cutting two bytes past the common prefix restores the full promise. */
  lemma {:induction false} CutRestores(b: Key, v: bytes)
    requires PreCovers(b, v)
    ensures Covers(Truncate(b, Cp(b.lower, b.upper) + 1), v)
  {
    var c := Cp(b.lower, b.upper) + 1;
    if Le(v, b.upper) {
      CutKeepsBounded(b, c, v);
    } else {
      var t := Truncate(b, c);
      CutKeepsCp(b, c);
      PrefixLe(t.lower, b.lower);
      LeTrans(t.lower, b.lower, v);
    }
  }

  lemma {:induction false} CoversPreCovers(k: Key, v: bytes)
    requires Covers(k, v)
    ensures PreCovers(k, v)
  {
    if !Le(v, k.upper) {
      assert k.upper[..Cp(k.lower, k.upper) + 2] <= k.upper;
    }
  }

  /** A union key promises every value that one of its entries promises. */
  lemma {:induction false} UnionCovers(es: seq<Key>, e: Key, v: bytes)
    requires e in es && Covers(e, v)
    ensures Covers(UnionKey(es), v)
  {
    CoversPreCovers(e, v);
    BoundsExtreme(es);
    WidenKeeps(e, Bounds(es), v);
    CutRestores(Bounds(es), v);
  }

  // ------------------------------------------------------------------ queries

  datatype Strategy = Less | LessEqual | Equal | GreaterEqual | Greater | NotEqual

  /** The indexed condition "v s q". */
  predicate Satisfies(v: bytes, q: bytes, s: Strategy) {
    match s
    case Less => Compare(v, q) < 0
    case LessEqual => Compare(v, q) <= 0
    case Equal => v == q
    case GreaterEqual => Compare(v, q) >= 0
    case Greater => Compare(v, q) > 0
    case NotEqual => v != q
  }

  predicate PrefixMatch(k: Key, q: bytes) {
    k.lower <= q || k.upper <= q
  }

  /** gbt_var_consistent */
  predicate Consistent(k: Key, q: bytes, s: Strategy, isLeaf: bool) {
    match s
    case LessEqual =>
      if isLeaf then Compare(q, k.lower) >= 0
      else Compare(q, k.lower) >= 0 || PrefixMatch(k, q)
    case Less =>
      if isLeaf then Compare(q, k.lower) > 0
      else Compare(q, k.lower) >= 0 || PrefixMatch(k, q)
    case Equal =>
      if isLeaf then q == k.lower
      else (Compare(k.lower, q) <= 0 && Compare(q, k.upper) <= 0) || PrefixMatch(k, q)
    case Greater =>
      if isLeaf then Compare(q, k.upper) < 0
      else Compare(q, k.upper) <= 0 || PrefixMatch(k, q)
    case GreaterEqual =>
      if isLeaf then Compare(q, k.upper) <= 0
      else Compare(q, k.upper) <= 0 || PrefixMatch(k, q)
    case NotEqual =>
      !(q == k.lower && q == k.upper)
  }

  /** A leaf answer is exact. */
  lemma {:induction false} LeafExact(v: bytes, q: bytes, s: Strategy)
    ensures Consistent(Key(v, v), q, s, true) <==> Satisfies(v, q, s)
  {
    CompareAntisym(v, q);
  }

  /** A key never rejects a query that v satisfies. */
  ghost predicate Admits(k: Key, v: bytes) {
    forall q, s :: Satisfies(v, q, s) ==> Consistent(k, q, s, false)
  }

  predicate Reaches(k: Key, v: bytes) {
    && Le(k.lower, v)
    && (Le(v, k.upper) || k.lower <= v || k.upper <= v)
    && !(k.lower == k.upper && v != k.lower)
  }

  /** Exactly which values an internal key can be asked about in vain. */
  lemma {:induction false} AdmitsIff(k: Key, v: bytes)
    requires Le(k.lower, k.upper)
    ensures Admits(k, v) <==> Reaches(k, v)
  {
    if Reaches(k, v) {
      forall q, s | Satisfies(v, q, s)
        ensures Consistent(k, q, s, false)
      {
        ReachesQuery(k, v, q, s);
      }
    }
    if Admits(k, v) {
      assert Satisfies(v, v, Equal);
      if k.upper <= v {
        PrefixLe(k.upper, v);
        LeTrans(k.lower, k.upper, v);
      }
      if k.lower <= v { PrefixLe(k.lower, v); }
      if v != k.lower { assert Satisfies(v, k.lower, NotEqual); }
    }
  }

  lemma {:induction false} ReachesQuery(k: Key, v: bytes, q: bytes, s: Strategy)
    requires Le(k.lower, k.upper) && Reaches(k, v) && Satisfies(v, q, s)
    ensures Consistent(k, q, s, false)
  {
    CompareAntisym(v, q);
    CompareAntisym(k.lower, q);
    CompareAntisym(k.upper, q);
    match s
    case Less | LessEqual => LeTrans(k.lower, v, q);
    case Equal | NotEqual =>
    case Greater | GreaterEqual =>
      if Le(v, k.upper) {
        LeTrans(q, v, k.upper);
      } else if Compare(q, k.upper) > 0 {
        LeTrans(k.lower, k.upper, q);
        if k.lower <= v { PrefixConvex(k.lower, q, v); } else { PrefixConvex(k.upper, q, v); }
      }
  }

  /** A value the two strings of an internal key do not rule out. */
  predicate Spans(k: Key, v: bytes) { Le(k.lower, v) && (Le(v, k.upper) || k.lower <= v || k.upper <= v) }

  ghost predicate SpansSome(k: Key, q: bytes, above: bool) {
    exists v :: Spans(k, v) && if above then Compare(v, q) > 0 else Compare(v, q) <= 0
  }

  lemma {:induction false} SpansBy(k: Key, q: bytes, above: bool, v: bytes)
    requires Spans(k, v) && if above then Compare(v, q) > 0 else Compare(v, q) <= 0
    ensures SpansSome(k, q, above)
  {
  }

  lemma {:induction false} PrefixMatchLe(k: Key, q: bytes)
    requires Le(k.lower, k.upper) && PrefixMatch(k, q)
    ensures Le(k.lower, q)
  {
    if k.lower <= q {
      PrefixLe(k.lower, q);
    } else {
      PrefixLe(k.upper, q);
      LeTrans(k.lower, k.upper, q);
    }
  }

  lemma {:induction false} BelowIff(k: Key, q: bytes)
    requires Le(k.lower, k.upper)
    ensures Compare(q, k.lower) >= 0 || PrefixMatch(k, q) <==> SpansSome(k, q, false)
  {
    CompareAntisym(q, k.lower);
    if PrefixMatch(k, q) { PrefixMatchLe(k, q); }
    if Le(k.lower, q) { SpansBy(k, q, false, k.lower); }
    if SpansSome(k, q, false) {
      var v :| Spans(k, v) && Compare(v, q) <= 0;
      LeTrans(k.lower, v, q);
    }
  }

  lemma {:induction false} AboveSpans(k: Key, q: bytes)
    requires Le(k.lower, k.upper) && (Compare(q, k.upper) <= 0 || PrefixMatch(k, q))
    ensures SpansSome(k, q, true)
  {
    CompareAntisym(q, k.upper);
    if Compare(q, k.upper) < 0 {
      SpansBy(k, q, true, k.upper);
    } else {
      var v := q + [0];
      if PrefixMatch(k, q) { PrefixMatchLe(k, q); }
      PrefixLe(q, v);
      LeTrans(k.lower, q, v);
      CompareAntisym(q, v);
      assert k.upper == q ==> k.upper <= v;
      SpansBy(k, q, true, v);
    }
  }

  lemma {:induction false} SpansAbove(k: Key, q: bytes, v: bytes)
    requires Le(k.lower, k.upper) && Spans(k, v) && Compare(v, q) > 0
    ensures Compare(q, k.upper) <= 0 || PrefixMatch(k, q)
  {
    CompareAntisym(v, q);
    CompareAntisym(q, k.upper);
    if Le(v, k.upper) {
      LeTrans(q, v, k.upper);
    } else if Compare(q, k.upper) > 0 {
      LeTrans(k.lower, k.upper, q);
      if k.lower <= v { PrefixConvex(k.lower, q, v); } else { PrefixConvex(k.upper, q, v); }
    }
  }

  /**
    When an internal key answers yes: for an equality query if the key spans the
    query itself, otherwise if it spans some value on the right side of it, where
    "less" counts as "less or equal"; for an inequality query unless both strings
    are the query.
   */
  lemma {:induction false} InternalIff(k: Key, q: bytes, s: Strategy)
    requires Le(k.lower, k.upper)
    ensures Consistent(k, q, s, false) <==>
      match s
      case Less => SpansSome(k, q, false)
      case LessEqual => SpansSome(k, q, false)
      case Equal => Spans(k, q)
      case GreaterEqual => SpansSome(k, q, true)
      case Greater => SpansSome(k, q, true)
      case NotEqual => k != Key(q, q)
  {
    BelowIff(k, q);
    if PrefixMatch(k, q) { PrefixMatchLe(k, q); }
    if Compare(q, k.upper) <= 0 || PrefixMatch(k, q) { AboveSpans(k, q); }
    if SpansSome(k, q, true) {
      var v :| Spans(k, v) && Compare(v, q) > 0;
      SpansAbove(k, q, v);
    }
  }

  lemma {:induction false} CoversReaches(k: Key, v: bytes)
    requires Covers(k, v)
    ensures Reaches(k, v)
  {
    CompareAntisym(k.lower, v);
  }

  // --------------------------------------------------------------- page split

  function Max(a: nat, b: nat): nat {
    if a < b then b else a
  }

  /** Both halves of a split are cut at the larger of the two common prefixes. */
  function HalfOf(b: Key, o: Key): Key {
    Truncate(b, Max(Cp(b.lower, b.upper), Cp(o.lower, o.upper)) + 1)
  }

  function HalfKey(side: seq<Key>, other: seq<Key>): Key
    requires side != [] && other != []
  {
    HalfOf(Bounds(side), Bounds(other))
  }

  /** The keys of the two halves. */
  method HalfKeys(left: seq<Key>, right: seq<Key>) returns (lkey: Key, rkey: Key)
    requires left != [] && right != []
    ensures lkey == HalfKey(left, right) && rkey == HalfKey(right, left)
  {
    var l := Fold(left);
    var r := Fold(right);
    var ll := NodeCpLen(l);
    var lr := NodeCpLen(r);
    var c := Max(ll, lr) + 1;
    lkey, rkey := Truncate(l, c), Truncate(r, c);
  }

  /** gbt_var_picksplit, given the entries in the order qsort_arg leaves them in. */
  method PickSplit(sorted: seq<Key>) returns (left: seq<Key>, right: seq<Key>, lkey: Key, rkey: Key)
    requires |sorted| >= 2
    ensures left + right == sorted && left != [] && right != []
    ensures lkey == HalfKey(left, right) && rkey == HalfKey(right, left)
  {
    var half := |sorted| / 2;
    left, right := sorted[..half], sorted[half..];
    lkey, rkey := HalfKeys(left, right);
  }

  /** The entry may stand for values beyond its upper string. */
  predicate Lossy(e: Key) {
    |e.upper| >= Cp(e.lower, e.upper) + 2
  }

  /** s extends p by bytes 0xFF only. */
  predicate OnlyMaxAfter(p: bytes, s: bytes)
    requires p <= s
  {
    forall i :: |p| <= i < |s| ==> s[i] == 255
  }

  /**
    Cutting the greatest upper string `up` of a half at n bytes keeps what entry e
    promises: e is exact, or `up` does not extend e's upper string, or it does so,
    up to the cut, by 0xFF bytes only.
   */
  predicate KeepsEntry(e: Key, up: bytes, n: nat) {
    Lossy(e) && e.upper <= up ==> forall i :: |e.upper| <= i < |up| && i < n ==> up[i] == 255
  }

  /** The same, seen from the half key. */
  predicate HalfKeeps(h: Key, e: Key) {
    Lossy(e) && e.upper < h.upper ==> OnlyMaxAfter(e.upper, h.upper)
  }

  /** How many bytes a split leaves of both strings of a half with bounds b, next to one with bounds o. */
  function CutLength(b: Key, o: Key): nat {
    Max(Cp(b.lower, b.upper), Cp(o.lower, o.upper)) + 2
  }

  lemma {:induction false} HalfKeepsIff(b: Key, o: Key, e: Key)
    ensures HalfKeeps(HalfOf(b, o), e) <==> KeepsEntry(e, b.upper, CutLength(b, o))
  {
    var n, u := CutLength(b, o), HalfOf(b, o).upper;
    assert u <= b.upper && |u| == if |b.upper| < n then |b.upper| else n;
    if e.upper < u {
      assert e.upper <= b.upper;
      assert forall i :: |e.upper| <= i < |u| ==> u[i] == b.upper[i];
    } else if e.upper <= b.upper {
      assert |e.upper| >= |u|;
    }
  }

  /** Only the folded bounds are extreme. */
  lemma {:induction false} ExtremeUnique(b: Key, es: seq<Key>)
    requires es != [] && Extreme(b, es)
    ensures b == Bounds(es)
  {
    var c := Bounds(es);
    BoundsExtreme(es);
    CompareAntisym(b.lower, c.lower);
    CompareAntisym(b.upper, c.upper);
  }

  /** The two strings of a union key: the extreme ones, cut two bytes past their common prefix. */
  lemma {:induction false} UnionIs(es: seq<Key>, b: Key)
    requires es != [] && Extreme(b, es)
    ensures var k, n := UnionKey(es), Cp(b.lower, b.upper) + 2;
      && k.lower <= b.lower && |k.lower| == (if |b.lower| < n then |b.lower| else n)
      && k.upper <= b.upper && |k.upper| == (if |b.upper| < n then |b.upper| else n)
  {
    ExtremeUnique(b, es);
  }

  lemma {:induction false} AboveMaxExtension(s: bytes, v: bytes)
    requires forall i :: 0 <= i < |s| ==> s[i] == 255
    requires Le(s, v)
    ensures s <= v
  {
    if s != [] {
      assert v[0] == 255;
      assert forall i :: 0 <= i < |s[1..]| ==> s[1..][i] == s[i + 1];
      AboveMaxExtension(s[1..], v[1..]);
      assert s == [s[0]] + s[1..] && v == [v[0]] + v[1..];
    }
  }

  /** Comparison ignores a common prefix. */
  lemma {:induction false} CompareAfterPrefix(p: bytes, a: bytes, b: bytes)
    ensures Compare(p + a, p + b) == Compare(a, b)
  {
    if p == [] {
      assert p + a == a && p + b == b;
    } else {
      assert (p + a)[1..] == p[1..] + a && (p + b)[1..] == p[1..] + b;
      CompareAfterPrefix(p[1..], a, b);
    }
  }

  /** The case of HalfCovers in which v lies beyond the untruncated half. */
  lemma {:induction false} HalfCoversBeyond(b: Key, c: nat, e: Key, v: bytes)
    requires Covers(e, v) && Le(b.lower, e.lower) && Le(e.upper, b.upper) && Le(b.lower, b.upper)
    requires c > Cp(b.lower, b.upper) && HalfKeeps(Truncate(b, c), e) && !Le(v, b.upper)
    ensures Covers(Truncate(b, c), v)
  {
    var h := Truncate(b, c);
    if Le(v, e.upper) { LeTrans(v, e.upper, b.upper); assert false; }
    if !(e.upper <= b.upper) { PrefixBelow(e.upper, v, b.upper); assert false; }
    CutKeepsCp(b, c);
    LeTrans(b.lower, e.lower, v);
    PrefixLe(h.lower, b.lower);
    LeTrans(h.lower, b.lower, v);
    CpShrinks(b.lower, e.lower, e.upper);
    CpSharedPrefix(b.lower, e.upper, b.upper, e.upper);
    if e.upper < h.upper {
      MaxExtensionPrefix(e.upper, h.upper, v, b.upper);
    } else {
      assert h.upper <= e.upper;
    }
  }

  lemma {:induction false} BoundsOrdered(b: Key, e: Key)
    requires Le(b.lower, e.lower) && Le(e.lower, e.upper) && Le(e.upper, b.upper)
    ensures Le(b.lower, b.upper)
  {
    LeTrans(b.lower, e.lower, e.upper);
    LeTrans(b.lower, e.upper, b.upper);
  }

  lemma {:induction false} HalfOfCovers(b: Key, o: Key, e: Key, v: bytes)
    requires Covers(e, v) && Le(b.lower, e.lower) && Le(e.upper, b.upper)
    requires HalfKeeps(HalfOf(b, o), e)
    ensures Covers(HalfOf(b, o), v)
  {
    var c := Max(Cp(b.lower, b.upper), Cp(o.lower, o.upper)) + 1;
    LeTrans(b.lower, e.lower, v);
    BoundsOrdered(b, e);
    if Le(v, b.upper) {
      CutKeepsBounded(b, c, v);
    } else {
      HalfCoversBeyond(b, c, e, v);
    }
  }

  lemma {:induction false} HalfCovers(side: seq<Key>, other: seq<Key>, e: Key, v: bytes)
    requires other != [] && e in side && Covers(e, v)
    requires HalfKeeps(HalfKey(side, other), e)
    ensures Covers(HalfKey(side, other), v)
  {
    BoundsExtreme(side);
    HalfOfCovers(Bounds(side), Bounds(other), e, v);
  }

  lemma {:induction false} MaxExtensionPrefix(p: bytes, h: bytes, v: bytes, b: bytes)
    requires p <= h && p <= v && h <= b && !Le(v, b)
    requires OnlyMaxAfter(p, h)
    ensures h <= v
  {
    CompareAntisym(v, b);
    PrefixLe(h, b);
    LeTrans(h, b, v);
    assert h == p + h[|p|..] && v == p + v[|p|..];
    CompareAfterPrefix(p, h[|p|..], v[|p|..]);
    AboveMaxExtension(h[|p|..], v[|p|..]);
  }

  /** The value beyond e's upper string that a half key violating KeepsEntry loses. */
  function Beyond(e: Key, h: Key): bytes
    requires e.upper <= h.upper
  {
    e.upper + seq(|h.upper| - |e.upper|, i => 255)
  }

  lemma {:induction false} BeyondIsLost(h: Key, e: Key)
    requires Le(e.lower, e.upper) && Lossy(e) && Le(h.lower, h.upper)
    requires e.upper < h.upper && !OnlyMaxAfter(e.upper, h.upper)
    ensures Covers(e, Beyond(e, h)) && !Covers(h, Beyond(e, h))
    ensures !(h.lower <= e.upper) && Le(h.lower, e.lower) ==> !Admits(h, Beyond(e, h))
  {
    var v := Beyond(e, h);
    PrefixLe(e.upper, v);
    LeTrans(e.lower, e.upper, v);
    var x, y := h.upper[|e.upper|..], v[|e.upper|..];
    assert h.upper == e.upper + x && v == e.upper + y && x != y && |x| == |y|;
    MaxIsGreatest(x, y);
    CompareAfterPrefix(e.upper, x, y);
    CompareAntisym(h.upper, v);
    AdmitsIff(h, v);
    if h.lower <= v && Le(h.lower, e.lower) {
      LowerBelowUpper(h.lower, e, v);
    }
  }

  lemma {:induction false} MaxIsGreatest(x: bytes, y: bytes)
    requires |x| == |y| && forall i :: 0 <= i < |y| ==> y[i] == 255
    ensures Le(x, y)
  {
    if x != [] { MaxIsGreatest(x[1..], y[1..]); }
  }

  /** A lower string that is a prefix of an extension of e.upper is a prefix of e.upper. */
  lemma {:induction false} LowerBelowUpper(l: bytes, e: Key, v: bytes)
    requires Le(l, e.lower) && Le(e.lower, e.upper) && Lossy(e)
    requires l <= v && e.upper <= v
    ensures l <= e.upper
  {
    if |e.upper| <= |l| {
      assert e.upper <= l;
      PrefixLe(e.upper, l);
      LeTrans(e.upper, l, e.lower);
      CompareAntisym(e.lower, e.upper);
    }
  }

  /**
    A half of a split promises everything its entries promised if and only if
    every entry passes KeepsEntry against the greatest upper string of the half.
   */
  lemma {:induction false} SplitKeepsIff(side: seq<Key>, other: seq<Key>, b: Key, o: Key)
    requires side != [] && other != [] && Extreme(b, side) && Extreme(o, other)
    requires forall e :: e in side ==> Le(e.lower, e.upper)
    ensures (forall e, v :: e in side && Covers(e, v) ==> Covers(HalfKey(side, other), v))
       <==> (forall e :: e in side ==> KeepsEntry(e, b.upper, CutLength(b, o)))
  {
    var h := HalfKey(side, other);
    ExtremeUnique(b, side);
    ExtremeUnique(o, other);
    if forall e :: e in side ==> KeepsEntry(e, b.upper, CutLength(b, o)) {
      forall e, v | e in side && Covers(e, v)
        ensures Covers(h, v)
      {
        HalfKeepsIff(b, o, e);
        HalfCovers(side, other, e, v);
      }
    }
    if forall e, v :: e in side && Covers(e, v) ==> Covers(h, v) {
      forall e | e in side
        ensures KeepsEntry(e, b.upper, CutLength(b, o))
      {
        HalfKeepsIff(b, o, e);
        if !HalfKeeps(h, e) {
          HalfOrdered(side, other);
          BeyondIsLost(h, e);
          assert false;
        }
      }
    }
  }

  /** A half that reaches past entry e still finds everything when its lower string is a prefix of e's upper. */
  lemma {:induction false} PrefixFinds(side: seq<Key>, other: seq<Key>, e: Key, v: bytes)
    requires other != [] && e in side && Covers(e, v) && !HalfKeeps(HalfKey(side, other), e)
    requires HalfKey(side, other).lower <= e.upper && Le(HalfKey(side, other).lower, HalfKey(side, other).upper)
    ensures Admits(HalfKey(side, other), v)
  {
    var h, b := HalfKey(side, other), Bounds(side);
    BoundsExtreme(side);
    PrefixLe(h.lower, b.lower);
    LeTrans(h.lower, b.lower, e.lower);
    LeTrans(h.lower, e.lower, v);
    if Le(v, e.upper) {
      PrefixLe(e.upper, h.upper);
      LeTrans(v, e.upper, h.upper);
    }
    AdmitsIff(h, v);
  }

  /** Entry e meets one of the two conditions under which a half with bounds b, next to bounds o, still finds everything of it. */
  predicate FindsEntry(e: Key, b: Key, o: Key) {
    KeepsEntry(e, b.upper, CutLength(b, o)) || Cut(b.lower, CutLength(b, o)) <= e.upper
  }

  lemma {:induction false} EntryFound(side: seq<Key>, other: seq<Key>, e: Key, v: bytes)
    requires side != [] && other != [] && e in side && Covers(e, v) && FindsEntry(e, Bounds(side), Bounds(other))
    requires Le(HalfKey(side, other).lower, HalfKey(side, other).upper)
    ensures Admits(HalfKey(side, other), v)
  {
    var h := HalfKey(side, other);
    HalfKeepsIff(Bounds(side), Bounds(other), e);
    if HalfKeeps(h, e) {
      HalfCovers(side, other, e, v);
      CoversReaches(h, v);
      AdmitsIff(h, v);
    } else {
      PrefixFinds(side, other, e, v);
    }
  }

  lemma {:induction false} EntryLost(side: seq<Key>, other: seq<Key>, e: Key) returns (v: bytes)
    requires side != [] && other != [] && e in side && Le(e.lower, e.upper) && !FindsEntry(e, Bounds(side), Bounds(other))
    requires Le(HalfKey(side, other).lower, HalfKey(side, other).upper)
    ensures Covers(e, v) && !Admits(HalfKey(side, other), v)
  {
    var h, b := HalfKey(side, other), Bounds(side);
    BoundsExtreme(side);
    HalfKeepsIff(b, Bounds(other), e);
    PrefixLe(h.lower, b.lower);
    LeTrans(h.lower, b.lower, e.lower);
    BeyondIsLost(h, e);
    v := Beyond(e, h);
  }

  /**
    A search of a half never rejects a query satisfied by a value its entries
    promised, if and only if every entry passes KeepsEntry or starts with the
    half's smallest lower string as far as that is kept.
   */
  lemma {:induction false} SplitFindsIff(side: seq<Key>, other: seq<Key>, b: Key, o: Key)
    requires side != [] && other != [] && Extreme(b, side) && Extreme(o, other)
    requires forall e :: e in side ==> Le(e.lower, e.upper)
    ensures (forall e, v :: e in side && Covers(e, v) ==> Admits(HalfKey(side, other), v))
       <==> (forall e :: e in side ==> FindsEntry(e, b, o))
  {
    ExtremeUnique(b, side);
    ExtremeUnique(o, other);
    HalfOrdered(side, other);
    if forall e :: e in side ==> FindsEntry(e, b, o) {
      forall e, v | e in side && Covers(e, v)
        ensures Admits(HalfKey(side, other), v)
      {
        EntryFound(side, other, e, v);
      }
    }
    forall e | e in side && !FindsEntry(e, b, o)
      ensures exists v :: Covers(e, v) && !Admits(HalfKey(side, other), v)
    {
      var v := EntryLost(side, other, e);
    }
  }

  lemma {:induction false} SideOrdered(side: seq<Key>)
    requires side != [] && forall e :: e in side ==> Le(e.lower, e.upper)
    ensures Le(Bounds(side).lower, Bounds(side).upper)
  {
    BoundsExtreme(side);
    var e := side[0];
    BoundsOrdered(Bounds(side), e);
  }

  lemma {:induction false} HalfOrdered(side: seq<Key>, other: seq<Key>)
    requires side != [] && other != []
    requires forall e :: e in side ==> Le(e.lower, e.upper)
    ensures Le(HalfKey(side, other).lower, HalfKey(side, other).upper)
  {
    var b, o := Bounds(side), Bounds(other);
    SideOrdered(side);
    CutKeepsCp(b, Max(Cp(b.lower, b.upper), Cp(o.lower, o.upper)) + 1);
  }

  lemma {:induction false} BoundsOfTwo(a: Key, b: Key)
    ensures Bounds([a, b]) == Widen(a, b)
  {
    assert [a, b][..1] == [a];
  }

  /**
    Splitting four internal entries can lose a value.  The first entry is the
    union key of [0, 0] and v; after the split an equality search for v rejects
    the left half, although v lies below its first entry.
   */
  lemma {:induction false} SplitLosesValue()
    ensures var v, low := [1, 1, 2], [0, 0];
            var k1 := UnionKey([Key(low, low), Key(v, v)]);
            var k2 := Key([1, 1, 0], [1, 1, 1]);
            var k3, k4 := Key([2, 0], [2, 1]), Key([2, 1], [2, 2]);
            && Covers(k1, v)
            && !Consistent(HalfKey([k1, k2], [k3, k4]), v, Equal, false)
  {
    var v, low: bytes := [1, 1, 2], [0, 0];
    var k0, kv := Key(low, low), Key(v, v);
    LeafCovers(v);
    UnionCovers([k0, kv], kv, v);
    BoundsOfTwo(k0, kv);
    CpUnique(low, v, 0);
    assert UnionKey([k0, kv]) == Key(low, [1, 1]);
    SplitLosesValueHalf(low, v);
  }

  lemma {:induction false} LosingSides()
    ensures Bounds([Key([0, 0], [1, 1]), Key([1, 1, 0], [1, 1, 1])]) == Key([0, 0], [1, 1, 1])
    ensures Bounds([Key([2, 0], [2, 1]), Key([2, 1], [2, 2])]) == Key([2, 0], [2, 2])
  {
    var p: bytes := [1, 1];
    BoundsOfTwo(Key([0, 0], [1, 1]), Key([1, 1, 0], [1, 1, 1]));
    BoundsOfTwo(Key([2, 0], [2, 1]), Key([2, 1], [2, 2]));
    assert [1, 1] == p + [] && [1, 1, 1] == p + [1];
    CompareAfterPrefix(p, [], [1]);
    assert [2, 0] == [2] + [0] && [2, 1] == [2] + [1] && [2, 2] == [2] + [2];
    CompareAfterPrefix([2], [0], [1]);
    CompareAfterPrefix([2], [1], [2]);
  }

  lemma {:induction false} SplitLosesValueHalf(low: bytes, v: bytes)
    requires low == [0, 0] && v == [1, 1, 2]
    ensures var k1, k2 := Key(low, [1, 1]), Key([1, 1, 0], [1, 1, 1]);
            var k3, k4 := Key([2, 0], [2, 1]), Key([2, 1], [2, 2]);
            !Consistent(HalfKey([k1, k2], [k3, k4]), v, Equal, false)
  {
    var up: bytes := [1, 1, 1];
    LosingSides();
    CpUnique(low, up, 0);
    CpUnique([2, 0], [2, 2], 1);
    assert HalfOf(Key(low, up), Key([2, 0], [2, 2])) == Key(low, up);
    assert up == [1, 1] + [1] && v == [1, 1] + [2];
    CompareAfterPrefix([1, 1], [2], [1]);
    assert v[0] != low[0] && v[2] != up[2];
  }

  // ------------------------------------------------------------------- trees

  /** How a stored key came about: nested unions and page splits over values. */
  datatype Origin =
    | Value(v: bytes)
    | Joined(parts: seq<Origin>)
    | Half(parts: seq<Origin>, others: seq<Origin>)

  ghost predicate Sound(d: Origin)
    decreases d, 1
  {
    match d
    case Value(_) => true
    case Joined(ps) => ps != [] && AllSound(ps)
    case Half(ps, os) =>
      && ps != [] && os != [] && AllSound(ps) && AllSound(os)
      && var b, o := Bounds(KeysOf(ps)), Bounds(KeysOf(os));
         forall e :: e in KeysOf(ps) ==> KeepsEntry(e, b.upper, CutLength(b, o))
  }

  ghost predicate AllSound(ds: seq<Origin>)
    decreases ds, 0
  {
    forall i :: 0 <= i < |ds| ==> Sound(ds[i])
  }

  function KeyOf(d: Origin): Key
    decreases d, 1
  {
    match d
    case Value(v) => Key(v, v)
    case Joined(ps) => if ps == [] then Key([], []) else UnionKey(KeysOf(ps))
    case Half(ps, os) =>
      if ps == [] || os == [] then Key([], []) else HalfKey(KeysOf(ps), KeysOf(os))
  }

  function KeysOf(ds: seq<Origin>): (ks: seq<Key>)
    ensures |ks| == |ds|
    decreases ds, 0
  {
    seq(|ds|, i requires 0 <= i < |ds| => KeyOf(ds[i]))
  }

  ghost predicate Holds(d: Origin, v: bytes)
    decreases d
  {
    match d
    case Value(w) => v == w
    case Joined(ps) => exists i :: 0 <= i < |ps| && Holds(ps[i], v)
    case Half(ps, _) => exists i :: 0 <= i < |ps| && Holds(ps[i], v)
  }

  /** The invariant survives any nesting of unions and safe splits. */
  lemma {:induction false} OriginCovers(d: Origin, v: bytes)
    requires Sound(d) && Holds(d, v)
    ensures Covers(KeyOf(d), v)
    decreases d
  {
    match d
    case Value(_) => LeafCovers(v);
    case Joined(ps) =>
      var i :| 0 <= i < |ps| && Holds(ps[i], v);
      OriginCovers(ps[i], v);
      UnionCovers(KeysOf(ps), KeysOf(ps)[i], v);
    case Half(ps, os) =>
      var i :| 0 <= i < |ps| && Holds(ps[i], v);
      OriginCovers(ps[i], v);
      HalfKeepsIff(Bounds(KeysOf(ps)), Bounds(KeysOf(os)), KeysOf(ps)[i]);
      HalfCovers(KeysOf(ps), KeysOf(os), KeysOf(ps)[i], v);
  }

  /** An index: leaf entries and internal entries, each with the origin of its key. */
  datatype Tree = Entry(v: bytes) | Inner(origin: Origin, children: seq<Tree>)

  function Leaves(t: Tree): seq<bytes>
    decreases t, 1
  {
    match t
    case Entry(v) => [v]
    case Inner(_, cs) => LeavesAll(cs)
  }

  function LeavesAll(ts: seq<Tree>): seq<bytes>
    decreases ts, 0
  {
    if ts == [] then [] else Leaves(ts[0]) + LeavesAll(ts[1..])
  }

  /** Every internal key was made from at least the values below it. */
  ghost predicate WellKeyed(t: Tree)
    decreases t
  {
    t.Inner? ==>
      && Sound(t.origin) && !t.origin.Value?
      && (forall v :: v in LeavesAll(t.children) ==> Holds(t.origin, v))
      && (forall i :: 0 <= i < |t.children| ==> WellKeyed(t.children[i]))
  }

  /** GiST search: descend exactly into the entries that answer consistent. */
  function Search(t: Tree, q: bytes, s: Strategy): seq<bytes>
    decreases t, 1
  {
    match t
    case Entry(v) => if Consistent(Key(v, v), q, s, true) then [v] else []
    case Inner(d, cs) => if Consistent(KeyOf(d), q, s, false) then SearchAll(cs, q, s) else []
  }

  function SearchAll(ts: seq<Tree>, q: bytes, s: Strategy): seq<bytes>
    decreases ts, 0
  {
    if ts == [] then [] else Search(ts[0], q, s) + SearchAll(ts[1..], q, s)
  }

  function Matching(vs: seq<bytes>, q: bytes, s: Strategy): seq<bytes> {
    if vs == [] then []
    else (if Satisfies(vs[0], q, s) then [vs[0]] else []) + Matching(vs[1..], q, s)
  }

  lemma {:induction false} MatchingSplits(a: seq<bytes>, b: seq<bytes>, q: bytes, s: Strategy)
    ensures Matching(a + b, q, s) == Matching(a, q, s) + Matching(b, q, s)
  {
    if a == [] {
      assert a + b == b;
    } else {
      assert (a + b)[1..] == a[1..] + b;
      MatchingSplits(a[1..], b, q, s);
    }
  }

  lemma {:induction false} NoneMatching(vs: seq<bytes>, q: bytes, s: Strategy)
    requires forall v :: v in vs ==> !Satisfies(v, q, s)
    ensures Matching(vs, q, s) == []
  {
    if vs != [] { NoneMatching(vs[1..], q, s); }
  }

  /** A search returns exactly the values that satisfy the condition, in index order. */
  lemma {:induction false} SearchExact(t: Tree, q: bytes, s: Strategy)
    requires WellKeyed(t)
    ensures Search(t, q, s) == Matching(Leaves(t), q, s)
    decreases t, 1
  {
    match t
    case Entry(v) =>
      LeafExact(v, q, s);
    case Inner(d, cs) =>
      if Consistent(KeyOf(d), q, s, false) {
        SearchAllExact(cs, q, s);
      } else {
        forall v | v in LeavesAll(cs)
          ensures !Satisfies(v, q, s)
        {
          OriginCovers(d, v);
          CoversReaches(KeyOf(d), v);
          AdmitsIff(KeyOf(d), v);
        }
        NoneMatching(LeavesAll(cs), q, s);
      }
  }

  lemma {:induction false} SearchAllExact(ts: seq<Tree>, q: bytes, s: Strategy)
    requires forall i :: 0 <= i < |ts| ==> WellKeyed(ts[i])
    ensures SearchAll(ts, q, s) == Matching(LeavesAll(ts), q, s)
    decreases ts, 0
  {
    if ts != [] {
      SearchExact(ts[0], q, s);
      SearchAllExact(ts[1..], q, s);
      MatchingSplits(Leaves(ts[0]), LeavesAll(ts[1..]), q, s);
    }
  }
}
