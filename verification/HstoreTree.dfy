/**
  Trees of signature keys as the index operations build them: leaf keys by
  compression, inner keys by unions and by page splits over any keys made before.
 */
module HstoreTree {
  import opened Bytes
  import opened Counting
  import opened HstoreLayout
  import opened HstoreOrder
  import opened HstoreGist
  import opened HstoreSplit

  // ----------------------------------------------------------- where keys come from

  /** How a key came about: from one row, or from other keys. */
  datatype Origin = FromRow(ps: seq<Pair>) | FromKeys(parts: seq<Origin>)

  /** Some row the key was made from sets bit i. */
  ghost predicate BitOf(d: Origin, crc: bytes -> nat, siglen: nat, i: nat)
    requires siglen > 0
  {
    match d
    case FromRow(ps) => SetByAny(crc, ps, |ps|, siglen, i)
    case FromKeys(parts) => exists j :: 0 <= j < |parts| && BitOf(parts[j], crc, siglen, i)
  }

  /** The key has exactly the bits of its rows. */
  ghost predicate Denotes(k: Key, d: Origin, crc: bytes -> nat, siglen: nat)
    requires siglen > 0
  {
    Sized(k, siglen) && forall i :: 0 <= i < 8 * siglen ==> (Has(k, siglen, i) <==> BitOf(d, crc, siglen, i))
  }

  ghost predicate AllDenote(es: seq<Key>, ds: seq<Origin>, crc: bytes -> nat, siglen: nat)
    requires siglen > 0
  {
    |es| == |ds| && forall j :: 0 <= j < |es| ==> Denotes(es[j], ds[j], crc, siglen)
  }

  ghost predicate HoldsRow(d: Origin, ps: seq<Pair>) {
    match d
    case FromRow(qs) => qs == ps
    case FromKeys(parts) => exists j :: 0 <= j < |parts| && HoldsRow(parts[j], ps)
  }

  lemma {:induction false} RowBits(d: Origin, ps: seq<Pair>, crc: bytes -> nat, siglen: nat, i: nat)
    requires siglen > 0 && HoldsRow(d, ps) && SetByAny(crc, ps, |ps|, siglen, i)
    ensures BitOf(d, crc, siglen, i)
  {
    if d.FromKeys? {
      var j :| 0 <= j < |d.parts| && HoldsRow(d.parts[j], ps);
      RowBits(d.parts[j], ps, crc, siglen, i);
    }
  }

  /** A key has the bits of every row it was made from. */
  lemma {:induction false} DenotesSound(k: Key, d: Origin, ps: seq<Pair>, crc: bytes -> nat, siglen: nat)
    requires siglen > 0 && Denotes(k, d, crc, siglen) && HoldsRow(d, ps)
    ensures Sound(k, crc, ps, siglen)
  {
    forall j | 0 <= j < |ps|
      ensures PairMaybe(k, crc, ps[j], siglen)
    {
      var i := HashVal(crc, ps[j].key, siglen);
      assert SetBy(crc, ps[j], siglen, i);
      RowBits(d, ps, crc, siglen, i);
      if ps[j].val.Text? {
        var v := HashVal(crc, ps[j].val.text, siglen);
        assert SetBy(crc, ps[j], siglen, v);
        RowBits(d, ps, crc, siglen, v);
      }
    }
  }

  /** The key of an index tuple for one row. */
  method LeafKey(hs: Mem, crc: bytes -> nat, siglen: nat, ghost ps: seq<Pair>) returns (k: Key)
    requires Packed(hs, ps) && siglen > 0
    ensures Denotes(k, FromRow(ps), crc, siglen)
  {
    k := CompressLeaf(hs, crc, siglen, ps);
  }

  lemma {:induction false} AnyDenotes(es: seq<Key>, ds: seq<Origin>, crc: bytes -> nat, siglen: nat, i: nat)
    requires siglen > 0 && AllDenote(es, ds, crc, siglen) && i < 8 * siglen
    ensures AnyHas(es, |es|, siglen, i) <==> BitOf(FromKeys(ds), crc, siglen, i)
  {
  }

  /** The key above the given keys: their union, compressed. */
  method InnerKey(es: seq<Key>, ghost ds: seq<Origin>, ghost crc: bytes -> nat, siglen: nat) returns (k: Key)
    requires siglen > 0 && AllDenote(es, ds, crc, siglen)
    ensures Denotes(k, FromKeys(ds), crc, siglen)
  {
    var u := Union(es, siglen);
    k := CompressInner(u, siglen);
    forall i | 0 <= i < 8 * siglen
      ensures Has(k, siglen, i) <==> BitOf(FromKeys(ds), crc, siglen, i)
    {
      AnyDenotes(es, ds, crc, siglen, i);
    }
  }

  /** The elements at the given offsets. */
  function Pick<T>(ds: seq<T>, offs: seq<nat>): (r: seq<T>)
    requires InRange(offs, |ds|)
    ensures |r| == |offs| && forall x :: 0 <= x < |offs| ==> r[x] == ds[offs[x]]
  {
    seq(|offs|, x requires 0 <= x < |offs| => ds[offs[x]])
  }

  lemma {:induction false} ListedDenotes(offs: seq<nat>, es: seq<Key>, ds: seq<Origin>, crc: bytes -> nat, siglen: nat, i: nat)
    requires siglen > 0 && AllDenote(es, ds, crc, siglen) && InRange(offs, |es|) && i < 8 * siglen
    ensures Sizes(es, siglen)
    ensures AnyListed(offs, es, siglen, i) <==> BitOf(FromKeys(Pick(ds, offs)), crc, siglen, i)
  {
    var picked := Pick(ds, offs);
    if AnyListed(offs, es, siglen, i) {
      var x :| 0 <= x < |offs| && Has(es[offs[x]], siglen, i);
      assert BitOf(picked[x], crc, siglen, i);
    }
    if BitOf(FromKeys(picked), crc, siglen, i) {
      var x :| 0 <= x < |picked| && BitOf(picked[x], crc, siglen, i);
      assert Has(es[offs[x]], siglen, i);
    }
  }

  /** The compressed key of one side of a page split. */
  method SideDenotes(d: Side, es: seq<Key>, ghost ds: seq<Origin>, ghost crc: bytes -> nat, siglen: nat) returns (k: Key)
    requires siglen > 0 && AllDenote(es, ds, crc, siglen)
    requires Sizes(es, siglen) && Sized(d.key, siglen) && InRange(d.offs, |es|)
    requires forall i :: 0 <= i < 8 * siglen ==> (Has(d.key, siglen, i) <==> AnyListed(d.offs, es, siglen, i))
    ensures Denotes(k, FromKeys(Pick(ds, d.offs)), crc, siglen)
  {
    k := CompressInner(d.key, siglen);
    forall i | 0 <= i < 8 * siglen
      ensures Has(k, siglen, i) <==> BitOf(FromKeys(Pick(ds, d.offs)), crc, siglen, i)
    {
      ListedDenotes(d.offs, es, ds, crc, siglen, i);
    }
  }

  // ----------------------------------------------------------------------- trees

  /** Rows with their leaf keys, and inner keys over any number of subtrees. */
  datatype Tree = Row(key: Key, pairs: seq<Pair>) | Inner(key: Key, origin: Origin, kids: seq<Tree>)

  function OriginOf(t: Tree): Origin { if t.Row? then FromRow(t.pairs) else t.origin }

  ghost predicate HasRow(t: Tree, ps: seq<Pair>) {
    match t
    case Row(_, pairs) => pairs == ps
    case Inner(_, _, kids) => exists i :: 0 <= i < |kids| && HasRow(kids[i], ps)
  }

  /** Every key was built by the operations, from at least the rows below it. */
  ghost predicate Built(t: Tree, crc: bytes -> nat, siglen: nat)
    requires siglen > 0
  {
    && Denotes(t.key, OriginOf(t), crc, siglen)
    && match t
       case Row(_, pairs) => Sorted(pairs)
       case Inner(_, origin, kids) =>
         && (forall i :: 0 <= i < |kids| ==> Built(kids[i], crc, siglen))
         && (forall i, ps :: 0 <= i < |kids| && HasRow(kids[i], ps) ==> HoldsRow(origin, ps))
  }

  ghost predicate AllBuilt(ts: seq<Tree>, crc: bytes -> nat, siglen: nat)
    requires siglen > 0
  {
    forall i :: 0 <= i < |ts| ==> Built(ts[i], crc, siglen)
  }

  lemma {:induction false} BuiltHolds(t: Tree, crc: bytes -> nat, siglen: nat, ps: seq<Pair>)
    requires siglen > 0 && Built(t, crc, siglen) && HasRow(t, ps)
    ensures HoldsRow(OriginOf(t), ps) && Sorted(ps)
  {
    if t.Inner? {
      var i :| 0 <= i < |t.kids| && HasRow(t.kids[i], ps);
      BuiltHolds(t.kids[i], crc, siglen, ps);
    }
  }

  function KeysOf(ts: seq<Tree>): (es: seq<Key>)
    ensures |es| == |ts| && forall i :: 0 <= i < |ts| ==> es[i] == ts[i].key
  {
    seq(|ts|, i requires 0 <= i < |ts| => ts[i].key)
  }

  function OriginsOf(ts: seq<Tree>): (ds: seq<Origin>)
    ensures |ds| == |ts| && forall i :: 0 <= i < |ts| ==> ds[i] == OriginOf(ts[i])
  {
    seq(|ts|, i requires 0 <= i < |ts| => OriginOf(ts[i]))
  }

  /** A node over built subtrees is built, if its key denotes their origins. */
  lemma {:induction false} NodeBuilt(key: Key, kids: seq<Tree>, crc: bytes -> nat, siglen: nat)
    requires siglen > 0 && AllBuilt(kids, crc, siglen) && Denotes(key, FromKeys(OriginsOf(kids)), crc, siglen)
    ensures Built(Inner(key, FromKeys(OriginsOf(kids)), kids), crc, siglen)
  {
    var ds := OriginsOf(kids);
    forall i, ps | 0 <= i < |kids| && HasRow(kids[i], ps)
      ensures HoldsRow(FromKeys(ds), ps)
    {
      BuiltHolds(kids[i], crc, siglen, ps);
      assert HoldsRow(ds[i], ps);
    }
  }

  /** A new page over the given subtrees. */
  method NewNode(kids: seq<Tree>, ghost crc: bytes -> nat, siglen: nat) returns (t: Tree)
    requires siglen > 0 && AllBuilt(kids, crc, siglen)
    ensures t.Inner? && t.kids == kids && Built(t, crc, siglen)
  {
    var k := InnerKey(KeysOf(kids), OriginsOf(kids), crc, siglen);
    NodeBuilt(k, kids, crc, siglen);
    t := Inner(k, FromKeys(OriginsOf(kids)), kids);
  }

  lemma {:induction false} OffsetPlaced(l: seq<nat>, r: seq<nat>, n: nat, j: nat)
    requires 1 <= j < n
    requires Occurs(l, |l|, j) + Occurs(r, |r|, j) == One(1 <= j < n)
    ensures j in l || j in r
  {
    OccursMember(l, |l|, j);
    OccursMember(r, |r|, j);
    assert l[..|l|] == l && r[..|r|] == r;
  }

  lemma {:induction false} OffsetsStart(l: seq<nat>, r: seq<nat>, n: nat, x: nat)
    requires x < |l| && forall j: nat :: Occurs(l, |l|, j) + Occurs(r, |r|, j) == One(1 <= j < n)
    ensures 1 <= l[x] < n
  {
    OccursMember(l, |l|, l[x]);
    assert l[..|l|] == l && l[x] in l;
    assert Occurs(l, |l|, l[x]) + Occurs(r, |r|, l[x]) == One(1 <= l[x] < n);
  }

  /** The node made of one side of a split. */
  method SideNode(d: Side, kids: seq<Tree>, ghost crc: bytes -> nat, siglen: nat) returns (t: Tree)
    requires siglen > 0 && AllBuilt(kids, crc, siglen)
    requires Sizes(KeysOf(kids), siglen) && Sized(d.key, siglen) && InRange(d.offs, |kids|)
    requires forall i :: 0 <= i < 8 * siglen ==> (Has(d.key, siglen, i) <==> AnyListed(d.offs, KeysOf(kids), siglen, i))
    ensures t.Inner? && t.kids == Pick(kids, d.offs) && Built(t, crc, siglen)
  {
    var picked := Pick(kids, d.offs);
    var k := SideDenotes(d, KeysOf(kids), OriginsOf(kids), crc, siglen);
    assert Pick(OriginsOf(kids), d.offs) == OriginsOf(picked);
    NodeBuilt(k, picked, crc, siglen);
    t := Inner(k, FromKeys(OriginsOf(picked)), picked);
  }

  /** Each subtree from offset 1 on is under one of the two nodes, and nothing else is. */
  ghost predicate Divides(kids: seq<Tree>, l: Tree, r: Tree) {
    && kids != [] && l.Inner? && r.Inner?
    && (forall j :: 1 <= j < |kids| ==> kids[j] in l.kids || kids[j] in r.kids)
    && (forall x :: x in l.kids || x in r.kids ==> x in kids[1..])
  }

  lemma {:induction false} PickedDivide(kids: seq<Tree>, lo: seq<nat>, ro: seq<nat>, l: Tree, r: Tree)
    requires kids != [] && InRange(lo, |kids|) && InRange(ro, |kids|)
    requires l.Inner? && l.kids == Pick(kids, lo) && r.Inner? && r.kids == Pick(kids, ro)
    requires forall j: nat :: Occurs(lo, |lo|, j) + Occurs(ro, |ro|, j) == One(1 <= j < |kids|)
    ensures Divides(kids, l, r)
  {
    forall j | 1 <= j < |kids|
      ensures kids[j] in l.kids || kids[j] in r.kids
    {
      OffsetPlaced(lo, ro, |kids|, j);
      if j in lo {
        var x :| 0 <= x < |lo| && lo[x] == j;
        assert l.kids[x] == kids[j];
      } else {
        var x :| 0 <= x < |ro| && ro[x] == j;
        assert r.kids[x] == kids[j];
      }
    }
    forall x | x in l.kids || x in r.kids
      ensures x in kids[1..]
    {
      if x in l.kids {
        var i :| 0 <= i < |l.kids| && l.kids[i] == x;
        OffsetsStart(lo, ro, |kids|, i);
        assert kids[1..][lo[i] - 1] == x;
      } else {
        var i :| 0 <= i < |r.kids| && r.kids[i] == x;
        OffsetsStart(ro, lo, |kids|, i);
        assert kids[1..][ro[i] - 1] == x;
      }
    }
  }

  /**
    A page split: the subtrees from offset 1 on go to two new nodes, both built,
    and none is lost.
   */
  method SplitNode(kids: seq<Tree>, ghost crc: bytes -> nat, siglen: nat, wish: (nat, nat, nat, nat) -> bool)
    returns (l: Tree, r: Tree)
    requires siglen > 0 && |kids| >= 3 && AllBuilt(kids, crc, siglen)
    ensures Divides(kids, l, r) && Built(l, crc, siglen) && Built(r, crc, siglen) && l.kids != [] && r.kids != []
  {
    var es := KeysOf(kids);
    var a, b := PickSplit(es, siglen, wish);
    l := SideNode(a, kids, crc, siglen);
    r := SideNode(b, kids, crc, siglen);
    PickedDivide(kids, a.offs, b.offs, l, r);
  }

  // -------------------------------------------------------------------- searching

  /** A search reaches the row: the consistent function admits every key on the way. */
  ghost predicate Reaches(t: Tree, crc: bytes -> nat, q: Query, siglen: nat, ps: seq<Pair>)
    requires siglen > 0 && Built(t, crc, siglen)
  {
    && Maybe(t.key, crc, q, siglen)
    && match t
       case Row(_, pairs) => pairs == ps
       case Inner(_, _, kids) => exists i :: 0 <= i < |kids| && Reaches(kids[i], crc, q, siglen, ps)
  }

  /** In a built tree of any depth no row that satisfies the query is ever pruned. */
  lemma {:induction false} NeverPruned(t: Tree, crc: bytes -> nat, q: Query, siglen: nat, ps: seq<Pair>)
    requires siglen > 0 && Built(t, crc, siglen) && HasRow(t, ps)
    requires Satisfies(ToMap(ps), q) && (q.QContains? ==> Sorted(q.tmpl))
    ensures Reaches(t, crc, q, siglen, ps)
  {
    BuiltHolds(t, crc, siglen, ps);
    DenotesSound(t.key, OriginOf(t), ps, crc, siglen);
    SoundAdmits(t.key, crc, ps, q, siglen);
    if t.Inner? {
      var i :| 0 <= i < |t.kids| && HasRow(t.kids[i], ps);
      NeverPruned(t.kids[i], crc, q, siglen, ps);
    }
  }
}
