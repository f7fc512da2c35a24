/**
  Hamming distance between signature keys and the split of an overfull page of
  the GiST index on hstore.
 */
module HstoreSplit {
  import opened Counting
  import opened HstoreGist

  // ------------------------------------------------------------------- distance

  function One(b: bool): nat { if b then 1 else 0 }

  /** Set bits among the first n. */
  function Ones(s: Sign, n: nat): nat
    requires n <= 8 * |s|
  {
    if n == 0 then 0 else Ones(s, n - 1) + One(Bit(s, n - 1))
  }

  /** Positions among the first n where the denoted bit sets differ. */
  function Distance(a: Key, b: Key, siglen: nat, n: nat): nat
    requires Sized(a, siglen) && Sized(b, siglen) && n <= 8 * siglen
  {
    if n == 0 then 0
    else Distance(a, b, siglen, n - 1) + One(Has(a, siglen, n - 1) != Has(b, siglen, n - 1))
  }

  function SumBit(o: Octet): nat {
    One(o[0]) + One(o[1]) + One(o[2]) + One(o[3]) + One(o[4]) + One(o[5]) + One(o[6]) + One(o[7])
  }

  /** Set bits among the first k of one byte. */
  function OctetTo(o: Octet, k: nat): nat
    requires k <= 8
    decreases k, o
  {
    if k == 0 then 0 else OctetTo(o, k - 1) + One(o[k - 1])
  }

  lemma {:induction false} OctetSum(o: Octet)
    ensures OctetTo(o, 8) == SumBit(o)
  {
    assert OctetTo(o, 1) == OctetTo(o, 0) + One(o[0]) && OctetTo(o, 2) == OctetTo(o, 1) + One(o[1]);
    assert OctetTo(o, 3) == OctetTo(o, 2) + One(o[2]) && OctetTo(o, 4) == OctetTo(o, 3) + One(o[3]);
    assert OctetTo(o, 5) == OctetTo(o, 4) + One(o[4]) && OctetTo(o, 6) == OctetTo(o, 5) + One(o[5]);
    assert OctetTo(o, 7) == OctetTo(o, 6) + One(o[6]) && OctetTo(o, 8) == OctetTo(o, 7) + One(o[7]);
  }

  lemma {:induction false} OctetOnes(s: Sign, j: nat, k: nat)
    requires j < |s| && k <= 8
    ensures Ones(s, 8 * j + k) == Ones(s, 8 * j) + OctetTo(s[j], k)
  {
    if k > 0 {
      OctetOnes(s, j, k - 1);
      assert (8 * j + (k - 1)) / 8 == j && (8 * j + (k - 1)) % 8 == k - 1;
    }
  }

  /** sizebitvec: the set bits, byte by byte. */
  method SizeBitVec(s: Sign) returns (size: nat)
    ensures size == Ones(s, 8 * |s|)
  {
    size := 0;
    for i := 0 to |s|
      invariant size == Ones(s, 8 * i)
    {
      OctetOnes(s, i, 8);
      OctetSum(s[i]);
      size := size + SumBit(s[i]);
    }
  }

  lemma {:induction false} DistanceToFull(s: Sign, n: nat)
    requires n <= 8 * |s|
    ensures Distance(AllTrue, Signed(s), |s|, n) == n - Ones(s, n)
    ensures Distance(Signed(s), AllTrue, |s|, n) == n - Ones(s, n)
  {
    if n > 0 { DistanceToFull(s, n - 1); }
  }

  lemma {:induction false} DistanceFull(siglen: nat, n: nat)
    requires n <= 8 * siglen
    ensures Distance(AllTrue, AllTrue, siglen, n) == 0
  {
    if n > 0 { DistanceFull(siglen, n - 1); }
  }

  /** hemdist: the Hamming distance of the denoted bit sets, in every representation. */
  method HemDist(a: Key, b: Key, siglen: nat) returns (d: nat)
    requires Sized(a, siglen) && Sized(b, siglen)
    ensures d == Distance(a, b, siglen, 8 * siglen)
  {
    if a.AllTrue? {
      if b.AllTrue? {
        DistanceFull(siglen, 8 * siglen);
        return 0;
      }
      var size := SizeBitVec(b.sign);
      DistanceToFull(b.sign, 8 * siglen);
      return 8 * siglen - size;
    } else if b.AllTrue? {
      var size := SizeBitVec(a.sign);
      DistanceToFull(a.sign, 8 * siglen);
      return 8 * siglen - size;
    }
    d := 0;
    for i := 0 to 8 * siglen
      invariant d == Distance(a, b, siglen, i)
    {
      if Bit(a.sign, i) != Bit(b.sign, i) {
        d := d + 1;
      }
    }
  }

  // ---------------------------------------------------------------------- costs

  datatype SplitCost = SplitCost(pos: nat, cost: nat)

  /** How often offset j occurs among the first n. */
  function PosCount(s: seq<SplitCost>, n: nat, j: nat): nat
    requires n <= |s|
  {
    if n == 0 then 0 else PosCount(s, n - 1, j) + One(s[n - 1].pos == j)
  }

  /** Every offset from 1 to n occurs exactly once, and nothing else. */
  ghost predicate Once(s: seq<SplitCost>, n: nat) {
    forall j: nat :: PosCount(s, |s|, j) == One(1 <= j <= n)
  }

  predicate Ascending(s: seq<SplitCost>) {
    forall i, j :: 0 <= i < j < |s| ==> s[i].cost <= s[j].cost
  }

  lemma {:induction false} PosSame(a: seq<SplitCost>, b: seq<SplitCost>, n: nat, j: nat)
    requires n <= |a| && n <= |b| && forall i :: 0 <= i < n ==> a[i] == b[i]
    ensures PosCount(a, n, j) == PosCount(b, n, j)
  {
    if n > 0 { PosSame(a, b, n - 1, j); }
  }

  lemma {:induction false} PosInsert(s: seq<SplitCost>, k: nat, y: SplitCost, n: nat, j: nat)
    requires k <= n <= |s|
    ensures PosCount(s[..k] + [y] + s[k..], n + 1, j) == PosCount(s, n, j) + One(y.pos == j)
  {
    var t := s[..k] + [y] + s[k..];
    if n == k {
      PosSame(s, t, k, j);
    } else {
      PosInsert(s, k, y, n - 1, j);
      assert t[n] == s[n - 1];
    }
  }

  function CostSlot(s: seq<SplitCost>, n: nat, cost: nat): (k: nat)
    requires n <= |s| && Ascending(s)
    ensures k <= n && forall i :: k <= i < n ==> s[i].cost > cost
    ensures forall i :: 0 <= i < k ==> s[i].cost <= cost
  {
    if n == 0 || s[n - 1].cost <= cost then n else CostSlot(s, n - 1, cost)
  }

  lemma {:induction false} InsertOnce(s: seq<SplitCost>, k: nat, y: SplitCost)
    requires k <= |s| && Once(s, |s|) && y.pos == |s| + 1
    ensures Once(s[..k] + [y] + s[k..], |s| + 1)
  {
    var t := s[..k] + [y] + s[k..];
    forall j: nat
      ensures PosCount(t, |t|, j) == One(1 <= j <= |s| + 1)
    {
      PosInsert(s, k, y, |s|, j);
    }
  }

  /** Collects and sorts the costs of offsets 1 to n; costs are compared, ties are open. */
  method CostVector(es: seq<Key>, siglen: nat, l: Key, r: Key) returns (s: seq<SplitCost>)
    requires |es| >= 1 && Sized(l, siglen) && Sized(r, siglen) && Sizes(es, siglen)
    ensures |s| == |es| - 1 && Once(s, |es| - 1) && Ascending(s)
  {
    s := [];
    var j := 1;
    while j < |es|
      invariant 1 <= j <= |es| && |s| == j - 1 && Once(s, j - 1) && Ascending(s)
    {
      var alpha := HemDist(l, es[j], siglen);
      var beta := HemDist(r, es[j], siglen);
      var cost := if alpha < beta then beta - alpha else alpha - beta;
      var k := CostSlot(s, |s|, cost);
      InsertOnce(s, k, SplitCost(j, cost));
      s := s[..k] + [SplitCost(j, cost)] + s[k..];
      j := j + 1;
    }
  }

  // ---------------------------------------------------------------------- seeds

  /** The two entries farthest apart; the last entry is not considered. */
  method Seeds(es: seq<Key>, siglen: nat) returns (s1: nat, s2: nat)
    requires |es| >= 3 && Sizes(es, siglen)
    ensures 1 <= s1 < s2 < |es|
    ensures |es| > 3 ==> s2 <= |es| - 2
    ensures forall k, j :: 1 <= k < j <= |es| - 2 ==> Apart(es, k, j, siglen) <= Apart(es, s1, s2, siglen)
  {
    var maxoff := |es| - 2;
    var waste := -1;
    s1, s2 := 0, 0;
    var k := 1;
    while k < maxoff
      invariant 1 <= k <= maxoff
      invariant if k == 1 then s1 == 0 && waste == -1 else 1 <= s1 < s2 <= maxoff && waste == Apart(es, s1, s2, siglen)
      invariant forall k', j' :: 1 <= k' < k && k' < j' <= maxoff ==> Apart(es, k', j', siglen) <= waste
    {
      s1, s2, waste := SeedRow(es, siglen, k, maxoff, s1, s2, waste);
      k := k + 1;
    }
    if s1 == 0 || s2 == 0 {
      s1, s2 := 1, 2;
    }
  }

  function Apart(es: seq<Key>, k: nat, j: nat, siglen: nat): nat
    requires k < |es| && j < |es| && Sized(es[k], siglen) && Sized(es[j], siglen)
  {
    Distance(es[k], es[j], siglen, 8 * siglen)
  }

  /** The inner loop of the seed search. */
  method SeedRow(es: seq<Key>, siglen: nat, k: nat, maxoff: nat, s1: nat, s2: nat, waste: int)
    returns (s1': nat, s2': nat, waste': int)
    requires 1 <= k < maxoff < |es| && Sizes(es, siglen)
    requires if waste == -1 then s1 == 0 else 1 <= s1 < s2 <= maxoff && waste == Apart(es, s1, s2, siglen)
    ensures 1 <= s1' < s2' <= maxoff && waste' == Apart(es, s1', s2', siglen) && waste' >= waste
    ensures forall j :: k < j <= maxoff ==> Apart(es, k, j, siglen) <= waste'
  {
    s1', s2', waste' := s1, s2, waste;
    var j := k + 1;
    while j <= maxoff
      invariant k + 1 <= j <= maxoff + 1 && waste' >= waste
      invariant if waste' == -1 then s1' == 0 && j == k + 1
                else 1 <= s1' < s2' <= maxoff && waste' == Apart(es, s1', s2', siglen)
      invariant forall i :: k < i < j ==> Apart(es, k, i, siglen) <= waste'
    {
      var d := HemDist(es[k], es[j], siglen);
      if d > waste' {
        s1', s2', waste' := k, j, d;
      }
      j := j + 1;
    }
  }

  // ---------------------------------------------------------------------- split

  /** One side of the split: its offsets and its key. */
  datatype Side = Side(offs: seq<nat>, key: Key)

  predicate Sizes(es: seq<Key>, siglen: nat) {
    forall j :: 0 <= j < |es| ==> Sized(es[j], siglen)
  }

  predicate InRange(offs: seq<nat>, n: nat) {
    forall x :: 0 <= x < |offs| ==> offs[x] < n
  }

  /** Some of the listed entries has bit i. */
  predicate AnyListed(offs: seq<nat>, es: seq<Key>, siglen: nat, i: nat)
    requires Sizes(es, siglen) && InRange(offs, |es|) && i < 8 * siglen
  {
    exists x :: 0 <= x < |offs| && Has(es[offs[x]], siglen, i)
  }

  /** The key of a side has exactly the bits of its seed and of the entries placed there. */
  predicate SideKey(d: Side, seed: nat, es: seq<Key>, siglen: nat)
    requires Sizes(es, siglen) && seed < |es|
  {
    && Sized(d.key, siglen) && InRange(d.offs, |es|)
    && forall i :: 0 <= i < 8 * siglen ==>
         (Has(d.key, siglen, i) <==> Has(es[seed], siglen, i) || AnyListed(d.offs, es, siglen, i))
  }

  /** Adding an entry to the key of a side: all ones if either is all true. */
  method Absorb(key: Key, e: Key, siglen: nat) returns (r: Key)
    requires Sized(key, siglen) && Sized(e, siglen)
    ensures Sized(r, siglen)
    ensures forall i :: 0 <= i < 8 * siglen ==> Has(r, siglen, i) == (Has(key, siglen, i) || Has(e, siglen, i))
  {
    if key.AllTrue? {
      return key;
    }
    if e.AllTrue? {
      var full := seq(siglen, _ => FULL);
      return Signed(full);
    }
    var sign := new Octet[siglen](i requires 0 <= i < siglen => key.sign[i]);
    assert sign[..] == key.sign;
    OrInto(sign, e.sign);
    return Signed(sign[..]);
  }

  lemma {:induction false} AnyListedAppend(offs: seq<nat>, j: nat, es: seq<Key>, siglen: nat, i: nat)
    requires Sizes(es, siglen) && InRange(offs, |es|) && j < |es| && i < 8 * siglen
    ensures InRange(offs + [j], |es|)
    ensures AnyListed(offs + [j], es, siglen, i) <==> AnyListed(offs, es, siglen, i) || Has(es[j], siglen, i)
  {
    var t := offs + [j];
    assert t[|offs|] == j;
    if AnyListed(offs, es, siglen, i) {
      var x :| 0 <= x < |offs| && Has(es[offs[x]], siglen, i);
      assert t[x] == offs[x];
    }
  }

  lemma {:induction false} SideGrows(d: Side, key: Key, seed: nat, j: nat, es: seq<Key>, siglen: nat)
    requires Sizes(es, siglen) && seed < |es| && SideKey(d, seed, es, siglen) && j < |es| && Sized(key, siglen)
    requires forall i :: 0 <= i < 8 * siglen ==> Has(key, siglen, i) == (Has(d.key, siglen, i) || Has(es[j], siglen, i))
    ensures SideKey(Side(d.offs + [j], key), seed, es, siglen)
  {
    forall i | 0 <= i < 8 * siglen
      ensures Has(key, siglen, i) <==> Has(es[seed], siglen, i) || AnyListed(d.offs + [j], es, siglen, i)
    {
      AnyListedAppend(d.offs, j, es, siglen, i);
    }
  }

  /** Puts offset j on a side. */
  method Assign(d: Side, seed: nat, j: nat, es: seq<Key>, siglen: nat) returns (d': Side)
    requires Sizes(es, siglen) && seed < |es| && SideKey(d, seed, es, siglen) && j < |es|
    ensures d'.offs == d.offs + [j] && SideKey(d', seed, es, siglen)
  {
    var key := d.key;
    if j != seed {
      key := Absorb(d.key, es[j], siglen);
    }
    SideGrows(d, key, seed, j, es, siglen);
    d' := Side(d.offs + [j], key);
  }

  /** The first k offsets of the order have been placed, each on one side. */
  ghost predicate Placed(l: Side, r: Side, order: seq<SplitCost>, k: nat)
    requires k <= |order|
  {
    forall j: nat :: Occurs(l.offs, |l.offs|, j) + Occurs(r.offs, |r.offs|, j) == PosCount(order, k, j)
  }

  lemma {:induction false} PlacedNext(l: Side, r: Side, l': Side, r': Side, order: seq<SplitCost>, k: nat)
    requires k < |order| && Placed(l, r, order, k)
    requires (l'.offs == l.offs + [order[k].pos] && r'.offs == r.offs) || (r'.offs == r.offs + [order[k].pos] && l'.offs == l.offs)
    ensures Placed(l', r', order, k + 1)
  {
    forall j: nat
      ensures Occurs(l'.offs, |l'.offs|, j) + Occurs(r'.offs, |r'.offs|, j) == PosCount(order, k + 1, j)
    {
      OccursAppend(l.offs, order[k].pos, j);
      OccursAppend(r.offs, order[k].pos, j);
    }
  }

  lemma {:induction false} PosPresent(s: seq<SplitCost>, n: nat, j: nat)
    requires n <= |s| && PosCount(s, n, j) > 0
    ensures exists i :: 0 <= i < n && s[i].pos == j
  {
    if s[n - 1].pos != j { PosPresent(s, n - 1, j); }
  }

  lemma {:induction false} PosPositive(s: seq<SplitCost>, n: nat, i: nat)
    requires i < n <= |s|
    ensures PosCount(s, n, s[i].pos) > 0
  {
    if i < n - 1 { PosPositive(s, n - 1, i); }
  }

  lemma {:induction false} OffsetRange(order: seq<SplitCost>, n: nat, k: nat)
    requires Once(order, n) && k < |order|
    ensures 1 <= order[k].pos <= n
  {
    PosPositive(order, |order|, k);
    assert PosCount(order, |order|, order[k].pos) == One(1 <= order[k].pos <= n);
  }

  /** Where the next offset goes; `wish` stands for the size and balance heuristics. */
  method Place(l: Side, r: Side, j: nat, s1: nat, s2: nat, es: seq<Key>, siglen: nat, wish: (nat, nat, nat, nat) -> bool)
    returns (l': Side, r': Side)
    requires Sizes(es, siglen) && j < |es| && s1 < |es| && s2 < |es| && s1 != s2
    requires SideKey(l, s1, es, siglen) && SideKey(r, s2, es, siglen)
    ensures SideKey(l', s1, es, siglen) && SideKey(r', s2, es, siglen)
    ensures (l'.offs == l.offs + [j] && r' == r) || (r'.offs == r.offs + [j] && l' == l)
    ensures j == s1 ==> l'.offs == l.offs + [j]
    ensures j == s2 ==> r'.offs == r.offs + [j]
  {
    l', r' := l, r;
    if j == s1 {
      l' := Assign(l, s1, j, es, siglen);
    } else if j == s2 {
      r' := Assign(r, s2, j, es, siglen);
    } else {
      var alpha := HemDist(l.key, es[j], siglen);
      var beta := HemDist(r.key, es[j], siglen);
      if wish(alpha, beta, |l.offs|, |r.offs|) {
        l' := Assign(l, s1, j, es, siglen);
      } else {
        r' := Assign(r, s2, j, es, siglen);
      }
    }
  }

  /** The seed is on its side, so the key is the union of the side. */
  lemma {:induction false} SideUnion(d: Side, seed: nat, es: seq<Key>, siglen: nat)
    requires Sizes(es, siglen) && seed < |es| && SideKey(d, seed, es, siglen) && seed in d.offs
    ensures forall i :: 0 <= i < 8 * siglen ==> (Has(d.key, siglen, i) <==> AnyListed(d.offs, es, siglen, i))
  {
    var x :| 0 <= x < |d.offs| && d.offs[x] == seed;
    assert forall i :: 0 <= i < 8 * siglen && Has(es[d.offs[x]], siglen, i) ==> AnyListed(d.offs, es, siglen, i);
  }

  /** The seeds of the offsets placed so far are on their sides. */
  predicate SeedsPlaced(l: Side, r: Side, s1: nat, s2: nat, order: seq<SplitCost>, k: nat)
    requires k <= |order|
  {
    forall i :: 0 <= i < k ==> (order[i].pos == s1 ==> s1 in l.offs) && (order[i].pos == s2 ==> s2 in r.offs)
  }

  /**
    ghstore_picksplit on entries 1 to |es| - 1: every offset is placed once,
    neither side is empty and each key is exactly the union of its side.
   */
  method PickSplit(es: seq<Key>, siglen: nat, wish: (nat, nat, nat, nat) -> bool) returns (l: Side, r: Side)
    requires |es| >= 3 && Sizes(es, siglen)
    ensures Sized(l.key, siglen) && Sized(r.key, siglen) && InRange(l.offs, |es|) && InRange(r.offs, |es|)
    ensures forall i :: 0 <= i < 8 * siglen ==> (Has(l.key, siglen, i) <==> AnyListed(l.offs, es, siglen, i))
    ensures forall i :: 0 <= i < 8 * siglen ==> (Has(r.key, siglen, i) <==> AnyListed(r.offs, es, siglen, i))
    ensures l.offs != [] && r.offs != []
    ensures forall j: nat :: Occurs(l.offs, |l.offs|, j) + Occurs(r.offs, |r.offs|, j) == One(1 <= j < |es|)
  {
    var s1, s2 := Seeds(es, siglen);
    l, r := Side([], es[s1]), Side([], es[s2]);
    var order := CostVector(es, siglen, es[s1], es[s2]);
    var k := 0;
    while k < |order|
      invariant 0 <= k <= |order| && Placed(l, r, order, k)
      invariant SideKey(l, s1, es, siglen) && SideKey(r, s2, es, siglen) && SeedsPlaced(l, r, s1, s2, order, k)
    {
      OffsetRange(order, |es| - 1, k);
      var l', r' := Place(l, r, order[k].pos, s1, s2, es, siglen, wish);
      PlacedNext(l, r, l', r', order, k);
      l, r := l', r';
      k := k + 1;
    }
    assert PosCount(order, |order|, s1) == 1 && PosCount(order, |order|, s2) == 1;
    PosPresent(order, |order|, s1);
    PosPresent(order, |order|, s2);
    SideUnion(l, s1, es, siglen);
    SideUnion(r, s2, es, siglen);
  }
}
