/**
  Order checks on leaf pages: within a page, against the high key, and of the
  last item against the first item of the next live page to the right.  The main
  result says what a silent pass over a whole leaf level implies.
 */
module NbtreeLeaf {
  import opened NbtreePages

  // ------------------------------------------------------- the next page to compare

  /** A page the search for the right page steps over. */
  predicate Skipped(ix: Index, b: nat) { Loads(ix, b) && Ignorable(ix[b]) && !Rightmost(ix[b]) }

  ghost predicate SkipAt(ix: Index, q: seq<nat>, i: nat)
    requires i + 1 < |q|
  {
    Skipped(ix, q[i]) && ix[q[i]].next == q[i + 1]
  }

  /** From the right sibling of b over ignorable pages to the page that is compared. */
  ghost predicate RightPath(ix: Index, b: nat, q: seq<nat>) {
    && b in ix && q != [] && q[0] == ix[b].next
    && (forall i :: 0 <= i < |q| - 1 ==> SkipAt(ix, q, i))
    && Loads(ix, q[|q| - 1]) && !Skipped(ix, q[|q| - 1])
  }

  /** The search from block c: the page it stops at, or why it found none. */
  function SkipRun(ix: Index, c: nat, fuel: nat): (res: (Outcome, nat))
    ensures res.0 == Silent ==> Loads(ix, res.1) && !Skipped(ix, res.1)
    decreases fuel
  {
    if fuel == 0 then (TooLong, c)
    else if !Loads(ix, c) then (Corrupt, c)
    else if !Skipped(ix, c) then (Silent, c)
    else SkipRun(ix, ix[c].next, fuel - 1)
  }

  /** The search stops at the end of a right path, given enough fuel. */
  lemma {:induction false} SkipFollows(ix: Index, b: nat, q: seq<nat>, k: nat, fuel: nat)
    requires RightPath(ix, b, q) && k < |q| && fuel >= |q| - k
    ensures SkipRun(ix, q[k], fuel) == (Silent, q[|q| - 1])
    decreases |q| - k
  {
    if k < |q| - 1 {
      assert SkipAt(ix, q, k);
      SkipFollows(ix, b, q, k + 1, fuel - 1);
    }
  }

  /** The right path behind a search that stopped. */
  lemma {:induction false} SkipFinds(ix: Index, b: nat, fuel: nat) returns (q: seq<nat>)
    requires b in ix && SkipRun(ix, ix[b].next, fuel).0 == Silent
    ensures RightPath(ix, b, q) && q[|q| - 1] == SkipRun(ix, ix[b].next, fuel).1
    decreases fuel
  {
    var c := ix[b].next;
    q := [c];
    if Skipped(ix, c) {
      var t := SkipFinds(ix, c, fuel - 1);
      q := [c] + t;
      forall i | 0 <= i < |q| - 1
        ensures SkipAt(ix, q, i)
      {
        if i > 0 { assert SkipAt(ix, t, i - 1); }
      }
    }
  }

  /** More fuel changes no answer that was found. */
  lemma {:induction false} SkipMore(ix: Index, c: nat, fuel: nat, more: nat)
    requires fuel <= more && SkipRun(ix, c, fuel).0 != TooLong
    ensures SkipRun(ix, c, more) == SkipRun(ix, c, fuel)
    decreases fuel
  {
    if Skipped(ix, c) { SkipMore(ix, ix[c].next, fuel - 1, more - 1); }
  }

  /** Right links from c lead over skipped pages only, and back to one of them. */
  ghost predicate SkipRing(ix: Index, c: nat) {
    exists q :: SkipTrail(ix, c, q) && !Distinct(q)
  }

  ghost predicate SkipTrail(ix: Index, c: nat, q: seq<nat>) {
    Linked(ix, q) && q != [] && q[0] == c && forall i :: 0 <= i < |q| ==> Skipped(ix, q[i])
  }

  /** On a trail that returns to block q[i] the search never stops. */
  lemma {:induction false} RingSkips(ix: Index, c: nat, q: seq<nat>, i: nat, j: nat, k: nat, fuel: nat)
    requires SkipTrail(ix, c, q) && i < j < |q| && q[i] == q[j] && k <= j
    ensures SkipRun(ix, q[k], fuel).0 == TooLong
    decreases fuel
  {
    if fuel > 0 {
      var m := if k < j then k + 1 else i + 1;
      assert LinkAt(ix, q, m);
      RingSkips(ix, c, q, i, j, m, fuel - 1);
    }
  }

  lemma {:induction false} TrailOf(ix: Index, c: nat, fuel: nat) returns (q: seq<nat>)
    requires fuel > 0 && SkipRun(ix, c, fuel).0 == TooLong
    ensures SkipTrail(ix, c, q) && |q| == fuel
    decreases fuel
  {
    q := [c];
    if fuel > 1 {
      var t := TrailOf(ix, ix[c].next, fuel - 1);
      q := q + t;
      forall i | 0 <= i < |q|
        ensures LinkAt(ix, q, i) && Skipped(ix, q[i])
      {
        if i > 0 { assert LinkAt(ix, t, i - 1) && Skipped(ix, t[i - 1]); }
      }
    }
  }

  /**
    The search never ends if and only if it runs into a ring of ignorable pages;
    otherwise it ends within the number of blocks.
   */
  lemma {:induction false} SkipEndlessIff(ix: Index, c: nat, fuel: nat)
    ensures SkipRing(ix, c) ==> SkipRun(ix, c, fuel).0 == TooLong
    ensures fuel > |ix.Keys| ==> (SkipRun(ix, c, fuel).0 == TooLong <==> SkipRing(ix, c))
  {
    if SkipRing(ix, c) {
      var q :| SkipTrail(ix, c, q) && !Distinct(q);
      var i, j :| 0 <= i < j < |q| && q[i] == q[j];
      RingSkips(ix, c, q, i, j, 0, fuel);
    } else if fuel > |ix.Keys| && SkipRun(ix, c, fuel).0 == TooLong {
      var q := TrailOf(ix, c, fuel);
      LongRepeats(ix, q);
    }
  }

  lemma {:induction false} RightPathUnique(ix: Index, b: nat, p: seq<nat>, q: seq<nat>)
    requires RightPath(ix, b, p) && RightPath(ix, b, q)
    ensures p[|p| - 1] == q[|q| - 1]
  {
    SkipFollows(ix, b, p, 0, |p| + |q|);
    SkipFollows(ix, b, q, 0, |p| + |q|);
  }

  /** The search for the right page in bt_right_page_check_scankey. */
  method RightPage(ix: Index, b: nat, fuel: nat) returns (r: Outcome, right: nat)
    requires b in ix && !Rightmost(ix[b])
    ensures (r, right) == SkipRun(ix, ix[b].next, fuel)
    ensures r == Silent ==> exists q :: RightPath(ix, b, q) && q[|q| - 1] == right
    ensures r == Corrupt ==> !Loads(ix, right)
    ensures fuel > |ix.Keys| ==> (r == TooLong <==> SkipRing(ix, ix[b].next))
  {
    SkipEndlessIff(ix, ix[b].next, fuel);
    if SkipRun(ix, ix[b].next, fuel).0 == Silent {
      var q := SkipFinds(ix, b, fuel);
    }
    right := ix[b].next;
    var left := fuel;
    while left > 0
      invariant SkipRun(ix, ix[b].next, fuel) == SkipRun(ix, right, left)
    {
      if !Loads(ix, right) {
        return Corrupt, right;
      }
      if !Ignorable(ix[right]) || Rightmost(ix[right]) {
        return Silent, right;
      }
      right := ix[right].next;
      left := left - 1;
    }
    return TooLong, right;
  }

  // --------------------------------------------------------------- checks on a page

  /** The first key of a page that is compared: an internal page's first item has none. */
  predicate HasFirst(p: Page) { |p.items| > if p.leaf then 0 else 1 }

  function First(p: Page): int
    requires HasFirst(p)
  {
    p.items[if p.leaf then 0 else 1].lo
  }

  function Last(p: Page): Item
    requires p.items != []
  {
    p.items[|p.items| - 1]
  }

  /** The greatest key of a page: the end of the last posting list, or the last separator. */
  function Top(p: Page): int
    requires p.items != []
  {
    if p.leaf then Last(p).hi else Last(p).lo
  }

  predicate Precedes(ix: Index, b: nat, c: nat) {
    && b in ix && c in ix
    && (ix[b].items != [] && HasFirst(ix[c]) ==> Top(ix[b]) < First(ix[c]))
  }

  /** The last item precedes the first item of the page to compare with. */
  ghost predicate CrossOk(ix: Index, b: nat) {
    && b in ix
    && (HasFirst(ix[b]) && !Rightmost(ix[b]) ==> exists q :: RightPath(ix, b, q) && Precedes(ix, b, q[|q| - 1]))
  }

  /** How the comparison with the page to the right ends. */
  function CrossResult(ix: Index, b: nat, fuel: nat): Outcome
    requires b in ix
  {
    if Rightmost(ix[b]) then Silent
    else
      var res := SkipRun(ix, ix[b].next, fuel);
      if res.0 != Silent then res.0 else if Precedes(ix, b, res.1) then Silent else Corrupt
  }

  /** The comparison is silent only on ordered pages, and on all of them given enough fuel. */
  lemma {:induction false} CrossIff(ix: Index, b: nat, fuel: nat)
    requires b in ix && HasFirst(ix[b])
    ensures CrossResult(ix, b, fuel) == Silent ==> CrossOk(ix, b)
    ensures CrossOk(ix, b) && fuel > |ix.Keys| ==> CrossResult(ix, b, fuel) == Silent
  {
    if !Rightmost(ix[b]) {
      var c := ix[b].next;
      if SkipRun(ix, c, fuel).0 == Silent {
        var q := SkipFinds(ix, b, fuel);
      }
      if CrossOk(ix, b) && fuel > |ix.Keys| {
        var q :| RightPath(ix, b, q) && Precedes(ix, b, q[|q| - 1]);
        SkipFollows(ix, b, q, 0, |q|);
        SkipEndlessIff(ix, c, |q|);
        SkipEndlessIff(ix, c, fuel);
        SkipFollows(ix, b, q, 0, |q| + fuel);
        SkipMore(ix, c, fuel, |q| + fuel);
      }
    }
  }

  /** The last item check. */
  method LastItemCheck(ix: Index, b: nat, fuel: nat) returns (r: Outcome)
    requires b in ix && HasFirst(ix[b])
    ensures r == CrossResult(ix, b, fuel)
  {
    if Rightmost(ix[b]) {
      return Silent;
    }
    var right;
    r, right := RightPage(ix, b, fuel);
    if r != Silent {
      return r;
    }
    var rp := ix[right];
    if rp.leaf && rp.items != [] {
      if rp.items[0].lo <= Top(ix[b]) {
        return Corrupt;
      }
    } else if !rp.leaf && |rp.items| >= 2 {
      if rp.items[1].lo <= Top(ix[b]) {
        return Corrupt;
      }
    }
    return Silent;
  }

  predicate ItemOk(p: Page, k: nat)
    requires k < |p.items|
  {
    && p.items[k].lo <= p.items[k].hi
    && (!Rightmost(p) ==> p.items[k].hi <= p.highKey)
    && (k + 1 < |p.items| ==> p.items[k].lo < p.items[k + 1].lo)
  }

  predicate ItemsOk(p: Page) { forall k :: 0 <= k < |p.items| ==> ItemOk(p, k) }

  /** How the order checks on a leaf page end. */
  function LeafResult(ix: Index, b: nat, fuel: nat): Outcome
    requires b in ix
  {
    if !ItemsOk(ix[b]) then Corrupt else if ix[b].items == [] then Silent else CrossResult(ix, b, fuel)
  }

  /** The page check would search the right page for ever. */
  ghost predicate LeafHangs(ix: Index, b: nat) {
    b in ix && ItemsOk(ix[b]) && ix[b].items != [] && !Rightmost(ix[b]) && SkipRing(ix, ix[b].next)
  }

  /**
    With fuel beyond the number of blocks a leaf page is passed if and only if its
    items are in order and below the next live page, and never finished if and
    only if its right links run into a ring of ignorable pages.
   */
  lemma {:induction false} LeafIff(ix: Index, b: nat, fuel: nat)
    requires b in ix && ix[b].leaf
    ensures LeafResult(ix, b, fuel) == Silent ==> ItemsOk(ix[b]) && CrossOk(ix, b)
    ensures LeafHangs(ix, b) ==> LeafResult(ix, b, fuel) == TooLong
    ensures fuel > |ix.Keys| ==> (LeafResult(ix, b, fuel) == Silent <==> ItemsOk(ix[b]) && CrossOk(ix, b))
    ensures fuel > |ix.Keys| ==> (LeafResult(ix, b, fuel) == TooLong <==> LeafHangs(ix, b))
  {
    if ix[b].items != [] { CrossIff(ix, b, fuel); }
    SkipEndlessIff(ix, ix[b].next, fuel);
  }

  /** The order part of bt_target_page_check on a leaf page. */
  method LeafPageCheck(ix: Index, b: nat, fuel: nat) returns (r: Outcome)
    requires b in ix && ix[b].leaf
    ensures r == LeafResult(ix, b, fuel)
    ensures r == Silent ==> ItemsOk(ix[b]) && CrossOk(ix, b)
    ensures fuel > |ix.Keys| && ItemsOk(ix[b]) && CrossOk(ix, b) ==> r == Silent
  {
    LeafIff(ix, b, fuel);
    var p := ix[b];
    var max := |p.items|;
    var offset := 0;
    while offset < max
      invariant 0 <= offset <= max && forall k :: 0 <= k < offset ==> ItemOk(p, k)
      invariant offset == max > 0 ==> CrossResult(ix, b, fuel) == Silent
    {
      var item := p.items[offset];
      if item.hi < item.lo {
        assert !ItemOk(p, offset);
        return Corrupt;
      }
      if !Rightmost(p) && item.hi > p.highKey {
        assert !ItemOk(p, offset);
        return Corrupt;
      }
      if offset + 1 < max && item.lo >= p.items[offset + 1].lo {
        assert !ItemOk(p, offset);
        return Corrupt;
      }
      if offset + 1 == max {
        r := LastItemCheck(ix, b, fuel);
        if r != Silent {
          return;
        }
      }
      offset := offset + 1;
    }
    return Silent;
  }

  // ----------------------------------------------------------------- whole levels

  /** All items of the live pages among the first n blocks, left to right. */
  function AllItems(ix: Index, path: seq<nat>, n: nat): seq<Item>
    requires n <= |path|
  {
    if n == 0 then []
    else AllItems(ix, path, n - 1) + (if Live(ix, path[n - 1]) then ix[path[n - 1]].items else [])
  }

  /** Block i is live and holds items. */
  predicate Full(ix: Index, path: seq<nat>, i: nat)
    requires i < |path|
  {
    Live(ix, path[i]) && ix[path[i]].items != []
  }

  /** The last full block among the first n, or -1. */
  function LastFull(ix: Index, path: seq<nat>, n: nat): (m: int)
    requires n <= |path|
    ensures -1 <= m < n && (m >= 0 ==> Full(ix, path, m))
    ensures forall i :: m < i < n ==> !Full(ix, path, i)
  {
    if n == 0 then -1 else if Full(ix, path, n - 1) then n - 1 else LastFull(ix, path, n - 1)
  }

  /** The key of an item that the next item must exceed: its last key, or only its first. */
  function Upper(x: Item, wide: bool): int { if wide then x.hi else x.lo }

  /** Each item lies below the next one; with `wide`, including its whole posting list. */
  predicate Ascending(s: seq<Item>, wide: bool) {
    forall k :: 0 <= k < |s| - 1 ==> RisesAt(s, k, wide)
  }

  predicate RisesAt(s: seq<Item>, k: nat, wide: bool)
    requires k + 1 < |s|
  {
    Upper(s[k], wide) < s[k + 1].lo
  }

  /** Each item lies below every later one. */
  predicate Sorted(s: seq<Item>, wide: bool) {
    forall i, j :: 0 <= i < j < |s| ==> Upper(s[i], wide) < s[j].lo
  }

  predicate Proper(s: seq<Item>) { forall k :: 0 <= k < |s| ==> s[k].lo <= s[k].hi }

  lemma {:induction false} AscendingJoin(s: seq<Item>, t: seq<Item>, wide: bool)
    ensures Ascending(s + t, wide) <==>
              Ascending(s, wide) && Ascending(t, wide) && (s != [] && t != [] ==> Upper(s[|s| - 1], wide) < t[0].lo)
  {
    var u := s + t;
    forall k | 0 <= k < |u| - 1
      ensures RisesAt(u, k, wide) <==>
                if k < |s| - 1 then RisesAt(s, k, wide) else if k >= |s| then RisesAt(t, k - |s|, wide)
                else Upper(s[|s| - 1], wide) < t[0].lo
    {
    }
    if Ascending(u, wide) {
      forall k | 0 <= k < |s| - 1
        ensures RisesAt(s, k, wide)
      {
        assert RisesAt(u, k, wide);
      }
      forall k | 0 <= k < |t| - 1
        ensures RisesAt(t, k, wide)
      {
        assert RisesAt(u, |s| + k, wide);
      }
      if s != [] && t != [] { assert RisesAt(u, |s| - 1, wide); }
    }
  }

  lemma {:induction false} AscendingPairs(s: seq<Item>, i: nat, j: nat, wide: bool)
    requires Proper(s) && Ascending(s, wide) && i < j < |s|
    ensures Upper(s[i], wide) < s[j].lo
  {
    assert RisesAt(s, j - 1, wide);
    if i < j - 1 { AscendingPairs(s, i, j - 1, wide); }
  }

  lemma {:induction false} SortedIff(s: seq<Item>, wide: bool)
    requires Proper(s)
    ensures Sorted(s, wide) <==> Ascending(s, wide)
  {
    if Ascending(s, wide) {
      forall i, j | 0 <= i < j < |s|
        ensures Upper(s[i], wide) < s[j].lo
      {
        AscendingPairs(s, i, j, wide);
      }
    }
  }

  lemma {:induction false} ItemsAscend(p: Page)
    requires ItemsOk(p)
    ensures Ascending(p.items, false) && Proper(p.items)
  {
    forall k | 0 <= k < |p.items|
      ensures p.items[k].lo <= p.items[k].hi && (k < |p.items| - 1 ==> RisesAt(p.items, k, false))
    {
      assert ItemOk(p, k);
    }
  }

  /** The page compared with a live page is the next live page of the level. */
  lemma {:induction false} NextLive(ix: Index, level: nat, path: seq<nat>, m: nat, n: nat, q: seq<nat>)
    requires Visits(ix, level, path) && m < n < |path| && Live(ix, path[m]) && Live(ix, path[n])
    requires forall i :: m < i < n ==> !Live(ix, path[i])
    requires RightPath(ix, path[m], q)
    ensures q[|q| - 1] == path[n]
  {
    var p := path[m + 1..n + 1];
    forall i | 0 <= i < |p|
      ensures p[i] in ix
    {
      assert VisitOk(ix, level, path, m + 1 + i);
    }
    forall i | 0 <= i < |p| - 1
      ensures SkipAt(ix, p, i)
    {
      assert VisitOk(ix, level, path, m + 1 + i) && VisitOk(ix, level, path, m + 2 + i);
    }
    assert VisitOk(ix, level, path, m + 1) && VisitOk(ix, level, path, n);
    RightPathUnique(ix, path[m], p, q);
  }

  /** A live page that passed its checks. */
  ghost predicate PageOk(ix: Index, b: nat) { Live(ix, b) ==> ItemsOk(ix[b]) && CrossOk(ix, b) }

  ghost predicate PagesOk(ix: Index, path: seq<nat>) {
    forall i :: 0 <= i < |path| ==> PageOk(ix, path[i])
  }

  /** Block n is the next live block after block m. */
  predicate NextTo(ix: Index, path: seq<nat>, m: nat, n: nat) {
    m < n < |path| && Live(ix, path[m]) && Live(ix, path[n]) && forall i :: m < i < n ==> !Live(ix, path[i])
  }

  ghost predicate CrossLt(ix: Index, path: seq<nat>, m: nat, n: nat) {
    (NextTo(ix, path, m, n) && ix[path[m]].items != [] && ix[path[n]].items != []) ==>
      Last(ix[path[m]]).hi < ix[path[n]].items[0].lo
  }

  lemma {:induction false} CrossOrder(ix: Index, path: seq<nat>, m: nat, n: nat)
    requires Visits(ix, 0, path) && PagesOk(ix, path)
    ensures CrossLt(ix, path, m, n)
  {
    if NextTo(ix, path, m, n) && ix[path[m]].items != [] && ix[path[n]].items != [] {
      assert VisitOk(ix, 0, path, m) && VisitOk(ix, 0, path, m + 1) && VisitOk(ix, 0, path, n);
      assert PageOk(ix, path[m]) && !Rightmost(ix[path[m]]);
      var q :| RightPath(ix, path[m], q) && Precedes(ix, path[m], q[|q| - 1]);
      NextLive(ix, 0, path, m, n, q);
    }
  }

  /** Blocks m and n are full, and every live block between them is empty. */
  predicate Gap(ix: Index, path: seq<nat>, m: nat, n: nat) {
    m < n < |path| && Full(ix, path, m) && Full(ix, path, n) && forall i :: m < i < n ==> !Full(ix, path, i)
  }

  /** Two full blocks that only empty live blocks separate, and at least one does, are in order. */
  predicate GapOk(ix: Index, path: seq<nat>, m: nat, n: nat, wide: bool) {
    Gap(ix, path, m, n) && !NextTo(ix, path, m, n) ==> Upper(Last(ix[path[m]]), wide) < ix[path[n]].items[0].lo
  }

  /** The items of a live block lie one below the other. */
  predicate BlockAscends(ix: Index, b: nat, wide: bool) { Live(ix, b) ==> Ascending(ix[b].items, wide) }

  /** Everything the order of the first n blocks depends on. */
  ghost predicate InOrder(ix: Index, path: seq<nat>, n: nat, wide: bool)
    requires n <= |path|
  {
    && (forall i :: 0 <= i < n ==> BlockAscends(ix, path[i], wide))
    && (forall a: nat, c: nat :: c < n ==> GapOk(ix, path, a, c, wide))
  }

  /** Neighbouring full blocks are in order exactly if their gap is: without an empty block it always is. */
  lemma {:induction false} GapIff(ix: Index, path: seq<nat>, m: nat, n: nat, wide: bool)
    requires Visits(ix, 0, path) && PagesOk(ix, path) && Gap(ix, path, m, n)
    ensures GapOk(ix, path, m, n, wide) <==> Upper(Last(ix[path[m]]), wide) < ix[path[n]].items[0].lo
  {
    CrossOrder(ix, path, m, n);
    assert PageOk(ix, path[m]);
    LastOrdered(ix[path[m]]);
  }

  lemma {:induction false} LastOrdered(p: Page)
    requires ItemsOk(p) && p.items != []
    ensures Last(p).lo <= Last(p).hi
  {
    assert ItemOk(p, |p.items| - 1);
  }

  /** A block that is not full changes nothing. */
  lemma {:induction false} OrderSkips(ix: Index, path: seq<nat>, n: nat, wide: bool)
    requires n < |path| && !Full(ix, path, n)
    ensures InOrder(ix, path, n + 1, wide) <==> InOrder(ix, path, n, wide)
  {
    forall a: nat
      ensures GapOk(ix, path, a, n, wide)
    {
    }
  }

  /** A full block adds its own order and one gap. */
  lemma {:induction false} OrderGrows(ix: Index, path: seq<nat>, n: nat, wide: bool)
    requires n < |path| && Full(ix, path, n)
    ensures var m := LastFull(ix, path, n);
            InOrder(ix, path, n + 1, wide) <==>
              InOrder(ix, path, n, wide) && BlockAscends(ix, path[n], wide) && (m >= 0 ==> GapOk(ix, path, m, n, wide))
  {
    var m := LastFull(ix, path, n);
    forall a: nat | a != m
      ensures GapOk(ix, path, a, n, wide)
    {
    }
  }

  /** The items of the first n blocks end with the last item of the last full one. */
  lemma {:induction false} ItemsEnd(ix: Index, path: seq<nat>, n: nat)
    requires n <= |path|
    ensures var m, s := LastFull(ix, path, n), AllItems(ix, path, n);
            if m < 0 then s == [] else s != [] && s[|s| - 1] == Last(ix[path[m]])
  {
    if n > 0 {
      ItemsEnd(ix, path, n - 1);
      if !Full(ix, path, n - 1) { assert AllItems(ix, path, n) == AllItems(ix, path, n - 1); }
    }
  }

  lemma {:induction false} ItemsProper(ix: Index, path: seq<nat>, n: nat)
    requires n <= |path| && PagesOk(ix, path)
    ensures Proper(AllItems(ix, path, n))
  {
    if n > 0 {
      ItemsProper(ix, path, n - 1);
      assert PageOk(ix, path[n - 1]);
      if Live(ix, path[n - 1]) { ItemsAscend(ix[path[n - 1]]); }
    }
  }

  /** The items of the first n blocks ascend if and only if the blocks and the gaps between them do. */
  lemma {:induction false} AscendingIff(ix: Index, path: seq<nat>, n: nat, wide: bool)
    requires n <= |path| && Visits(ix, 0, path) && PagesOk(ix, path)
    ensures Ascending(AllItems(ix, path, n), wide) <==> InOrder(ix, path, n, wide)
  {
    if n > 0 {
      var k := n - 1;
      var s, m := AllItems(ix, path, k), LastFull(ix, path, k);
      AscendingIff(ix, path, k, wide);
      if Full(ix, path, k) {
        ItemsEnd(ix, path, k);
        AscendingJoin(s, ix[path[k]].items, wide);
        OrderGrows(ix, path, k, wide);
        if m >= 0 { GapIff(ix, path, m, k, wide); }
      } else {
        assert AllItems(ix, path, n) == s;
        OrderSkips(ix, path, k, wide);
      }
    }
  }

  /** Full blocks that empty live blocks separate are in order, all over the level. */
  ghost predicate GapsOk(ix: Index, path: seq<nat>, wide: bool) {
    forall m: nat, n: nat :: GapOk(ix, path, m, n, wide)
  }

  /** The posting lists of each page are disjoint. */
  predicate PostingsApart(ix: Index, path: seq<nat>) {
    forall i :: 0 <= i < |path| ==> BlockAscends(ix, path[i], true)
  }

  /**
    A silent pass over a leaf level.  The first keys of its items are strictly
    increasing if and only if they are so across empty live pages; the key ranges
    of its items are disjoint and increasing if and only if they are so across
    empty live pages and within each page.  No item exceeds the high key of its
    page.
   */
  lemma {:induction false} LeafLevelSorted(ix: Index, path: seq<nat>)
    requires WholeLevel(ix, 0, path) && PagesOk(ix, path)
    ensures Sorted(AllItems(ix, path, |path|), false) <==> GapsOk(ix, path, false)
    ensures Sorted(AllItems(ix, path, |path|), true) <==> GapsOk(ix, path, true) && PostingsApart(ix, path)
    ensures forall i, k :: 0 <= i < |path| && Live(ix, path[i]) && !Rightmost(ix[path[i]]) && 0 <= k < |ix[path[i]].items|
              ==> ix[path[i]].items[k].hi <= ix[path[i]].highKey
  {
    ItemsProper(ix, path, |path|);
    SortedIff(AllItems(ix, path, |path|), false);
    SortedIff(AllItems(ix, path, |path|), true);
    AscendingIff(ix, path, |path|, false);
    AscendingIff(ix, path, |path|, true);
    PagesAscend(ix, path);
    OrderIsGaps(ix, path, false);
    OrderIsGaps(ix, path, true);
    forall i, k | 0 <= i < |path| && Live(ix, path[i]) && !Rightmost(ix[path[i]]) && 0 <= k < |ix[path[i]].items|
      ensures ix[path[i]].items[k].hi <= ix[path[i]].highKey
    {
      assert PageOk(ix, path[i]) && ItemOk(ix[path[i]], k);
    }
  }

  lemma {:induction false} PagesAscend(ix: Index, path: seq<nat>)
    requires PagesOk(ix, path)
    ensures forall i :: 0 <= i < |path| ==> BlockAscends(ix, path[i], false)
  {
    forall i | 0 <= i < |path|
      ensures BlockAscends(ix, path[i], false)
    {
      assert PageOk(ix, path[i]);
      if Live(ix, path[i]) { ItemsAscend(ix[path[i]]); }
    }
  }

  lemma {:induction false} OrderIsGaps(ix: Index, path: seq<nat>, wide: bool)
    ensures InOrder(ix, path, |path|, wide) <==>
              GapsOk(ix, path, wide) && forall i :: 0 <= i < |path| ==> BlockAscends(ix, path[i], wide)
  {
    if InOrder(ix, path, |path|, wide) {
      forall m: nat, n: nat
        ensures GapOk(ix, path, m, n, wide)
      {
      }
    }
  }
}
