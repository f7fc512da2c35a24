/**
  The pass over one level of a B-tree index under a lock that excludes changes:
  walk right from the leftmost page, check sibling links and levels, and run the
  page checks on every live page.
 */
module NbtreeLevel {
  import opened NbtreePages
  import opened NbtreeLeaf
  import opened NbtreeChild

  // ----------------------------------------------------------- downlinks of a level

  /** The first n downlinks of a page. */
  function PageDowns(p: Page, n: nat): seq<Down>
    requires n <= |p.items|
  {
    if n == 0 then [] else PageDowns(p, n - 1) + [DownAt(p, n - 1)]
  }

  /** The downlinks of the live pages among the first n blocks, left to right. */
  function AllDowns(ix: Index, path: seq<nat>, n: nat): seq<Down>
    requires n <= |path|
  {
    if n == 0 then []
    else
      var b, r := path[n - 1], AllDowns(ix, path, n - 1);
      if Live(ix, b) then r + PageDowns(ix[b], |ix[b].items|) else r
  }

  predicate NoZeroIn(p: Page, n: nat)
    requires n <= |p.items|
  {
    forall k :: 0 <= k < n ==> p.items[k].down != P_NONE
  }

  /** No live page among the first n has a zero downlink. */
  predicate NoZero(ix: Index, path: seq<nat>, n: nat)
    requires n <= |path|
  {
    forall i :: 0 <= i < n && Live(ix, path[i]) ==> NoZeroIn(ix[path[i]], |ix[path[i]].items|)
  }

  lemma {:induction false} AllDownsSame(ix: Index, a: seq<nat>, b: seq<nat>, n: nat)
    requires n <= |a| && n <= |b| && forall i :: 0 <= i < n ==> a[i] == b[i]
    ensures AllDowns(ix, a, n) == AllDowns(ix, b, n)
  {
    if n > 0 { AllDownsSame(ix, a, b, n - 1); }
  }

  /**
    The downlinks occur, in order and with matching high keys, on one chain of
    right links from a leftmost page to the right edge of the level below, and
    every other page of the chain is accounted for.
   */
  ghost predicate Connected(ix: Index, downs: seq<Down>) {
    exists chain, ends :: ChainOk(ix, chain, ends, downs) && EndsLevel(ix, chain)
  }

  // ----------------------------------------------------------------- page checks

  /** Separator k is below the high key and the separator after it; the first item has no key. */
  predicate PivotOk(p: Page, k: nat)
    requires k < |p.items|
  {
    && (!Rightmost(p) ==> p.items[k].lo < p.highKey)
    && (k + 1 < |p.items| ==> p.items[k].lo < p.items[k + 1].lo)
  }

  /** Every key of the page is above the bound. */
  predicate Above(p: Page, bound: int) {
    forall m :: (if p.leaf then 0 else 1) <= m < |p.items| ==> bound < p.items[m].lo
  }

  /** The child of separator k is no deleted page, and its keys are above the separator. */
  predicate ChildOk(ix: Index, p: Page, k: nat)
    requires k < |p.items|
  {
    p.items[k].down != P_NONE ==>
      Loads(ix, p.items[k].down) && !ix[p.items[k].down].deleted && Above(ix[p.items[k].down], p.items[k].lo)
  }

  /** The checks on item k before its child is looked for. */
  function Before(ix: Index, b: nat, k: nat, fuel: nat): Outcome
    requires b in ix && k < |ix[b].items|
  {
    var p := ix[b];
    if k == 0 then Silent
    else if !PivotOk(p, k) then Corrupt
    else if k + 1 == |p.items| && CrossResult(ix, b, fuel) != Silent then CrossResult(ix, b, fuel)
    else if p.items[k].down != P_NONE && !Loads(ix, p.items[k].down) then Corrupt
    else Silent
  }

  /** All checks on item k: its order, the walk below up to its child, and the child itself. */
  ghost function ItemRun(ix: Index, b: nat, s: Below, k: nat, fuel: nat): (Outcome, Below)
    requires b in ix && k < |ix[b].items|
  {
    var e, c := Before(ix, b, k, fuel), Call(ix, ix[b], k, s, fuel);
    if e != Silent then (e, s)
    else if c.0 == Silent && k > 0 && !ChildOk(ix, ix[b], k) then (Corrupt, s)
    else c
  }

  /** The items of a page from item k on. */
  ghost function ItemsRun(ix: Index, b: nat, s: Below, k: nat, fuel: nat): (Outcome, Below)
    requires b in ix && k <= |ix[b].items|
    decreases |ix[b].items| - k
  {
    if k == |ix[b].items| then (Silent, s)
    else
      var t := ItemRun(ix, b, s, k, fuel);
      if t.0 != Silent then t else ItemsRun(ix, b, t.1, k + 1, fuel)
  }

  /** All checks on an internal page. */
  ghost function InnerRun(ix: Index, b: nat, s: Below, fuel: nat): (Outcome, Below)
    requires b in ix
  {
    var t := ItemsRun(ix, b, s, 0, fuel);
    if t.0 == Silent && Rightmost(ix[b]) then Call(ix, ix[b], -1, t.1, fuel) else t
  }

  predicate InnerItemOk(ix: Index, p: Page, k: nat)
    requires k < |p.items|
  {
    k > 0 ==> PivotOk(p, k) && ChildOk(ix, p, k)
  }

  /** Separators ascend to the high key, children are above them, and the next page is above the last. */
  ghost predicate InnerOk(ix: Index, b: nat) {
    b in ix && (forall k :: 0 <= k < |ix[b].items| ==> InnerItemOk(ix, ix[b], k)) && CrossOk(ix, b)
  }

  /** The lower bound loop of bt_child_check. */
  method LowerBound(p: Page, bound: int) returns (ok: bool)
    ensures ok <==> Above(p, bound)
  {
    var m := if p.leaf then 0 else 1;
    while m < |p.items|
      invariant m >= (if p.leaf then 0 else 1)
      invariant forall i :: (if p.leaf then 0 else 1) <= i < m && i < |p.items| ==> bound < p.items[i].lo
    {
      if bound >= p.items[m].lo {
        return false;
      }
      m := m + 1;
    }
    return true;
  }

  /** One item of an internal page. */
  method ItemCheck(st: ChildCheck, b: nat, k: nat, fuel: nat, ghost clean: bool) returns (r: Outcome)
    requires b in st.ix && k < |st.ix[b].items| && (clean ==> st.Between())
    modifies st
    ensures st.lowkey == old(st.lowkey)
    ensures r == ItemRun(st.ix, b, old(st.State()), k, fuel).0
    ensures r == Silent ==> st.State() == ItemRun(st.ix, b, old(st.State()), k, fuel).1
    ensures r == Silent && clean && st.ix[b].items[k].down != P_NONE ==>
              st.Between() && st.downs == old(st.downs) + [DownAt(st.ix[b], k)] && st.chain != []
  {
    var p := st.ix[b];
    var child := p.items[k].down;
    if k > 0 {
      if !Rightmost(p) && p.items[k].lo >= p.highKey {
        return Corrupt;
      }
      if k + 1 < |p.items| && p.items[k].lo >= p.items[k + 1].lo {
        return Corrupt;
      }
      if k + 1 == |p.items| {
        r := LastItemCheck(st.ix, b, fuel);
        if r != Silent {
          return;
        }
      }
      if child != P_NONE && !Loads(st.ix, child) {
        return Corrupt;
      }
    }
    assert Before(st.ix, b, k, fuel) == Silent;
    r := st.ChildHighkeyCheck(p, k, fuel, clean);
    if r == Silent && k > 0 && child != P_NONE {
      if st.ix[child].deleted {
        return Corrupt;
      }
      var ok := LowerBound(st.ix[child], p.items[k].lo);
      if !ok {
        return Corrupt;
      }
    }
  }

  lemma {:induction false} ItemSilent(ix: Index, b: nat, s: Below, k: nat, fuel: nat)
    requires b in ix && k < |ix[b].items| && ItemRun(ix, b, s, k, fuel).0 == Silent
    ensures InnerItemOk(ix, ix[b], k) && (0 < k == |ix[b].items| - 1 ==> CrossResult(ix, b, fuel) == Silent)
  {
  }

  /** A silent run over the items of an internal page has checked every one. */
  lemma {:induction false} ItemsSilent(ix: Index, b: nat, s: Below, k: nat, fuel: nat)
    requires b in ix && k <= |ix[b].items| && ItemsRun(ix, b, s, k, fuel).0 == Silent
    ensures forall i :: k <= i < |ix[b].items| ==> InnerItemOk(ix, ix[b], i)
    ensures k < |ix[b].items| && |ix[b].items| > 1 ==> CrossResult(ix, b, fuel) == Silent
    decreases |ix[b].items| - k
  {
    if k < |ix[b].items| {
      ItemSilent(ix, b, s, k, fuel);
      ItemsSilent(ix, b, ItemRun(ix, b, s, k, fuel).1, k + 1, fuel);
    }
  }

  lemma {:induction false} InnerSilent(ix: Index, b: nat, s: Below, fuel: nat)
    requires b in ix && !ix[b].leaf && InnerRun(ix, b, s, fuel).0 == Silent
    ensures InnerOk(ix, b)
  {
    ItemsSilent(ix, b, s, 0, fuel);
    if HasFirst(ix[b]) { CrossIff(ix, b, fuel); }
  }

  /** The downlink loop of bt_target_page_check and bt_child_check on an internal page. */
  method DownlinkLoop(st: ChildCheck, b: nat, fuel: nat, ghost clean: bool) returns (r: Outcome)
    requires b in st.ix && (clean ==> st.Between())
    modifies st
    ensures st.lowkey == old(st.lowkey)
    ensures r == ItemsRun(st.ix, b, old(st.State()), 0, fuel).0
    ensures r == Silent ==> st.State() == ItemsRun(st.ix, b, old(st.State()), 0, fuel).1
    ensures var p := st.ix[b]; r == Silent && clean && NoZeroIn(p, |p.items|) ==>
              st.Between() && st.downs == old(st.downs) + PageDowns(p, |p.items|) && (p.items != [] ==> st.chain != [])
  {
    var p := st.ix[b];
    ghost var was := st.downs;
    var k := 0;
    while k < |p.items|
      invariant 0 <= k <= |p.items| && st.lowkey == old(st.lowkey)
      invariant ItemsRun(st.ix, b, old(st.State()), 0, fuel) == ItemsRun(st.ix, b, st.State(), k, fuel)
      invariant clean && NoZeroIn(p, k) ==> st.Between() && st.downs == was + PageDowns(p, k)
      invariant clean && NoZeroIn(p, k) && k > 0 ==> st.chain != []
    {
      r := ItemCheck(st, b, k, fuel, clean && NoZeroIn(p, k));
      if r != Silent {
        return;
      }
      assert was + (PageDowns(p, k) + [DownAt(p, k)]) == was + PageDowns(p, k) + [DownAt(p, k)];
      k := k + 1;
    }
    return Silent;
  }

  /** The checks on an internal page; on the last page of the level the rest of the chain follows. */
  method InternalPageCheck(st: ChildCheck, b: nat, fuel: nat, ghost clean: bool) returns (r: Outcome)
    requires b in st.ix && (clean ==> st.Between()) && st.ix[b].items != [] && !st.ix[b].leaf
    modifies st
    ensures st.lowkey == old(st.lowkey)
    ensures r == InnerRun(st.ix, b, old(st.State()), fuel).0
    ensures r == Silent ==> st.State() == InnerRun(st.ix, b, old(st.State()), fuel).1 && InnerOk(st.ix, b)
    ensures var p := st.ix[b]; r == Silent && clean && NoZeroIn(p, |p.items|) ==>
              ChainOk(st.ix, st.chain, st.ends, st.downs) && st.downs == old(st.downs) + PageDowns(p, |p.items|)
    ensures var p := st.ix[b]; r == Silent && clean && NoZeroIn(p, |p.items|) ==>
              if Rightmost(p) then EndsLevel(st.ix, st.chain) else st.Between()
  {
    var p := st.ix[b];
    ghost var s := st.State();
    r := DownlinkLoop(st, b, fuel, clean);
    if r == Silent && Rightmost(p) {
      r := st.ChildHighkeyCheck(p, -1, fuel, clean && NoZeroIn(p, |p.items|));
    }
    if r == Silent { InnerSilent(st.ix, b, s, fuel); }
  }

  // -------------------------------------------------------------------- the walk

  predicate NoLive(ix: Index, path: seq<nat>) { NoneLive(ix, path, |path|) }

  lemma {:induction false} NoLiveGrows(ix: Index, path: seq<nat>, b: nat)
    ensures NoLive(ix, path + [b]) <==> NoLive(ix, path) && !Live(ix, b)
  {
    var p := path + [b];
    assert p[|path|] == b && forall i :: 0 <= i < |path| ==> p[i] == path[i];
  }

  /** The walk has visited the path and is about to look at block b. */
  ghost predicate AtBlock(ix: Index, level: nat, trueRoot: bool, path: seq<nat>, left: nat, b: nat, first: bool) {
    && LevelPath(ix, level, path) && RootOk(ix, trueRoot, path)
    && (path == [] ==> left == P_NONE)
    && (path != [] ==> left == path[|path| - 1] && left in ix && ix[left].next == b && left != P_NONE)
    && (first <==> NoLive(ix, path))
  }

  /** The sibling, level and leftmost checks on one block, before its page is looked into. */
  ghost predicate Admitted(ix: Index, level: nat, trueRoot: bool, left: nat, b: nat, first: bool) {
    && Loads(ix, b) && !ix[b].deleted && (ix[b].halfDead ==> !Rightmost(ix[b]))
    && (Live(ix, b) ==>
          && (first ==> LeftmostButHalfDead(ix, b) && (trueRoot ==> ix[b].root))
          && (left != P_NONE ==> ix[b].prev == left) && ix[b].level == level)
  }

  method VisitBlock(ix: Index, level: nat, trueRoot: bool, left: nat, b: nat, first: bool) returns (r: Outcome)
    ensures r == Silent <==> Admitted(ix, level, trueRoot, left, b, first)
    ensures r == Silent || r == Corrupt
  {
    if !Loads(ix, b) {
      return Corrupt;
    }
    var page := ix[b];
    if Ignorable(page) {
      if page.deleted || Rightmost(page) {
        return Corrupt;
      }
    } else {
      if first {
        var leftmost;
        r, leftmost := LeftmostIgnoringHalfDead(ix, b);
        if r != Silent || !leftmost {
          return Corrupt;
        }
        if trueRoot && !page.root {
          return Corrupt;
        }
      }
      if page.prev != left && left != P_NONE {
        return Corrupt;
      }
      if page.level != level {
        return Corrupt;
      }
    }
    return Silent;
  }

  /** The first live block of a root level is marked as the root. */
  predicate RootOk(ix: Index, trueRoot: bool, path: seq<nat>) {
    forall i :: 0 <= i < |path| ==> RootAt(ix, trueRoot, path, i)
  }

  predicate RootAt(ix: Index, trueRoot: bool, path: seq<nat>, i: nat)
    requires i < |path|
  {
    trueRoot && Live(ix, path[i]) && NoneLive(ix, path, i) ==> ix[path[i]].root
  }

  lemma {:induction false} RootGrows(ix: Index, trueRoot: bool, path: seq<nat>, b: nat)
    requires RootOk(ix, trueRoot, path) && (trueRoot && NoLive(ix, path) && Live(ix, b) ==> ix[b].root)
    ensures RootOk(ix, trueRoot, path + [b])
  {
    var p := path + [b];
    forall i | 0 <= i < |p|
      ensures RootAt(ix, trueRoot, p, i)
    {
      assert forall j :: 0 <= j < |path| ==> p[j] == path[j];
      if i < |path| { assert RootAt(ix, trueRoot, path, i); }
    }
  }

  /** The walk moves on from an admitted block that closes no circle of two. */
  lemma {:induction false} BlockDone(ix: Index, level: nat, trueRoot: bool, path: seq<nat>, left: nat, b: nat, first: bool)
    requires AtBlock(ix, level, trueRoot, path, left, b, first) && Admitted(ix, level, trueRoot, left, b, first)
    requires b != left && b != ix[b].prev
    ensures AtBlock(ix, level, trueRoot, path + [b], b, ix[b].next, first && Ignorable(ix[b]))
  {
    assert VisitOk(ix, level, path + [b], |path|);
    LevelExtends(ix, level, path, b);
    NoLiveGrows(ix, path, b);
    RootGrows(ix, trueRoot, path, b);
  }

  ghost predicate InnersOk(ix: Index, path: seq<nat>) {
    forall i :: 0 <= i < |path| && Live(ix, path[i]) ==> InnerOk(ix, path[i])
  }

  /** Where the checks stand after the blocks of the path. */
  ghost predicate Checked(st: ChildCheck, ix: Index, level: nat, path: seq<nat>, done: bool)
    reads st
  {
    && st.ix == ix
    && (level == 0 ==> PagesOk(ix, path)) && (level > 0 ==> InnersOk(ix, path))
    && (level > 0 && NoZero(ix, path, |path|) ==>
          && ChainOk(ix, st.chain, st.ends, st.downs) && st.downs == AllDowns(ix, path, |path|)
          && if done then EndsLevel(ix, st.chain) else st.Between())
  }

  lemma {:induction false} PathGrows(ix: Index, path: seq<nat>, b: nat)
    ensures AllDowns(ix, path + [b], |path| + 1) ==
            AllDowns(ix, path, |path|) + (if Live(ix, b) then PageDowns(ix[b], |ix[b].items|) else [])
    ensures NoZero(ix, path + [b], |path| + 1) <==>
            NoZero(ix, path, |path|) && (Live(ix, b) ==> NoZeroIn(ix[b], |ix[b].items|))
  {
    var p := path + [b];
    AllDownsSame(ix, path, p, |path|);
    assert forall i :: 0 <= i < |path| ==> p[i] == path[i];
    assert p[|path|] == b;
  }

  /** The page checks on a block: those of a leaf or of an internal page. */
  ghost function PageRun(ix: Index, b: nat, s: Below, fuel: nat): (Outcome, Below)
    requires b in ix
  {
    if ix[b].leaf then (LeafResult(ix, b, fuel), s) else InnerRun(ix, b, s, fuel)
  }

  type Checks = (nat, Below) -> (Outcome, Below)

  /** The page checks with a given bound on the walks inside them. */
  ghost function Pages(ix: Index, fuel: nat): Checks {
    (b: nat, s: Below) => if b in ix then PageRun(ix, b, s, fuel) else (Corrupt, s)
  }

  method CheckPage(st: ChildCheck, ix: Index, level: nat, b: nat, fuel: nat, ghost path: seq<nat>) returns (r: Outcome)
    requires Checked(st, ix, level, path, false) && Live(ix, b) && Loads(ix, b) && ix[b].level == level
    modifies st
    ensures r == PageRun(ix, b, old(st.State()), fuel).0
    ensures r == Silent ==> st.State() == PageRun(ix, b, old(st.State()), fuel).1
    ensures r == Silent ==> Checked(st, ix, level, path + [b], level > 0 && Rightmost(ix[b]))
  {
    PathGrows(ix, path, b);
    if ix[b].leaf {
      r := LeafPageCheck(ix, b, fuel);
    } else {
      r := InternalPageCheck(st, b, fuel, level > 0 && NoZero(ix, path, |path|));
    }
  }

  /** A half-dead block changes nothing, and never ends the level. */
  lemma {:induction false} SkipPage(st: ChildCheck, ix: Index, level: nat, b: nat, path: seq<nat>)
    requires Checked(st, ix, level, path, false) && !Live(ix, b)
    ensures Checked(st, ix, level, path + [b], false)
  {
    PathGrows(ix, path, b);
  }

  lemma {:induction false} FirstDown(p: Page, n: nat)
    requires 0 < n <= |p.items|
    ensures PageDowns(p, n) != [] && PageDowns(p, n)[0] == DownAt(p, 0)
  {
    if n > 1 { FirstDown(p, n - 1); }
  }

  /** The block the level below starts at: the first downlink of the first live page. */
  ghost predicate NextDown(ix: Index, level: nat, path: seq<nat>, next: nat) {
    var downs := AllDowns(ix, path, |path|);
    if level == 0 || NoLive(ix, path) then next == P_NONE
    else downs != [] && downs[0].blk == next
  }

  lemma {:induction false} NextDownGrows(ix: Index, level: nat, path: seq<nat>, b: nat, next: nat, next': nat)
    requires NextDown(ix, level, path, next) && Loads(ix, b) && (Live(ix, b) ==> ix[b].level == level)
    requires level > 0 && NoLive(ix, path) ==> AllDowns(ix, path, |path|) == []
    requires next' == if NoLive(ix, path) && Live(ix, b) && !ix[b].leaf then ix[b].items[0].down else next
    ensures NextDown(ix, level, path + [b], next')
    ensures level > 0 && NoLive(ix, path + [b]) ==> AllDowns(ix, path + [b], |path| + 1) == []
  {
    PathGrows(ix, path, b);
    NoLiveGrows(ix, path, b);
    if Live(ix, b) && !ix[b].leaf { FirstDown(ix[b], |ix[b].items|); }
  }

  /** What a silent pass over one level has established. */
  ghost predicate LevelChecked(ix: Index, level: nat, trueRoot: bool, path: seq<nat>) {
    && WholeLevel(ix, level, path) && RootOk(ix, trueRoot, path)
    && (level == 0 ==> PagesOk(ix, path))
    && (level > 0 ==> InnersOk(ix, path) && (NoZero(ix, path, |path|) <==> Connected(ix, AllDowns(ix, path, |path|))))
  }

  function LowOf(p: Page): LowKey { if Rightmost(p) then NoKey else LowKey(p.highKey) }

  /** One round of the walk. */
  ghost function BlockRun(ix: Index, pages: Checks, level: nat, trueRoot: bool, left: nat, b: nat, first: bool, s: Below)
    : (t: (Outcome, Below))
    ensures t.0 == Silent ==> Loads(ix, b)
  {
    if !Admitted(ix, level, trueRoot, left, b, first) then (Corrupt, s)
    else
      var t := if Live(ix, b) then pages(b, s) else (Silent, s);
      if t.0 != Silent then t
      else if b == left || b == ix[b].prev then (Corrupt, s)
      else (Silent, t.1.(low := LowOf(ix[b])))
  }

  /** The pass over a level from block b on: how it ends, and whether the walk itself ran out of steps. */
  ghost function LevelRun(ix: Index, pages: Checks, level: nat, trueRoot: bool, left: nat, b: nat, first: bool, s: Below,
                          steps: nat): (Outcome, bool)
    decreases steps
  {
    if steps == 0 then (TooLong, true)
    else
      var t := BlockRun(ix, pages, level, trueRoot, left, b, first, s);
      if t.0 != Silent then (t.0, false)
      else if Rightmost(ix[b]) then (Silent, false)
      else LevelRun(ix, pages, level, trueRoot, b, ix[b].next, first && Ignorable(ix[b]), t.1, steps - 1)
  }

  /** The whole pass. */
  ghost function Pass(ix: Index, level: nat, trueRoot: bool, leftmost: nat, steps: nat, fuel: nat): (Outcome, bool) {
    LevelRun(ix, Pages(ix, fuel), level, trueRoot, P_NONE, leftmost, true, START, steps)
  }

  /**
    bt_check_level_from_leftmost in read-only mode.  `steps` bounds the walk and
    `fuel` the inner walks; `lost` says that the walk itself ran out of steps.
    `next` is the leftmost block of the level below.
   */
  method CheckLevel(ix: Index, leftmost: nat, level: nat, trueRoot: bool, steps: nat, fuel: nat)
    returns (r: Outcome, lost: bool, next: nat, ghost path: seq<nat>)
    requires leftmost != P_NONE
    ensures r == Silent ==> LevelChecked(ix, level, trueRoot, path) && path[0] == leftmost && NextDown(ix, level, path, next)
    ensures (r, lost) == Pass(ix, level, trueRoot, leftmost, steps, fuel)
    ensures NoHalfDead(ix) && steps > |ix.Keys| ==> !lost
  {
    var st := new ChildCheck(ix);
    var leftcurrent, current, first := P_NONE, leftmost, true;
    path := [];
    next := P_NONE;
    var left := steps;
    while left > 0
      invariant fresh(st) && |path| == steps - left
      invariant Passing(st, ix, level, trueRoot, leftmost, path, leftcurrent, current, first, next)
      invariant Pass(ix, level, trueRoot, leftmost, steps, fuel) ==
                LevelRun(ix, Pages(ix, fuel), level, trueRoot, leftcurrent, current, first, st.State(), left)
    {
      r, next := PassBlock(st, ix, level, trueRoot, leftmost, leftcurrent, current, first, next, fuel, path);
      if r != Silent {
        return r, false, next, path;
      }
      path := path + [current];
      if Rightmost(ix[current]) {
        return Silent, false, next, path;
      }
      first := first && Ignorable(ix[current]);
      leftcurrent, current := current, ix[current].next;
      left := left - 1;
    }
    StepsSuffice(ix, level, path);
    return TooLong, true, next, path;
  }

  lemma {:induction false} StepsSuffice(ix: Index, level: nat, path: seq<nat>)
    requires LevelPath(ix, level, path)
    ensures NoHalfDead(ix) ==> |path| <= |ix.Keys|
  {
    if NoHalfDead(ix) { LevelBounded(ix, level, path); }
  }

  /** The pass has dealt with the path and is about to look at block b. */
  ghost predicate Passing(st: ChildCheck, ix: Index, level: nat, trueRoot: bool, leftmost: nat, path: seq<nat>, left: nat, b: nat,
                          first: bool, next: nat)
    reads st
  {
    && AtBlock(ix, level, trueRoot, path, left, b, first) && Checked(st, ix, level, path, false)
    && (if path == [] then b == leftmost else path[0] == leftmost)
    && NextDown(ix, level, path, next) && (level > 0 && NoLive(ix, path) ==> AllDowns(ix, path, |path|) == [])
  }

  /** One round of the walk, with the leftmost block of the level below. */
  method PassBlock(st: ChildCheck, ix: Index, level: nat, trueRoot: bool, leftmost: nat, left: nat, b: nat, first: bool, next: nat,
                   fuel: nat, ghost path: seq<nat>)
    returns (r: Outcome, next': nat)
    requires Passing(st, ix, level, trueRoot, leftmost, path, left, b, first, next)
    modifies st
    ensures r == BlockRun(ix, Pages(ix, fuel), level, trueRoot, left, b, first, old(st.State())).0
    ensures r == Silent ==> st.State() == BlockRun(ix, Pages(ix, fuel), level, trueRoot, left, b, first, old(st.State())).1
    ensures r == Silent ==> b in ix
    ensures r == Silent && !Rightmost(ix[b]) ==>
              Passing(st, ix, level, trueRoot, leftmost, path + [b], b, ix[b].next, first && Ignorable(ix[b]), next')
    ensures r == Silent && Rightmost(ix[b]) ==>
              LevelChecked(ix, level, trueRoot, path + [b]) && (path + [b])[0] == leftmost && NextDown(ix, level, path + [b], next')
  {
    next' := next;
    r := CheckBlock(st, ix, level, trueRoot, left, b, first, fuel, path);
    if r != Silent {
      return;
    }
    if first && !Ignorable(ix[b]) && !ix[b].leaf {
      next' := ix[b].items[0].down;
    }
    NextDownGrows(ix, level, path, b, next, next');
    if Rightmost(ix[b]) {
      LevelDone(st, ix, level, trueRoot, path + [b], b, first && Ignorable(ix[b]));
    }
  }

  lemma {:induction false} PageDownsAre(p: Page, n: nat, k: nat)
    requires k < n <= |p.items|
    ensures |PageDowns(p, n)| == n && PageDowns(p, n)[k] == DownAt(p, k)
  {
    if n > 1 { PageDownsAre(p, n - 1, if k < n - 1 then k else 0); }
  }

  /** Item k of the i-th block contributes a downlink of the level. */
  lemma {:induction false} DownListed(ix: Index, path: seq<nat>, n: nat, i: nat, k: nat)
    requires i < n <= |path| && Live(ix, path[i]) && k < |ix[path[i]].items|
    ensures exists j :: 0 <= j < |AllDowns(ix, path, n)| && AllDowns(ix, path, n)[j] == DownAt(ix[path[i]], k)
  {
    var r := AllDowns(ix, path, n - 1);
    if i < n - 1 {
      DownListed(ix, path, n - 1, i, k);
      var j :| 0 <= j < |r| && r[j] == DownAt(ix[path[i]], k);
      assert AllDowns(ix, path, n)[j] == r[j];
    } else {
      var p := ix[path[i]];
      PageDownsAre(p, |p.items|, k);
      assert AllDowns(ix, path, n)[|r| + k] == PageDowns(p, |p.items|)[k];
    }
  }

  /** A zero downlink is on no chain. */
  lemma {:induction false} ConnectedNotZero(ix: Index, path: seq<nat>)
    requires Connected(ix, AllDowns(ix, path, |path|))
    ensures NoZero(ix, path, |path|)
  {
    var downs := AllDowns(ix, path, |path|);
    var chain, ends :| ChainOk(ix, chain, ends, downs) && EndsLevel(ix, chain);
    forall i, k | 0 <= i < |path| && Live(ix, path[i]) && 0 <= k < |ix[path[i]].items|
      ensures ix[path[i]].items[k].down != P_NONE
    {
      DownListed(ix, path, |path|, i, k);
      var j :| 0 <= j < |downs| && downs[j] == DownAt(ix[path[i]], k);
      assert EndAt(ix, chain, ends, downs, j) && LinkAt(ix, chain, ends[j]);
    }
  }

  lemma {:induction false} ConnectedBy(ix: Index, chain: seq<nat>, ends: seq<nat>, downs: seq<Down>)
    requires ChainOk(ix, chain, ends, downs) && EndsLevel(ix, chain)
    ensures Connected(ix, downs)
  {
  }

  /** At the right end everything a silent pass promises has been checked. */
  lemma {:induction false} LevelDone(st: ChildCheck, ix: Index, level: nat, trueRoot: bool, path: seq<nat>, left: nat, first: bool)
    requires Checked(st, ix, level, path, level > 0) && path != []
    requires AtBlock(ix, level, trueRoot, path, left, P_NONE, first)
    ensures LevelChecked(ix, level, trueRoot, path)
  {
    if level > 0 {
      if NoZero(ix, path, |path|) { ConnectedBy(ix, st.chain, st.ends, st.downs); }
      if Connected(ix, AllDowns(ix, path, |path|)) { ConnectedNotZero(ix, path); }
    }
  }

  /** One round of the walk: link checks, page checks, and the high key kept as low key. */
  method CheckBlock(st: ChildCheck, ix: Index, level: nat, trueRoot: bool, left: nat, b: nat, first: bool,
                    fuel: nat, ghost path: seq<nat>)
    returns (r: Outcome)
    requires AtBlock(ix, level, trueRoot, path, left, b, first) && Checked(st, ix, level, path, false)
    modifies st
    ensures r == BlockRun(ix, Pages(ix, fuel), level, trueRoot, left, b, first, old(st.State())).0
    ensures r == Silent ==> st.State() == BlockRun(ix, Pages(ix, fuel), level, trueRoot, left, b, first, old(st.State())).1
    ensures r == Silent ==> Loads(ix, b) && (Live(ix, b) ==> ix[b].level == level)
    ensures r == Silent ==> AtBlock(ix, level, trueRoot, path + [b], b, ix[b].next, first && Ignorable(ix[b]))
    ensures r == Silent ==> Checked(st, ix, level, path + [b], level > 0 && Rightmost(ix[b]))
  {
    r := VisitBlock(ix, level, trueRoot, left, b, first);
    if r != Silent {
      return;
    }
    if !Ignorable(ix[b]) {
      r := CheckPage(st, ix, level, b, fuel, path);
      if r != Silent {
        return;
      }
    } else {
      SkipPage(st, ix, level, b, path);
    }
    if b == left || b == ix[b].prev {
      return Corrupt;
    }
    BlockDone(ix, level, trueRoot, path, left, b, first);
    st.lowkey := if Rightmost(ix[b]) then NoKey else LowKey(ix[b].highKey);
  }

  // ------------------------------------------------------------------ every level

  /** Following right links from the same block gives the same blocks. */
  lemma {:induction false} SameWalk(ix: Index, chain: seq<nat>, path: seq<nat>, i: nat)
    requires Linked(ix, chain) && Linked(ix, path) && i < |chain| && i < |path| && chain[0] == path[0]
    ensures chain[i] == path[i]
  {
    assert LinkAt(ix, chain, i) && LinkAt(ix, path, i);
    if i > 0 { SameWalk(ix, chain, path, i - 1); }
  }

  lemma {:induction false} NotShorter(ix: Index, chain: seq<nat>, path: seq<nat>)
    requires Linked(ix, chain) && Linked(ix, path) && EndsLevel(ix, chain) && path != [] && chain[0] == path[0]
    ensures |path| <= |chain|
  {
    var n := |chain|;
    if n < |path| {
      assert LinkAt(ix, path, n);
      SameWalk(ix, chain, path, n - 1);
    }
  }

  lemma {:induction false} SameEnd(ix: Index, chain: seq<nat>, path: seq<nat>)
    requires Linked(ix, chain) && Linked(ix, path) && EndsLevel(ix, chain) && EndsLevel(ix, path) && chain[0] == path[0]
    ensures chain == path
  {
    NotShorter(ix, chain, path);
    NotShorter(ix, path, chain);
    forall i | 0 <= i < |chain|
      ensures chain[i] == path[i]
    {
      SameWalk(ix, chain, path, i);
    }
  }

  lemma {:induction false} PathLinked(ix: Index, level: nat, path: seq<nat>)
    requires Visits(ix, level, path)
    ensures Linked(ix, path)
  {
    forall i | 0 <= i < |path|
      ensures LinkAt(ix, path, i)
    {
      assert VisitOk(ix, level, path, i);
    }
  }

  /** The downlinks lead, in order, to pages of the given level. */
  ghost predicate LinkedTo(ix: Index, downs: seq<Down>, lower: seq<nat>) {
    exists ends :: ChainOk(ix, lower, ends, downs)
  }

  /**
    The chain that connects the downlinks of a level is the path of the pass over
    the level below, when that pass starts at the first downlink: the downlinks
    are, in order, pages of the lower level, and every other page there is
    accounted for.
   */
  lemma {:induction false} LevelsLink(ix: Index, downs: seq<Down>, level: nat, lower: seq<nat>)
    requires Connected(ix, downs) && WholeLevel(ix, level, lower) && downs != [] && downs[0].blk == lower[0]
    ensures LinkedTo(ix, downs, lower)
  {
    var chain, ends :| ChainOk(ix, chain, ends, downs) && EndsLevel(ix, chain);
    assert EndAt(ix, chain, ends, downs, 0);
    PathLinked(ix, level, lower);
    SameEnd(ix, chain, lower);
  }

  /** The right edge of a level is a live page. */
  lemma {:induction false} SomeLive(ix: Index, level: nat, path: seq<nat>)
    requires WholeLevel(ix, level, path)
    ensures !NoLive(ix, path)
  {
    assert VisitOk(ix, level, path, |path| - 1);
    assert Live(ix, path[|path| - 1]);
  }

  /** The block an internal level hands down is its first downlink. */
  lemma {:induction false} FirstIsNext(ix: Index, level: nat, upper: seq<nat>, next: nat)
    requires level > 0 && WholeLevel(ix, level, upper) && NextDown(ix, level, upper, next)
    ensures var downs := AllDowns(ix, upper, |upper|); downs != [] && downs[0].blk == next
  {
    SomeLive(ix, level, upper);
  }

  /** The page below item k of block i is on the lower path, and its high key is the separator to the right. */
  lemma {:induction false} ChildOnPath(ix: Index, upper: seq<nat>, level: nat, lower: seq<nat>, i: nat, k: nat)
    requires Connected(ix, AllDowns(ix, upper, |upper|)) && WholeLevel(ix, level, lower)
    requires AllDowns(ix, upper, |upper|) != [] && AllDowns(ix, upper, |upper|)[0].blk == lower[0]
    requires i < |upper| && Live(ix, upper[i]) && k < |ix[upper[i]].items|
    ensures var d := DownAt(ix[upper[i]], k); d.blk in lower && KeyFits(ix, d.blk, d.right)
  {
    var downs := AllDowns(ix, upper, |upper|);
    LevelsLink(ix, downs, level, lower);
    var ends :| ChainOk(ix, lower, ends, downs);
    DownListed(ix, upper, |upper|, i, k);
    var j :| 0 <= j < |downs| && downs[j] == DownAt(ix[upper[i]], k);
    assert EndAt(ix, lower, ends, downs, j) && lower[ends[j]] in lower;
  }

  /**
    Silent passes over the leaf level and the level above, without a zero
    downlink: every leaf item lies above the separator of its page's downlink
    and, unless that page is incompletely split or the last, at most at the
    separator to the right.
   */
  lemma {:induction false} LeafWithinSeparators(ix: Index, trueRoot: bool, upper: seq<nat>, next: nat, lower: seq<nat>,
                                                i: nat, k: nat, m: nat)
    requires LevelChecked(ix, 1, trueRoot, upper) && NoZero(ix, upper, |upper|) && NextDown(ix, 1, upper, next)
    requires LevelChecked(ix, 0, false, lower) && lower[0] == next
    requires i < |upper| && Live(ix, upper[i]) && k < |ix[upper[i]].items|
    requires var c := ix[upper[i]].items[k].down; Live(ix, c) && m < |ix[c].items|
    ensures var d := DownAt(ix[upper[i]], k); var item := ix[d.blk].items[m];
            && (k > 0 ==> ix[upper[i]].items[k].lo < item.lo)
            && (!ix[d.blk].incomplete && !Rightmost(ix[d.blk]) ==> d.right.LowKey? && item.hi <= d.right.key)
  {
    var d := DownAt(ix[upper[i]], k);
    FirstIsNext(ix, 1, upper, next);
    ChildOnPath(ix, upper, 0, lower, i, k);
    var n :| 0 <= n < |lower| && lower[n] == d.blk;
    assert VisitOk(ix, 0, lower, n) && PageOk(ix, lower[n]) && ItemOk(ix[d.blk], m);
    assert InnerOk(ix, upper[i]) && InnerItemOk(ix, ix[upper[i]], k);
  }
}
