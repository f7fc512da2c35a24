/**
  Concrete indexes and what the pass over one of their levels does: errors that
  no check sees, and walks that never end.
 */
module NbtreeRuns {
  import opened NbtreePages
  import opened NbtreeLeaf
  import opened NbtreeChild
  import opened NbtreeLevel
  import opened NbtreePass
  import opened NbtreeTrail
  import opened NbtreeSilent

  // ------------------------------------------------------------------ silent passes

  /** Two internal pages over four leaves. */
  const HEALTHY: Index := map[
    1 := Page(0, 2, 1, false, false, false, false, false, false, 20, 0, [Item(0, 0, 3), Item(10, 10, 4)]),
    2 := Page(1, 0, 1, false, false, false, false, false, false, 0, 0, [Item(20, 20, 5), Item(30, 30, 6)]),
    3 := Page(0, 4, 0, true, false, false, false, false, false, 10, 0, [Item(5, 5, 0)]),
    4 := Page(3, 5, 0, true, false, false, false, false, false, 20, 0, [Item(15, 15, 0)]),
    5 := Page(4, 6, 0, true, false, false, false, false, false, 30, 0, [Item(25, 25, 0)]),
    6 := Page(5, 0, 0, true, false, false, false, false, false, 0, 0, [Item(35, 35, 0)])]

  lemma {:induction false} HealthyPath()
    ensures WholeLevel(HEALTHY, 1, [1, 2]) && RootOk(HEALTHY, false, [1, 2])
  {
    var path := [1, 2];
    assert LeftPath(HEALTHY, [1]);
    assert LeftmostButHalfDead(HEALTHY, 1);
    assert VisitOk(HEALTHY, 1, path, 0) && VisitOk(HEALTHY, 1, path, 1);
    assert Live(HEALTHY, path[0]);
    assert StartAt(HEALTHY, path, 0) && StartAt(HEALTHY, path, 1);
  }

  lemma {:induction false} HealthyPage(b: nat)
    requires b == 1 || b == 2
    ensures InnerOk(HEALTHY, b)
  {
    assert RightPath(HEALTHY, 1, [2]) && Precedes(HEALTHY, 1, [2][0]);
    assert InnerItemOk(HEALTHY, HEALTHY[b], 0) && InnerItemOk(HEALTHY, HEALTHY[b], 1);
  }

  lemma {:induction false} HealthyPages()
    ensures InnersOk(HEALTHY, [1, 2])
  {
    HealthyPage(1);
    HealthyPage(2);
  }

  lemma {:induction false} HealthyLeft()
    ensures Reached(HEALTHY, HEALTHY[1], 0, NoKey, 0)
  {
    assert LeftPath(HEALTHY, [3]);
    assert LeftmostButHalfDead(HEALTHY, 3);
    assert TrailPage(HEALTHY, HEALTHY[1], 0, NoKey, 0, [3], 0);
    assert Trail(HEALTHY, HEALTHY[1], 0, NoKey, 0, [3]);
  }

  lemma {:induction false} HealthyNext(p: Page, k: nat, low: LowKey, before: nat)
    requires (p, k, before) in {(HEALTHY[1], 1, 3), (HEALTHY[2], 0, 4), (HEALTHY[2], 1, 5)}
    ensures Reached(HEALTHY, p, k, low, before)
  {
    var q := [before + 1];
    assert TrailPage(HEALTHY, p, k, low, before, q, 0);
    assert Trail(HEALTHY, p, k, low, before, q);
  }

  lemma {:induction false} HealthyFirst()
    ensures PageReached(HEALTHY, HEALTHY[1], NoKey, 0)
  {
    var p := HEALTHY[1];
    HealthyLeft();
    HealthyNext(p, 1, NoKey, 3);
    assert ItemReached(HEALTHY, p, NoKey, 0, 0) && ItemReached(HEALTHY, p, NoKey, 0, 1);
  }

  lemma {:induction false} HealthySecond()
    ensures PageReached(HEALTHY, HEALTHY[2], LowKey(20), 4)
  {
    var p := HEALTHY[2];
    HealthyNext(p, 0, LowKey(20), 4);
    HealthyNext(p, 1, LowKey(20), 5);
    assert ItemReached(HEALTHY, p, LowKey(20), 4, 0) && ItemReached(HEALTHY, p, LowKey(20), 4, 1);
    assert Trail(HEALTHY, p, -1, LowKey(20), 6, []);
  }

  lemma {:induction false} HealthyBelow()
    ensures LevelBelow(HEALTHY, [1, 2])
  {
    var path := [1, 2];
    assert LastDown(HEALTHY, path, 0) == 0 && LastDown(HEALTHY, path, 1) == 4 && LowBefore(HEALTHY, path, 1) == LowKey(20);
    HealthyFirst();
    assert BlockBelow(HEALTHY, path, 0);
    HealthySecond();
    assert BlockBelow(HEALTHY, path, 1);
  }

  /** On two internal pages in order over four leaves in order the pass is silent. */
  method HealthyPasses(steps: nat, fuel: nat) returns (r: Outcome)
    requires steps > 6 && fuel > 6
    ensures r == Silent
  {
    HealthyPath();
    HealthyPages();
    HealthyBelow();
    assert Sound(HEALTHY, 1, false, 1, [1, 2]);
    assert HEALTHY.Keys == {1, 2, 3, 4, 5, 6};
    SilentIff(HEALTHY, 1, false, 1, steps, fuel);
    var lost, next;
    ghost var path;
    r, lost, next, path := CheckLevel(HEALTHY, 1, 1, false, steps, fuel);
  }

  /** An empty live page between two pages that are out of order. */
  const HIDDEN: Index := map[
    1 := Page(0, 2, 0, true, false, false, false, false, false, 9, 0, [Item(5, 5, 0)]),
    2 := Page(1, 3, 0, true, false, false, false, false, false, 9, 0, []),
    3 := Page(2, 0, 0, true, false, false, false, false, false, 0, 0, [Item(4, 4, 0)])]

  lemma {:induction false} HiddenPath()
    ensures WholeLevel(HIDDEN, 0, [1, 2, 3])
  {
    var path := [1, 2, 3];
    assert LeftPath(HIDDEN, [1]);
    assert LeftmostButHalfDead(HIDDEN, 1);
    assert VisitOk(HIDDEN, 0, path, 0) && VisitOk(HIDDEN, 0, path, 1) && VisitOk(HIDDEN, 0, path, 2);
    assert Live(HIDDEN, path[0]);
    assert StartAt(HIDDEN, path, 0) && StartAt(HIDDEN, path, 1) && StartAt(HIDDEN, path, 2);
  }

  lemma {:induction false} HiddenPages()
    ensures PageOk(HIDDEN, 1) && PageOk(HIDDEN, 2) && PageOk(HIDDEN, 3)
  {
    assert RightPath(HIDDEN, 1, [2]) && Precedes(HIDDEN, 1, [2][0]);
  }

  lemma {:induction false} HiddenItems()
    ensures AllItems(HIDDEN, [1, 2, 3], 3) == [Item(5, 5, 0), Item(4, 4, 0)]
  {
    var path := [1, 2, 3];
    assert AllItems(HIDDEN, path, 1) == [Item(5, 5, 0)];
    assert AllItems(HIDDEN, path, 2) == [Item(5, 5, 0)];
  }

  /** The pass over the leaf level is silent, although the items descend. */
  method EmptyPageHides(steps: nat, fuel: nat) returns (r: Outcome)
    requires steps > 3 && fuel > 3
    ensures r == Silent && AllItems(HIDDEN, [1, 2, 3], 3) == [Item(5, 5, 0), Item(4, 4, 0)]
  {
    HiddenPath();
    HiddenPages();
    HiddenItems();
    assert Clean(HIDDEN, false, 1, [1, 2, 3]);
    assert HIDDEN.Keys == {1, 2, 3};
    PassesRuns(HIDDEN, false, 1, steps, fuel);
    var lost, next;
    ghost var path;
    r, lost, next, path := CheckLevel(HIDDEN, 1, 0, false, steps, fuel);
  }

  /** Two posting lists of one page that overlap. */
  const OVERLAP: Index := map[
    1 := Page(0, 0, 0, true, true, false, false, false, false, 0, 0, [Item(1, 7, 0), Item(3, 4, 0)])]

  /** The pass is silent: within a page only the first keys are compared. */
  method OverlapPasses(steps: nat, fuel: nat) returns (r: Outcome)
    requires steps > 1 && fuel > 1
    ensures r == Silent && OVERLAP[1].items[0].hi > OVERLAP[1].items[1].lo
  {
    assert LeftPath(OVERLAP, [1]);
    assert LeftmostButHalfDead(OVERLAP, 1) && VisitOk(OVERLAP, 0, [1], 0) && StartAt(OVERLAP, [1], 0);
    assert ItemOk(OVERLAP[1], 0) && ItemOk(OVERLAP[1], 1) && PageOk(OVERLAP, 1);
    assert Clean(OVERLAP, true, 1, [1]) && WholeLevel(OVERLAP, 0, [1]);
    assert OVERLAP.Keys == {1};
    PassesRuns(OVERLAP, true, 1, steps, fuel);
    var lost, next;
    ghost var path;
    r, lost, next, path := CheckLevel(OVERLAP, 1, 0, true, steps, fuel);
  }

  /** A root whose first downlink is zero, over one leaf. */
  const ZERO_DOWN: Index := map[
    1 := Page(0, 0, 1, false, true, false, false, false, false, 0, 0, [Item(0, 0, 0), Item(3, 3, 2)]),
    2 := Page(0, 0, 0, true, false, false, false, false, false, 0, 0, [Item(4, 4, 0)])]

  lemma {:induction false} ZeroItems(fuel: nat)
    requires fuel > 0
    ensures InnerRun(ZERO_DOWN, 1, START, fuel) == (Silent, START)
  {
    var ix, p := ZERO_DOWN, ZERO_DOWN[1];
    assert ItemRun(ix, 1, START, 0, fuel) == (Silent, START);
    assert LeftPath(ix, [2]);
    assert LeftmostButHalfDead(ix, 2) && Passes(ix, p, 1, START, 2, true, false);
    var s := Below(0, false, NoKey);
    assert Call(ix, p, 1, START, fuel) == (Silent, s);
    assert Above(ix[2], 3) && ChildOk(ix, p, 1) && PivotOk(p, 1);
    assert ItemRun(ix, 1, START, 1, fuel) == (Silent, s);
    assert ItemsRun(ix, 1, s, 2, fuel) == (Silent, s);
    assert ItemsRun(ix, 1, START, 1, fuel) == (Silent, s);
    assert Call(ix, p, -1, s, fuel) == (Silent, START);
  }

  lemma {:induction false} ZeroPass(steps: nat, fuel: nat)
    requires steps > 0 && fuel > 0
    ensures Pass(ZERO_DOWN, 1, true, 1, steps, fuel) == (Silent, false)
  {
    assert LeftPath(ZERO_DOWN, [1]);
    assert LeftmostButHalfDead(ZERO_DOWN, 1);
    assert Admitted(ZERO_DOWN, 1, true, P_NONE, 1, true);
    ZeroItems(fuel);
    assert Pages(ZERO_DOWN, fuel)(1, START) == (Silent, START);
  }

  lemma {:induction false} ZeroNext(path: seq<nat>, next: nat)
    requires WholeLevel(ZERO_DOWN, 1, path) && path[0] == 1 && NextDown(ZERO_DOWN, 1, path, next)
    ensures next == P_NONE
  {
    FirstIsNext(ZERO_DOWN, 1, path, next);
    PathLinked(ZERO_DOWN, 1, path);
    assert LinkAt(ZERO_DOWN, [1], 0);
    NotShorter(ZERO_DOWN, [1], path);
    assert AllDowns(ZERO_DOWN, path, 1) == PageDowns(ZERO_DOWN[1], 2);
    FirstDown(ZERO_DOWN[1], 2);
  }

  /**
    The pass over the root level is silent although zero is no page, and it hands
    down zero as the leftmost block of the next level, which ends the whole check.
   */
  method ZeroDownlinkPasses(steps: nat, fuel: nat) returns (r: Outcome, next: nat)
    requires steps > 0 && fuel > 0
    ensures r == Silent && next == P_NONE
  {
    ZeroPass(steps, fuel);
    var lost;
    ghost var path;
    r, lost, next, path := CheckLevel(ZERO_DOWN, 1, 1, true, steps, fuel);
    ZeroNext(path, next);
  }

  // --------------------------------------------------------------- walks without end

  /** A live page whose two sibling links both lead to one half-dead page. */
  const LOOP: Index := map[
    1 := Page(2, 2, 0, true, false, false, false, false, false, 0, 0, []),
    2 := Page(0, 1, 0, true, false, false, true, false, false, 0, 0, [])]

  lemma {:induction false} LoopPath()
    ensures Clean(LOOP, false, 1, [1, 2, 1])
  {
    var path := [1, 2, 1];
    assert LeftPath(LOOP, [1, 2]) by { assert LeftLinkAt(LOOP, [1, 2], 1); }
    assert LeftmostButHalfDead(LOOP, 1);
    assert VisitOk(LOOP, 0, path, 0) && VisitOk(LOOP, 0, path, 1) && VisitOk(LOOP, 0, path, 2);
    assert Live(LOOP, path[0]);
    assert StartAt(LOOP, path, 0) && StartAt(LOOP, path, 1) && StartAt(LOOP, path, 2);
    assert PageOk(LOOP, 1) && PageOk(LOOP, 2);
  }

  /** With one half-dead page the walk along the level goes round for ever without an error. */
  method HalfDeadLoop(steps: nat, fuel: nat) returns (r: Outcome, lost: bool)
    ensures r == TooLong && (fuel > 2 ==> lost)
  {
    var ring := [1, 2, 1];
    LoopPath();
    CleanPages(LOOP, ring, fuel);
    assert LOOP.Keys == {1, 2};
    RunCircles(LOOP, Pages(LOOP, fuel), false, ring, 0, 2, 0, true, START, steps, fuel > 2);
    var next;
    ghost var path;
    r, lost, next, path := CheckLevel(LOOP, 1, 0, false, steps, fuel);
  }

  /** A live leaf before two deleted pages whose right links lead to each other. */
  const DELETED_RING: Index := map[
    1 := Page(0, 2, 0, true, false, false, false, false, false, 9, 0, [Item(5, 5, 0)]),
    2 := Page(1, 3, 0, true, false, true, false, false, false, 9, 0, []),
    3 := Page(2, 2, 0, true, false, true, false, false, false, 9, 0, [])]

  lemma {:induction false} DeletedHangs()
    ensures LeafEndless(DELETED_RING, false, 1)
  {
    var q := [2, 3, 2];
    assert LinkAt(DELETED_RING, q, 0) && LinkAt(DELETED_RING, q, 1) && LinkAt(DELETED_RING, q, 2);
    assert q[0] == q[2];
    assert SkipTrail(DELETED_RING, 2, q) && !Distinct(q);
    assert LeftPath(DELETED_RING, [1]);
    assert LeftmostButHalfDead(DELETED_RING, 1);
    assert HangsAt(DELETED_RING, false, 1, [], 1);
    assert Clean(DELETED_RING, false, 1, []) && Stuck(DELETED_RING, false, 1, []);
  }

  /** The search for the next page to compare with goes round for ever; no page is half-dead. */
  method DeletedRing(steps: nat, fuel: nat) returns (r: Outcome)
    ensures r == TooLong && NoHalfDead(DELETED_RING)
  {
    DeletedHangs();
    EndlessRuns(DELETED_RING, false, 1, steps, fuel);
    var lost, next;
    ghost var path;
    r, lost, next, path := CheckLevel(DELETED_RING, 1, 0, false, steps, fuel);
  }

  /** A root with two downlinks; right of the first, incompletely split leaves lead back into each other. */
  const SPLIT_RING: Index := map[
    1 := Page(0, 0, 1, false, true, false, false, false, false, 0, 0, [Item(0, 0, 2), Item(5, 5, 6)]),
    2 := Page(0, 3, 0, true, false, false, false, true, false, 9, 0, []),
    3 := Page(2, 4, 0, true, false, false, false, true, false, 9, 0, []),
    4 := Page(3, 5, 0, true, false, false, false, true, false, 9, 0, []),
    5 := Page(4, 4, 0, true, false, false, false, true, false, 9, 0, []),
    6 := Page(5, 0, 0, true, false, false, false, false, false, 0, 0, [])]

  lemma {:induction false} RingUnderRoot()
    ensures RingBelow(SPLIT_RING, SPLIT_RING[1], 1, Below(3, true, NoKey))
  {
    var ix, p, s, q := SPLIT_RING, SPLIT_RING[1], Below(3, true, NoKey), [3, 4, 5, 4];
    assert PassedAt(ix, p, 1, s, true, true, q, 0) && PassedAt(ix, p, 1, s, true, true, q, 1);
    assert PassedAt(ix, p, 1, s, true, true, q, 2) && PassedAt(ix, p, 1, s, true, true, q, 3);
    assert q[1] == q[3];
    assert Passed(ix, p, 1, s, From(p, 1, s), true, Split(s), q) && !Distinct(q);
  }

  lemma {:induction false} SplitItems(fuel: nat)
    ensures InnerRun(SPLIT_RING, 1, START, fuel).0 == TooLong
  {
    var ix, p, s := SPLIT_RING, SPLIT_RING[1], Below(3, true, NoKey);
    assert LeftPath(ix, [2]);
    assert LeftmostButHalfDead(ix, 2) && Passes(ix, p, 0, START, 2, true, false);
    RingUnderRoot();
    CallEndlessIff(ix, p, 1, s, fuel);
    assert PivotOk(p, 1) && Before(ix, 1, 1, fuel) == Silent;
    assert ItemRun(ix, 1, s, 1, fuel).0 == TooLong;
    assert fuel > 0 ==> ItemRun(ix, 1, START, 0, fuel) == (Silent, s);
    assert ItemsRun(ix, 1, s, 1, fuel).0 == TooLong;
    assert ItemsRun(ix, 1, START, 0, fuel).0 == TooLong;
  }

  lemma {:induction false} SplitPass(steps: nat, fuel: nat)
    ensures Pass(SPLIT_RING, 1, true, 1, steps, fuel).0 == TooLong
  {
    assert LeftPath(SPLIT_RING, [1]);
    assert LeftmostButHalfDead(SPLIT_RING, 1);
    assert Admitted(SPLIT_RING, 1, true, P_NONE, 1, true);
    SplitItems(fuel);
    assert Pages(SPLIT_RING, fuel)(1, START).0 == TooLong;
  }

  predicate NoneIgnorable(ix: Index) { forall c :: c in ix ==> !Ignorable(ix[c]) }

  lemma {:induction false} SplitLive()
    ensures NoneIgnorable(SPLIT_RING)
  {
    assert SPLIT_RING.Keys == {1, 2, 3, 4, 5, 6};
  }

  /** The walk below goes round for ever; no page is half-dead or deleted. */
  method SplitRing(steps: nat, fuel: nat) returns (r: Outcome)
    ensures r == TooLong && NoneIgnorable(SPLIT_RING)
  {
    SplitPass(steps, fuel);
    SplitLive();
    var lost, next;
    ghost var path;
    r, lost, next, path := CheckLevel(SPLIT_RING, 1, 1, true, steps, fuel);
  }
}
