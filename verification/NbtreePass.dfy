/**
  When the pass over a level ends, and how.  The step bounds of the model are
  shown to be immaterial: beyond the number of blocks they decide exactly whether
  the pass would go on for ever, and the outcome no longer depends on them.
 */
module NbtreePass {
  import opened NbtreePages
  import opened NbtreeLeaf
  import opened NbtreeChild
  import opened NbtreeLevel

  // ---------------------------------------------------- indexes on which a pass ends

  /** No page is half-dead or deleted, and none below the level is a root or incompletely split. */
  predicate Settled(ix: Index, level: nat) {
    forall c :: c in ix ==>
      !Ignorable(ix[c]) && (ix[c].level + 1 == level ==> !ix[c].root && !ix[c].incomplete)
  }

  /** Right links form no ring, or no page on this level and below it is in an intermediate state. */
  ghost predicate Calm(ix: Index, level: nat) { Acyclic(ix) || Settled(ix, level) }

  lemma {:induction false} CalmNoSkipRing(ix: Index, level: nat, c: nat)
    requires Calm(ix, level)
    ensures !SkipRing(ix, c)
  {
    forall q
      ensures !(SkipTrail(ix, c, q) && !Distinct(q))
    {
      if Settled(ix, level) && q != [] { assert !Skipped(ix, q[0]); }
    }
  }

  lemma {:induction false} SpineHalfDead(ix: Index, top: nat, b: nat, level: nat)
    requires Spine(ix, top, b, level)
    ensures !NoHalfDead(ix)
    decreases level
  {
    if !ix[b].leaf { SpineHalfDead(ix, top, ix[b].items[0].down, level - 1); }
  }

  lemma {:induction false} SettledRejects(ix: Index, level: nat, target: Page, off: int, s: Below, a: nat, b: nat)
    requires Settled(ix, level) && target.level == level && -1 <= off < |target.items|
    requires a in ix && ix[a].level + 1 == level && b != Downlink(target, off)
    ensures !Passes(ix, target, off, s, b, false, ix[a].incomplete)
  {
    if Passes(ix, target, off, s, b, false, ix[a].incomplete) {
      assert !Ignorable(ix[b]) && TopOfDeletion(ix, b);
      SpineHalfDead(ix, b, ix[b].items[0].down, ix[b].level);
    }
  }

  lemma {:induction false} CalmNoRingBelow(ix: Index, level: nat, target: Page, off: int, s: Below)
    requires Calm(ix, level) && target.level == level && -1 <= off < |target.items|
    ensures !RingBelow(ix, target, off, s)
  {
    if RingBelow(ix, target, off, s) {
      var b := From(target, off, s);
      var q :| Passed(ix, target, off, s, b, true, Split(s), q) && !Distinct(q);
      PassedLinked(ix, target, off, s, b, true, Split(s), q);
      assert PassedAt(ix, target, off, s, true, Split(s), q, 0) && PassedAt(ix, target, off, s, true, Split(s), q, 1);
      assert Settled(ix, level) && !Ignorable(ix[q[0]]);
      SettledRejects(ix, level, target, off, s, q[0], q[1]);
    }
  }

  lemma {:induction false} ItemEnds(ix: Index, level: nat, b: nat, s: Below, k: nat, fuel: nat)
    requires Calm(ix, level) && fuel > |ix.Keys| && b in ix && ix[b].level == level && k < |ix[b].items|
    ensures ItemRun(ix, b, s, k, fuel).0 != TooLong
  {
    CalmNoSkipRing(ix, level, ix[b].next);
    SkipEndlessIff(ix, ix[b].next, fuel);
    CalmNoRingBelow(ix, level, ix[b], k, s);
    CallEndlessIff(ix, ix[b], k, s, fuel);
  }

  lemma {:induction false} ItemsEnd(ix: Index, level: nat, b: nat, s: Below, k: nat, fuel: nat)
    requires Calm(ix, level) && fuel > |ix.Keys| && b in ix && ix[b].level == level && k <= |ix[b].items|
    ensures ItemsRun(ix, b, s, k, fuel).0 != TooLong
    decreases |ix[b].items| - k
  {
    if k < |ix[b].items| {
      ItemEnds(ix, level, b, s, k, fuel);
      ItemsEnd(ix, level, b, ItemRun(ix, b, s, k, fuel).1, k + 1, fuel);
    }
  }

  lemma {:induction false} PageEnds(ix: Index, level: nat, b: nat, s: Below, fuel: nat)
    requires Calm(ix, level) && fuel > |ix.Keys| && b in ix && ix[b].level == level
    ensures PageRun(ix, b, s, fuel).0 != TooLong
  {
    if ix[b].leaf {
      CalmNoSkipRing(ix, level, ix[b].next);
      LeafIff(ix, b, fuel);
    } else {
      ItemsEnd(ix, level, b, s, 0, fuel);
      var t := ItemsRun(ix, b, s, 0, fuel).1;
      CalmNoRingBelow(ix, level, ix[b], -1, t);
      CallEndlessIff(ix, ix[b], -1, t, fuel);
    }
  }

  lemma {:induction false} PagesFinish(ix: Index, level: nat, fuel: nat)
    requires Calm(ix, level) && fuel > |ix.Keys|
    ensures Finishing(ix, Pages(ix, fuel), level)
  {
    forall b: nat, s: Below | b in ix && ix[b].level == level
      ensures Pages(ix, fuel)(b, s).0 != TooLong
    {
      PageEnds(ix, level, b, s, fuel);
    }
  }

  /** The page checks on this level end. */
  ghost predicate Finishing(ix: Index, pages: Checks, level: nat) {
    forall b: nat, s: Below :: b in ix && ix[b].level == level ==> pages(b, s).0 != TooLong
  }

  /** A block that is passed moves the walk on. */
  lemma {:induction false} BlockGoes(ix: Index, pages: Checks, level: nat, trueRoot: bool, path: seq<nat>, left: nat, b: nat,
                                     first: bool, s: Below)
    requires AtBlock(ix, level, trueRoot, path, left, b, first)
    requires BlockRun(ix, pages, level, trueRoot, left, b, first, s).0 == Silent
    ensures b in ix && AtBlock(ix, level, trueRoot, path + [b], b, ix[b].next, first && Ignorable(ix[b]))
  {
    BlockDone(ix, level, trueRoot, path, left, b, first);
  }

  /** When all page checks end, only the walk itself can go on for too long. */
  lemma {:induction false} OnlyLost(ix: Index, pages: Checks, level: nat, trueRoot: bool, left: nat, b: nat, first: bool,
                                    s: Below, steps: nat)
    requires Finishing(ix, pages, level)
    ensures var t := LevelRun(ix, pages, level, trueRoot, left, b, first, s, steps); t.0 == TooLong ==> t.1
    decreases steps
  {
    var t := BlockRun(ix, pages, level, trueRoot, left, b, first, s);
    if steps > 0 && t.0 == Silent && !Rightmost(ix[b]) {
      OnlyLost(ix, pages, level, trueRoot, b, ix[b].next, first && Ignorable(ix[b]), t.1, steps - 1);
    }
  }

  /** A walk that ran out of steps leaves a path of that many blocks. */
  lemma {:induction false} LostPath(ix: Index, pages: Checks, level: nat, trueRoot: bool, path: seq<nat>, left: nat, b: nat,
                                    first: bool, s: Below, steps: nat) returns (p: seq<nat>)
    requires AtBlock(ix, level, trueRoot, path, left, b, first)
    requires LevelRun(ix, pages, level, trueRoot, left, b, first, s, steps).1
    ensures LevelPath(ix, level, p) && |p| == |path| + steps
    decreases steps
  {
    p := path;
    if steps > 0 {
      var t := BlockRun(ix, pages, level, trueRoot, left, b, first, s);
      BlockGoes(ix, pages, level, trueRoot, path, left, b, first, s);
      p := LostPath(ix, pages, level, trueRoot, path + [b], b, ix[b].next, first && Ignorable(ix[b]), t.1, steps - 1);
    }
  }

  /**
    The whole pass, with every walk inside it, ends within the number of blocks
    when right links form no ring, and also when no page is half-dead or deleted
    and no page just below is a root or incompletely split.
   */
  lemma {:induction false} PassEnds(ix: Index, level: nat, trueRoot: bool, leftmost: nat, steps: nat, fuel: nat)
    requires Calm(ix, level) && steps > |ix.Keys| && fuel > |ix.Keys|
    ensures Pass(ix, level, trueRoot, leftmost, steps, fuel).0 != TooLong
  {
    if Pass(ix, level, trueRoot, leftmost, steps, fuel).0 == TooLong {
      PagesFinish(ix, level, fuel);
      OnlyLost(ix, Pages(ix, fuel), level, trueRoot, P_NONE, leftmost, true, START, steps);
      var p := LostPath(ix, Pages(ix, fuel), level, trueRoot, [], P_NONE, leftmost, true, START, steps);
      PathLinked(ix, level, p);
      if Settled(ix, level) { LevelBounded(ix, level, p); }
      LongRepeats(ix, p);
    }
  }

  // ------------------------------------------------------- independence of the fuel

  /** Beyond the number of blocks fuel does not matter: less may only be too little. */
  lemma {:induction false} SkipAgrees(ix: Index, c: nat, fuel: nat, other: nat)
    requires fuel > |ix.Keys|
    ensures SkipRun(ix, c, other).0 == TooLong || SkipRun(ix, c, other) == SkipRun(ix, c, fuel)
  {
    if SkipRun(ix, c, other).0 != TooLong {
      if other <= fuel {
        SkipMore(ix, c, other, fuel);
      } else {
        SkipEndlessIff(ix, c, fuel);
        SkipEndlessIff(ix, c, other);
        SkipMore(ix, c, fuel, other);
      }
    }
  }

  lemma {:induction false} CallAgrees(ix: Index, target: Page, off: int, s: Below, fuel: nat, other: nat)
    requires fuel > |ix.Keys| && -1 <= off < |target.items|
    ensures Call(ix, target, off, s, other).0 == TooLong || Call(ix, target, off, s, other) == Call(ix, target, off, s, fuel)
  {
    var b := From(target, off, s);
    if Call(ix, target, off, s, other).0 != TooLong {
      if other <= fuel {
        WalkMore(ix, target, off, s, b, true, Split(s), other, fuel);
      } else {
        CallEndlessIff(ix, target, off, s, fuel);
        CallEndlessIff(ix, target, off, s, other);
        WalkMore(ix, target, off, s, b, true, Split(s), fuel, other);
      }
    }
  }

  lemma {:induction false} ItemAgrees(ix: Index, b: nat, s: Below, k: nat, fuel: nat, other: nat)
    requires fuel > |ix.Keys| && b in ix && k < |ix[b].items|
    ensures ItemRun(ix, b, s, k, other).0 == TooLong || ItemRun(ix, b, s, k, other) == ItemRun(ix, b, s, k, fuel)
  {
    SkipAgrees(ix, ix[b].next, fuel, other);
    CallAgrees(ix, ix[b], k, s, fuel, other);
  }

  lemma {:induction false} ItemsAgree(ix: Index, b: nat, s: Below, k: nat, fuel: nat, other: nat)
    requires fuel > |ix.Keys| && b in ix && k <= |ix[b].items|
    ensures ItemsRun(ix, b, s, k, other).0 == TooLong || ItemsRun(ix, b, s, k, other) == ItemsRun(ix, b, s, k, fuel)
    decreases |ix[b].items| - k
  {
    if k < |ix[b].items| {
      ItemAgrees(ix, b, s, k, fuel, other);
      ItemsAgree(ix, b, ItemRun(ix, b, s, k, fuel).1, k + 1, fuel, other);
    }
  }

  lemma {:induction false} PageAgrees(ix: Index, b: nat, s: Below, fuel: nat, other: nat)
    requires fuel > |ix.Keys| && b in ix
    ensures PageRun(ix, b, s, other).0 == TooLong || PageRun(ix, b, s, other) == PageRun(ix, b, s, fuel)
  {
    if ix[b].leaf {
      SkipAgrees(ix, ix[b].next, fuel, other);
    } else {
      ItemsAgree(ix, b, s, 0, fuel, other);
      CallAgrees(ix, ix[b], -1, ItemsRun(ix, b, s, 0, fuel).1, fuel, other);
    }
  }

  /** The second checks answer like the first, unless they run out of fuel. */
  ghost predicate Agree(pages: Checks, pages': Checks) {
    forall b: nat, s: Below :: pages'(b, s).0 == TooLong || pages'(b, s) == pages(b, s)
  }

  lemma {:induction false} PagesAgree(ix: Index, fuel: nat, other: nat)
    requires fuel > |ix.Keys|
    ensures Agree(Pages(ix, fuel), Pages(ix, other))
  {
    forall b: nat, s: Below
      ensures Pages(ix, other)(b, s).0 == TooLong || Pages(ix, other)(b, s) == Pages(ix, fuel)(b, s)
    {
      if b in ix { PageAgrees(ix, b, s, fuel, other); }
    }
  }

  /** Two runs agree unless one ran out of fuel, or the walk out of steps. */
  lemma {:induction false} RunAgrees(ix: Index, pages: Checks, pages': Checks, level: nat, trueRoot: bool, left: nat, b: nat,
                                     first: bool, s: Below, steps: nat, steps': nat)
    requires Agree(pages, pages') && !LevelRun(ix, pages, level, trueRoot, left, b, first, s, steps).1
    ensures var t, u := LevelRun(ix, pages, level, trueRoot, left, b, first, s, steps),
                        LevelRun(ix, pages', level, trueRoot, left, b, first, s, steps');
            u.0 == TooLong || u.0 == t.0
    decreases steps
  {
    if steps' > 0 {
      var t := BlockRun(ix, pages, level, trueRoot, left, b, first, s);
      if t.0 == Silent && !Rightmost(ix[b]) {
        RunAgrees(ix, pages, pages', level, trueRoot, b, ix[b].next, first && Ignorable(ix[b]), t.1, steps - 1, steps' - 1);
      }
    }
  }

  // ------------------------------------------------------------------- leaf levels

  /** Blocks from leftmost on that pass all checks. */
  ghost predicate Clean(ix: Index, trueRoot: bool, leftmost: nat, path: seq<nat>) {
    LevelPath(ix, 0, path) && RootOk(ix, trueRoot, path) && PagesOk(ix, path) && (path != [] ==> path[0] == leftmost)
  }

  function LeftOf(path: seq<nat>, k: nat): nat
    requires k <= |path|
  {
    if k == 0 then P_NONE else path[k - 1]
  }

  /** Block b comes after the path, and the check of its page never ends. */
  ghost predicate HangsAt(ix: Index, trueRoot: bool, leftmost: nat, path: seq<nat>, b: nat) {
    && (if path == [] then b == leftmost else path[|path| - 1] in ix && ix[path[|path| - 1]].next == b)
    && Admitted(ix, 0, trueRoot, LeftOf(path, |path|), b, NoLive(ix, path)) && Live(ix, b) && LeafHangs(ix, b)
  }

  /** All checks pass up to the right end of the level. */
  ghost predicate LeafPasses(ix: Index, trueRoot: bool, leftmost: nat) {
    exists path :: Clean(ix, trueRoot, leftmost, path) && WholeLevel(ix, 0, path)
  }

  /** All checks pass until a block returns, or until a page right of a ring of ignorable pages. */
  ghost predicate LeafEndless(ix: Index, trueRoot: bool, leftmost: nat) {
    exists path :: Clean(ix, trueRoot, leftmost, path) && Stuck(ix, trueRoot, leftmost, path)
  }

  ghost predicate Stuck(ix: Index, trueRoot: bool, leftmost: nat, path: seq<nat>) {
    !Distinct(path) || exists b :: HangsAt(ix, trueRoot, leftmost, path, b)
  }

  /** The checks raise no error on the pages of the path; with enough fuel they are silent. */
  ghost predicate Tolerant(ix: Index, pages: Checks, path: seq<nat>, enough: bool) {
    forall k, s: Below :: 0 <= k < |path| && Live(ix, path[k]) ==>
      pages(path[k], s).0 != Corrupt && (enough ==> pages(path[k], s).0 == Silent)
  }

  lemma {:induction false} CleanPages(ix: Index, path: seq<nat>, fuel: nat)
    requires Visits(ix, 0, path) && PagesOk(ix, path)
    ensures Tolerant(ix, Pages(ix, fuel), path, fuel > |ix.Keys|)
  {
    var big := fuel + |ix.Keys| + 1;
    forall k, s: Below | 0 <= k < |path| && Live(ix, path[k])
      ensures Pages(ix, fuel)(path[k], s).0 != Corrupt && (fuel > |ix.Keys| ==> Pages(ix, fuel)(path[k], s).0 == Silent)
    {
      assert VisitOk(ix, 0, path, k) && PageOk(ix, path[k]);
      LeafIff(ix, path[k], big);
      PageAgrees(ix, path[k], s, big, fuel);
      LeafIff(ix, path[k], fuel);
    }
  }

  /** A clean block is passed, unless fuel is short. */
  lemma {:induction false} CleanStep(ix: Index, pages: Checks, trueRoot: bool, path: seq<nat>, k: nat, first: bool, s: Below,
                                     enough: bool)
    requires LevelPath(ix, 0, path) && RootOk(ix, trueRoot, path) && Tolerant(ix, pages, path, enough)
    requires k < |path| && (first ==> NoneLive(ix, path, k))
    ensures BlockRun(ix, pages, 0, trueRoot, LeftOf(path, k), path[k], first, s).0 != Corrupt
    ensures enough ==> BlockRun(ix, pages, 0, trueRoot, LeftOf(path, k), path[k], first, s).0 == Silent
    ensures path[k] in ix && (k + 1 < |path| ==> ix[path[k]].next == path[k + 1] != P_NONE)
  {
    assert VisitOk(ix, 0, path, k);
    if k + 1 < |path| { assert VisitOk(ix, 0, path, k + 1); }
    if Live(ix, path[k]) {
      assert pages(path[k], s).0 != Corrupt;
      assert RootAt(ix, trueRoot, path, k) && StartAt(ix, path, k);
    }
  }

  /** The walk along a path that is clean and whose page checks raise no error. */
  ghost predicate Walkable(ix: Index, pages: Checks, trueRoot: bool, path: seq<nat>, enough: bool) {
    LevelPath(ix, 0, path) && RootOk(ix, trueRoot, path) && Tolerant(ix, pages, path, enough)
  }

  /** A clean path to the right end makes the pass silent. */
  lemma {:induction false} RunPasses(ix: Index, pages: Checks, trueRoot: bool, path: seq<nat>, k: nat, first: bool, s: Below,
                                     steps: nat)
    requires Walkable(ix, pages, trueRoot, path, true) && k < |path| && (first ==> NoneLive(ix, path, k))
    requires path[|path| - 1] in ix && Rightmost(ix[path[|path| - 1]]) && steps >= |path| - k
    ensures LevelRun(ix, pages, 0, trueRoot, LeftOf(path, k), path[k], first, s, steps).0 == Silent
    decreases |path| - k
  {
    CleanStep(ix, pages, trueRoot, path, k, first, s, true);
    if k + 1 < |path| {
      var t := BlockRun(ix, pages, 0, trueRoot, LeftOf(path, k), path[k], first, s).1;
      RunPasses(ix, pages, trueRoot, path, k + 1, first && Ignorable(ix[path[k]]), t, steps - 1);
    }
  }

  /** A clean path that returns to block path[i] is walked for ever. */
  lemma {:induction false} RunCircles(ix: Index, pages: Checks, trueRoot: bool, path: seq<nat>, i: nat, j: nat, k: nat,
                                      first: bool, s: Below, steps: nat, enough: bool)
    requires Walkable(ix, pages, trueRoot, path, enough) && i < j < |path| && path[i] == path[j]
    requires k <= j && (first ==> NoneLive(ix, path, k))
    ensures LevelRun(ix, pages, 0, trueRoot, LeftOf(path, k), path[k], first, s, steps).0 == TooLong
    ensures enough ==> LevelRun(ix, pages, 0, trueRoot, LeftOf(path, k), path[k], first, s, steps).1
    decreases steps
  {
    if steps > 0 {
      CleanStep(ix, pages, trueRoot, path, k, first, s, enough);
      var t := BlockRun(ix, pages, 0, trueRoot, LeftOf(path, k), path[k], first, s);
      if t.0 == Silent {
        var m := if k < j then k + 1 else i + 1;
        CleanStep(ix, pages, trueRoot, path, m - 1, false, s, enough);
        RunCircles(ix, pages, trueRoot, path, i, j, m, first && Ignorable(ix[path[k]]), t.1, steps - 1, enough);
      }
    }
  }

  /** A clean path up to a page whose check never ends. */
  lemma {:induction false} RunHangs(ix: Index, pages: Checks, trueRoot: bool, leftmost: nat, path: seq<nat>, b: nat, k: nat,
                                    first: bool, s: Below, steps: nat)
    requires Walkable(ix, pages, trueRoot, path, false) && HangsAt(ix, trueRoot, leftmost, path, b)
    requires forall s': Below :: pages(b, s').0 == TooLong
    requires k <= |path| && (first <==> NoneLive(ix, path, k))
    ensures LevelRun(ix, pages, 0, trueRoot, LeftOf(path, k), if k < |path| then path[k] else b, first, s, steps).0 == TooLong
    decreases |path| - k
  {
    if steps > 0 && k < |path| {
      CleanStep(ix, pages, trueRoot, path, k, first, s, false);
      var t := BlockRun(ix, pages, 0, trueRoot, LeftOf(path, k), path[k], first, s);
      if t.0 == Silent {
        RunHangs(ix, pages, trueRoot, leftmost, path, b, k + 1, first && Ignorable(ix[path[k]]), t.1, steps - 1);
      }
    }
  }

  /** What the outcome of a leaf page check says about the page. */
  ghost predicate Telling(ix: Index, pages: Checks) {
    forall b: nat, s: Below :: Loads(ix, b) && ix[b].leaf ==>
      (pages(b, s).0 == Silent ==> PageOk(ix, b)) && (pages(b, s).0 == TooLong ==> LeafHangs(ix, b))
  }

  lemma {:induction false} PagesTell(ix: Index, fuel: nat)
    requires fuel > |ix.Keys|
    ensures Telling(ix, Pages(ix, fuel))
  {
    forall b: nat, s: Below | Loads(ix, b) && ix[b].leaf
      ensures Pages(ix, fuel)(b, s).0 == Silent ==> PageOk(ix, b)
      ensures Pages(ix, fuel)(b, s).0 == TooLong ==> LeafHangs(ix, b)
    {
      LeafIff(ix, b, fuel);
    }
  }

  lemma {:induction false} CleanGrows(ix: Index, trueRoot: bool, leftmost: nat, path: seq<nat>, left: nat, b: nat, first: bool)
    requires Clean(ix, trueRoot, leftmost, path) && AtBlock(ix, 0, trueRoot, path + [b], left, if b in ix then ix[b].next else 0, first)
    requires PageOk(ix, b) && (path == [] ==> b == leftmost)
    ensures Clean(ix, trueRoot, leftmost, path + [b])
  {
    var p := path + [b];
    assert p[|path|] == b && forall i :: 0 <= i < |path| ==> p[i] == path[i];
  }

  lemma {:induction false} BlockTells(ix: Index, pages: Checks, trueRoot: bool, leftmost: nat, path: seq<nat>, left: nat, b: nat,
                                      first: bool, s: Below)
    requires AtBlock(ix, 0, trueRoot, path, left, b, first) && Telling(ix, pages) && (path == [] ==> b == leftmost)
    ensures var t := BlockRun(ix, pages, 0, trueRoot, left, b, first, s);
            (t.0 == Silent ==> PageOk(ix, b)) && (t.0 == TooLong ==> HangsAt(ix, trueRoot, leftmost, path, b))
  {
    var t := BlockRun(ix, pages, 0, trueRoot, left, b, first, s);
    if t.0 != Corrupt && Live(ix, b) { assert pages(b, s).0 == t.0 || t.0 == Silent; }
  }

  /** A pass over a leaf level leaves a clean path behind, which says why it ended. */
  lemma {:induction false} RunPath(ix: Index, pages: Checks, trueRoot: bool, leftmost: nat, path: seq<nat>, left: nat, b: nat,
                                   first: bool, s: Below, steps: nat)
    requires AtBlock(ix, 0, trueRoot, path, left, b, first) && Telling(ix, pages)
    requires Clean(ix, trueRoot, leftmost, path) && (path == [] ==> b == leftmost)
    ensures var r := LevelRun(ix, pages, 0, trueRoot, left, b, first, s, steps).0;
            && (r == Silent ==> LeafPasses(ix, trueRoot, leftmost))
            && (r == TooLong && |path| + steps > |ix.Keys| ==> LeafEndless(ix, trueRoot, leftmost))
    decreases steps
  {
    if steps == 0 {
      PathLinked(ix, 0, path);
      if |path| > |ix.Keys| {
        LongRepeats(ix, path);
        assert Stuck(ix, trueRoot, leftmost, path);
      }
    } else {
      var t := BlockRun(ix, pages, 0, trueRoot, left, b, first, s);
      BlockTells(ix, pages, trueRoot, leftmost, path, left, b, first, s);
      if t.0 == TooLong {
        assert Stuck(ix, trueRoot, leftmost, path);
      } else if t.0 == Silent {
        BlockGoes(ix, pages, 0, trueRoot, path, left, b, first, s);
        var p := path + [b];
        CleanGrows(ix, trueRoot, leftmost, path, b, b, first && Ignorable(ix[b]));
        if Rightmost(ix[b]) {
          assert WholeLevel(ix, 0, p);
        } else {
          RunPath(ix, pages, trueRoot, leftmost, p, b, ix[b].next, first && Ignorable(ix[b]), t.1, steps - 1);
        }
      }
    }
  }

  lemma {:induction false} HangsPages(ix: Index, b: nat, fuel: nat)
    requires LeafHangs(ix, b) && ix[b].leaf
    ensures forall s: Below :: Pages(ix, fuel)(b, s).0 == TooLong
  {
    LeafIff(ix, b, fuel);
  }

  lemma {:induction false} EndlessRuns(ix: Index, trueRoot: bool, leftmost: nat, steps: nat, fuel: nat)
    requires LeafEndless(ix, trueRoot, leftmost)
    ensures Pass(ix, 0, trueRoot, leftmost, steps, fuel).0 == TooLong
  {
    var path :| Clean(ix, trueRoot, leftmost, path) && Stuck(ix, trueRoot, leftmost, path);
    CleanPages(ix, path, fuel);
    if Distinct(path) {
      var b :| HangsAt(ix, trueRoot, leftmost, path, b);
      HangsPages(ix, b, fuel);
      RunHangs(ix, Pages(ix, fuel), trueRoot, leftmost, path, b, 0, true, START, steps);
    } else {
      var i, j :| 0 <= i < j < |path| && path[i] == path[j];
      RunCircles(ix, Pages(ix, fuel), trueRoot, path, i, j, 0, true, START, steps, fuel > |ix.Keys|);
    }
  }

  lemma {:induction false} PassesRuns(ix: Index, trueRoot: bool, leftmost: nat, steps: nat, fuel: nat)
    requires LeafPasses(ix, trueRoot, leftmost) && steps > |ix.Keys| && fuel > |ix.Keys|
    ensures Pass(ix, 0, trueRoot, leftmost, steps, fuel).0 == Silent
  {
    var path :| Clean(ix, trueRoot, leftmost, path) && WholeLevel(ix, 0, path);
    CleanPages(ix, path, fuel);
    RunPasses(ix, Pages(ix, fuel), trueRoot, path, 0, true, START, |path|);
    if !Distinct(path) {
      assert Stuck(ix, trueRoot, leftmost, path);
      EndlessRuns(ix, trueRoot, leftmost, |path|, fuel);
    }
    PathLinked(ix, 0, path);
    if |path| > |ix.Keys| { LongRepeats(ix, path); }
    RunPasses(ix, Pages(ix, fuel), trueRoot, path, 0, true, START, steps);
  }

  /**
    A pass over a leaf level, exactly: silent if and only if all checks hold on a
    path to the right end, endless if and only if they hold up to a block that
    returns or up to a page right of which ignorable pages form a ring, and an
    error otherwise.
   */
  lemma {:induction false} LeafPassIff(ix: Index, trueRoot: bool, leftmost: nat, steps: nat, fuel: nat)
    ensures LeafEndless(ix, trueRoot, leftmost) ==> Pass(ix, 0, trueRoot, leftmost, steps, fuel).0 == TooLong
    ensures steps > |ix.Keys| && fuel > |ix.Keys| ==>
              (Pass(ix, 0, trueRoot, leftmost, steps, fuel).0 == TooLong <==> LeafEndless(ix, trueRoot, leftmost))
    ensures steps > |ix.Keys| && fuel > |ix.Keys| ==>
              (Pass(ix, 0, trueRoot, leftmost, steps, fuel).0 == Silent <==> LeafPasses(ix, trueRoot, leftmost))
  {
    if LeafEndless(ix, trueRoot, leftmost) { EndlessRuns(ix, trueRoot, leftmost, steps, fuel); }
    if steps > |ix.Keys| && fuel > |ix.Keys| {
      PagesTell(ix, fuel);
      RunPath(ix, Pages(ix, fuel), trueRoot, leftmost, [], P_NONE, leftmost, true, START, steps);
      if LeafPasses(ix, trueRoot, leftmost) { PassesRuns(ix, trueRoot, leftmost, steps, fuel); }
    }
  }

  // ---------------------------------------------------------------------- every level

  /** Enough for every walk that ends. */
  function Enough(ix: Index): nat { |ix.Keys| + 1 }

  /**
    The checks on item k never end: right of the page ignorable pages form a ring,
    or the pages below form one without meeting the downlink.
   */
  ghost predicate ItemHangs(ix: Index, b: nat, s: Below, k: nat)
    requires b in ix && k < |ix[b].items|
  {
    || (0 < k == |ix[b].items| - 1 && PivotOk(ix[b], k) && !Rightmost(ix[b]) && SkipRing(ix, ix[b].next))
    || (Before(ix, b, k, Enough(ix)) == Silent && RingBelow(ix, ix[b], k, s))
  }

  /** From item k on the items pass up to one whose checks never end. */
  ghost predicate ItemsHang(ix: Index, b: nat, s: Below, k: nat)
    requires b in ix && k <= |ix[b].items|
    decreases |ix[b].items| - k
  {
    k < |ix[b].items| &&
    (ItemHangs(ix, b, s, k) ||
     (ItemRun(ix, b, s, k, Enough(ix)).0 == Silent && ItemsHang(ix, b, ItemRun(ix, b, s, k, Enough(ix)).1, k + 1)))
  }

  /** The checks on the page never end, in one of its items or in the walk after the last downlink. */
  ghost predicate PageHangs(ix: Index, b: nat, s: Below) {
    && b in ix
    && var t := ItemsRun(ix, b, s, 0, Enough(ix));
       if ix[b].leaf then LeafHangs(ix, b)
       else ItemsHang(ix, b, s, 0) || (t.0 == Silent && Rightmost(ix[b]) && RingBelow(ix, ix[b], -1, t.1))
  }

  lemma {:induction false} ItemHangsIff(ix: Index, b: nat, s: Below, k: nat)
    requires b in ix && k < |ix[b].items|
    ensures ItemRun(ix, b, s, k, Enough(ix)).0 == TooLong <==> ItemHangs(ix, b, s, k)
  {
    SkipEndlessIff(ix, ix[b].next, Enough(ix));
    CallEndlessIff(ix, ix[b], k, s, Enough(ix));
  }

  lemma {:induction false} ItemsHangIff(ix: Index, b: nat, s: Below, k: nat)
    requires b in ix && k <= |ix[b].items|
    ensures ItemsRun(ix, b, s, k, Enough(ix)).0 == TooLong <==> ItemsHang(ix, b, s, k)
    decreases |ix[b].items| - k
  {
    if k < |ix[b].items| {
      ItemHangsIff(ix, b, s, k);
      ItemsHangIff(ix, b, ItemRun(ix, b, s, k, Enough(ix)).1, k + 1);
    }
  }

  lemma {:induction false} PageHangsIff(ix: Index, b: nat, s: Below)
    requires b in ix
    ensures PageRun(ix, b, s, Enough(ix)).0 == TooLong <==> PageHangs(ix, b, s)
  {
    if ix[b].leaf {
      LeafIff(ix, b, Enough(ix));
    } else {
      ItemsHangIff(ix, b, s, 0);
      CallEndlessIff(ix, ix[b], -1, ItemsRun(ix, b, s, 0, Enough(ix)).1, Enough(ix));
    }
  }

  /** Where the walk below stands after the first k blocks of the path. */
  ghost function After(ix: Index, pages: Checks, path: seq<nat>, k: nat): Below
    requires k <= |path|
  {
    if k == 0 || path[k - 1] !in ix then START
    else
      var s := After(ix, pages, path, k - 1);
      (if Live(ix, path[k - 1]) then pages(path[k - 1], s).1 else s).(low := LowOf(ix[path[k - 1]]))
  }

  lemma {:induction false} AfterSame(ix: Index, pages: Checks, a: seq<nat>, b: seq<nat>, k: nat)
    requires k <= |a| && k <= |b| && forall i :: 0 <= i < k ==> a[i] == b[i]
    ensures After(ix, pages, a, k) == After(ix, pages, b, k)
  {
    if k > 0 { AfterSame(ix, pages, a, b, k - 1); }
  }

  /** The page checks on block i of the path pass. */
  ghost predicate PassedPage(ix: Index, pages: Checks, path: seq<nat>, i: nat)
    requires i < |path|
  {
    Live(ix, path[i]) ==> pages(path[i], After(ix, pages, path, i)).0 == Silent
  }

  /** All checks pass on the blocks of the path. */
  ghost predicate Tested(ix: Index, pages: Checks, level: nat, trueRoot: bool, leftmost: nat, path: seq<nat>) {
    && LevelPath(ix, level, path) && RootOk(ix, trueRoot, path) && (path != [] ==> path[0] == leftmost)
    && forall i :: 0 <= i < |path| ==> PassedPage(ix, pages, path, i)
  }

  /** Block b comes after the path, and the checks on its page never end. */
  ghost predicate StopsAt(ix: Index, pages: Checks, level: nat, trueRoot: bool, leftmost: nat, path: seq<nat>, b: nat) {
    && (if path == [] then b == leftmost else path[|path| - 1] in ix && ix[path[|path| - 1]].next == b)
    && Admitted(ix, level, trueRoot, LeftOf(path, |path|), b, NoLive(ix, path)) && Live(ix, b)
    && PageHangs(ix, b, After(ix, pages, path, |path|))
  }

  /** A tested block is passed. */
  lemma {:induction false} TestedStep(ix: Index, pages: Checks, level: nat, trueRoot: bool, leftmost: nat, path: seq<nat>, k: nat)
    requires Tested(ix, pages, level, trueRoot, leftmost, path) && k < |path|
    ensures path[k] in ix && (k + 1 < |path| ==> ix[path[k]].next == path[k + 1] != P_NONE)
    ensures BlockRun(ix, pages, level, trueRoot, LeftOf(path, k), path[k], NoneLive(ix, path, k), After(ix, pages, path, k))
              == (Silent, After(ix, pages, path, k + 1))
    ensures NoneLive(ix, path, k + 1) <==> NoneLive(ix, path, k) && Ignorable(ix[path[k]])
  {
    assert VisitOk(ix, level, path, k) && PassedPage(ix, pages, path, k);
    assert StartAt(ix, path, k) && RootAt(ix, trueRoot, path, k);
    if k + 1 < |path| { assert VisitOk(ix, level, path, k + 1); }
  }

  lemma {:induction false} TestedHangs(ix: Index, pages: Checks, level: nat, trueRoot: bool, leftmost: nat, path: seq<nat>, b: nat,
                                       k: nat, steps: nat)
    requires Tested(ix, pages, level, trueRoot, leftmost, path) && StopsAt(ix, pages, level, trueRoot, leftmost, path, b)
    requires pages(b, After(ix, pages, path, |path|)).0 == TooLong && k <= |path|
    ensures LevelRun(ix, pages, level, trueRoot, LeftOf(path, k), if k < |path| then path[k] else b, NoneLive(ix, path, k),
                     After(ix, pages, path, k), steps).0 == TooLong
    decreases |path| - k
  {
    if steps > 0 && k < |path| {
      TestedStep(ix, pages, level, trueRoot, leftmost, path, k);
      TestedHangs(ix, pages, level, trueRoot, leftmost, path, b, k + 1, steps - 1);
    }
  }

  lemma {:induction false} TestedGrows(ix: Index, pages: Checks, level: nat, trueRoot: bool, leftmost: nat, path: seq<nat>,
                                       left: nat, b: nat, first: bool)
    requires Tested(ix, pages, level, trueRoot, leftmost, path) && AtBlock(ix, level, trueRoot, path, left, b, first)
    requires path == [] ==> b == leftmost
    requires BlockRun(ix, pages, level, trueRoot, left, b, first, After(ix, pages, path, |path|)).0 == Silent
    ensures Tested(ix, pages, level, trueRoot, leftmost, path + [b])
    ensures After(ix, pages, path + [b], |path| + 1)
              == BlockRun(ix, pages, level, trueRoot, left, b, first, After(ix, pages, path, |path|)).1
  {
    BlockGoes(ix, pages, level, trueRoot, path, left, b, first, After(ix, pages, path, |path|));
    var p := path + [b];
    AfterSame(ix, pages, path, p, |path|);
    forall i | 0 <= i < |p|
      ensures PassedPage(ix, pages, p, i)
    {
      if i < |path| {
        AfterSame(ix, pages, path, p, i);
        assert PassedPage(ix, pages, path, i);
      }
    }
  }

  /** A run that stops in a page check leaves the path to that page behind. */
  lemma {:induction false} RunStops(ix: Index, pages: Checks, level: nat, trueRoot: bool, leftmost: nat, path: seq<nat>,
                                    left: nat, b: nat, first: bool, steps: nat) returns (p: seq<nat>, c: nat)
    requires Tested(ix, pages, level, trueRoot, leftmost, path) && AtBlock(ix, level, trueRoot, path, left, b, first)
    requires path == [] ==> b == leftmost
    requires forall x: nat, s: Below :: x in ix && pages(x, s).0 == TooLong ==> PageHangs(ix, x, s)
    requires LevelRun(ix, pages, level, trueRoot, left, b, first, After(ix, pages, path, |path|), steps) == (TooLong, false)
    ensures Tested(ix, pages, level, trueRoot, leftmost, p) && StopsAt(ix, pages, level, trueRoot, leftmost, p, c)
    decreases steps
  {
    var s := After(ix, pages, path, |path|);
    var t := BlockRun(ix, pages, level, trueRoot, left, b, first, s);
    p, c := path, b;
    if t.0 == Silent {
      BlockGoes(ix, pages, level, trueRoot, path, left, b, first, s);
      TestedGrows(ix, pages, level, trueRoot, leftmost, path, left, b, first);
      p, c := RunStops(ix, pages, level, trueRoot, leftmost, path + [b], b, ix[b].next, first && Ignorable(ix[b]), steps - 1);
    }
  }

  lemma {:induction false} PagesHang(ix: Index)
    ensures forall x: nat, s: Below :: x in ix ==> (Pages(ix, Enough(ix))(x, s).0 == TooLong <==> PageHangs(ix, x, s))
  {
    forall x: nat, s: Below | x in ix
      ensures Pages(ix, Enough(ix))(x, s).0 == TooLong <==> PageHangs(ix, x, s)
    {
      PageHangsIff(ix, x, s);
    }
  }

  // ------------------------------------------------------------ going round a level

  /** Where a silent call for item k leaves the walk below: right of the child, or nowhere after a zero. */
  function Landed(ix: Index, target: Page, k: nat, s: Below): Below
    requires k < |target.items|
  {
    var d := target.items[k].down;
    if d != P_NONE && d in ix then s.(right := ix[d].next, split := ix[d].incomplete) else s.(right := INVALID, split := false)
  }

  lemma {:induction false} WalkLands(ix: Index, target: Page, k: nat, s: Below, b: int, first: bool, split: bool, fuel: nat)
    requires k < |target.items| && Walk(ix, target, k, s, b, first, split, fuel).0 == Silent
    ensures Walk(ix, target, k, s, b, first, split, fuel).1 == Landed(ix, target, k, s)
    decreases fuel
  {
    if b > P_NONE && b != Downlink(target, k) {
      WalkLands(ix, target, k, s, ix[b].next, false, ix[b].incomplete, fuel - 1);
    }
  }

  lemma {:induction false} ItemsLand(ix: Index, b: nat, s: Below, k: nat, fuel: nat)
    requires b in ix && k < |ix[b].items| && ItemsRun(ix, b, s, k, fuel).0 == Silent
    ensures ItemsRun(ix, b, s, k, fuel).1 == Landed(ix, ix[b], |ix[b].items| - 1, s)
    decreases |ix[b].items| - k
  {
    WalkLands(ix, ix[b], k, s, From(ix[b], k, s), true, Split(s), fuel);
    var t := ItemRun(ix, b, s, k, fuel).1;
    if k + 1 < |ix[b].items| { ItemsLand(ix, b, t, k + 1, fuel); }
  }

  /** The page checks leave the walk below where the page alone says; leaf pages do not touch it. */
  ghost predicate Landing(ix: Index, pages: Checks) {
    forall b: nat, s: Below :: Loads(ix, b) && !Rightmost(ix[b]) && !ix[b].deleted && pages(b, s).0 == Silent ==>
      pages(b, s).1 == if ix[b].leaf then s else Landed(ix, ix[b], |ix[b].items| - 1, s)
  }

  lemma {:induction false} PagesLand(ix: Index, fuel: nat)
    ensures Landing(ix, Pages(ix, fuel))
  {
    forall b: nat, s: Below | Loads(ix, b) && !Rightmost(ix[b]) && !ix[b].deleted && Pages(ix, fuel)(b, s).0 == Silent
      ensures Pages(ix, fuel)(b, s).1 == if ix[b].leaf then s else Landed(ix, ix[b], |ix[b].items| - 1, s)
    {
      if !ix[b].leaf { ItemsLand(ix, b, s, 0, fuel); }
    }
  }

  /** On a leaf level the walk below never starts. */
  lemma {:induction false} AfterLeaves(ix: Index, pages: Checks, trueRoot: bool, leftmost: nat, path: seq<nat>, k: nat)
    requires Landing(ix, pages) && Tested(ix, pages, 0, trueRoot, leftmost, path) && k < |path|
    ensures After(ix, pages, path, k).right == INVALID && !After(ix, pages, path, k).split
  {
    if k > 0 {
      AfterLeaves(ix, pages, trueRoot, leftmost, path, k - 1);
      TestedStep(ix, pages, 0, trueRoot, leftmost, path, k - 1);
      assert VisitOk(ix, 0, path, k - 1) && PassedPage(ix, pages, path, k - 1);
    }
  }

  /** Where the walk below stands after a live block that is not the last of its level. */
  function Fixed(ix: Index, b: nat): Below
    requires b in ix && (!ix[b].leaf ==> ix[b].items != [])
  {
    (if ix[b].leaf then START else Landed(ix, ix[b], |ix[b].items| - 1, START)).(low := LowOf(ix[b]))
  }

  lemma {:induction false} AfterLive(ix: Index, pages: Checks, level: nat, trueRoot: bool, leftmost: nat, path: seq<nat>, k: nat)
    requires Landing(ix, pages) && Tested(ix, pages, level, trueRoot, leftmost, path) && k < |path| && Live(ix, path[k])
    requires path[k] in ix && !Rightmost(ix[path[k]])
    ensures (!ix[path[k]].leaf ==> ix[path[k]].items != []) && After(ix, pages, path, k + 1) == Fixed(ix, path[k])
  {
    assert VisitOk(ix, level, path, k) && PassedPage(ix, pages, path, k);
    if level == 0 { AfterLeaves(ix, pages, trueRoot, leftmost, path, k); }
  }

  /** Blocks that are not live leave the walk below alone. */
  lemma {:induction false} AfterIdle(ix: Index, pages: Checks, level: nat, path: seq<nat>, i: nat, j: nat)
    requires Visits(ix, level, path) && i <= j < |path| && forall m :: i < m <= j ==> !Live(ix, path[m])
    ensures var a, b := After(ix, pages, path, i + 1), After(ix, pages, path, j + 1);
            a.right == b.right && a.split == b.split
    decreases j - i
  {
    if i < j {
      AfterIdle(ix, pages, level, path, i, j - 1);
      assert VisitOk(ix, level, path, j - 1) && VisitOk(ix, level, path, j);
    }
  }

  /** The walk comes back to a live block, or goes round without meeting one. */
  predicate Returns(ix: Index, path: seq<nat>, i: nat, j: nat) {
    i < j < |path| && path[i] == path[j] && (Live(ix, path[i]) || forall m :: i < m <= j ==> !Live(ix, path[m]))
  }

  ghost predicate Recurs(ix: Index, path: seq<nat>) { exists i: nat, j: nat :: Returns(ix, path, i, j) }

  /** When the walk returns, everything is as it was. */
  lemma {:induction false} ReturnsSame(ix: Index, pages: Checks, level: nat, trueRoot: bool, leftmost: nat, path: seq<nat>,
                                       i: nat, j: nat)
    requires Landing(ix, pages) && Tested(ix, pages, level, trueRoot, leftmost, path) && Returns(ix, path, i, j)
    ensures After(ix, pages, path, i + 1) == After(ix, pages, path, j + 1)
    ensures NoneLive(ix, path, i + 1) <==> NoneLive(ix, path, j + 1)
  {
    TestedStep(ix, pages, level, trueRoot, leftmost, path, i);
    if Live(ix, path[i]) {
      AfterLive(ix, pages, level, trueRoot, leftmost, path, i);
      AfterLive(ix, pages, level, trueRoot, leftmost, path, j);
    } else {
      AfterIdle(ix, pages, level, path, i, j);
    }
  }

  lemma {:induction false} TestedCircles(ix: Index, pages: Checks, level: nat, trueRoot: bool, leftmost: nat, path: seq<nat>,
                                         i: nat, j: nat, k: nat, steps: nat)
    requires Landing(ix, pages) && Tested(ix, pages, level, trueRoot, leftmost, path) && Returns(ix, path, i, j) && k <= j
    ensures LevelRun(ix, pages, level, trueRoot, LeftOf(path, k), path[k], NoneLive(ix, path, k), After(ix, pages, path, k), steps).0
              == TooLong
    decreases steps
  {
    if steps > 0 {
      var m := if k < j then k + 1 else i + 1;
      TestedStep(ix, pages, level, trueRoot, leftmost, path, k);
      TestedStep(ix, pages, level, trueRoot, leftmost, path, i);
      ReturnsSame(ix, pages, level, trueRoot, leftmost, path, i, j);
      TestedCircles(ix, pages, level, trueRoot, leftmost, path, i, j, m, steps - 1);
    }
  }

  lemma {:induction false} ShiftSame(ix: Index, path: seq<nat>, i: nat, j: nat, d: nat)
    requires Linked(ix, path) && i < j && j + d < |path| && path[i] == path[j]
    ensures path[i + d] == path[j + d]
  {
    if d > 0 {
      ShiftSame(ix, path, i, j, d - 1);
      assert LinkAt(ix, path, i + d) && LinkAt(ix, path, j + d);
    }
  }

  /** A path of more than twice the number of blocks recurs. */
  lemma {:induction false} LongRecurs(ix: Index, path: seq<nat>)
    requires Linked(ix, path) && |path| > 2 * |ix.Keys|
    ensures Recurs(ix, path)
  {
    var q := path[..|ix.Keys| + 1];
    assert Linked(ix, q) by {
      forall i | 0 <= i < |q|
        ensures LinkAt(ix, q, i)
      {
        assert LinkAt(ix, path, i);
      }
    }
    LongRepeats(ix, q);
    var i: nat, j: nat :| i < j < |q| && q[i] == q[j];
    if m: nat :| i < m <= j && Live(ix, path[m]) {
      ShiftSame(ix, path, i, j, m - i);
      assert Returns(ix, path, m, j + (m - i));
    } else {
      assert Returns(ix, path, i, j);
    }
  }

  /** A run that ran out of steps leaves a tested path of that many blocks. */
  lemma {:induction false} LostTested(ix: Index, pages: Checks, level: nat, trueRoot: bool, leftmost: nat, path: seq<nat>,
                                      left: nat, b: nat, first: bool, steps: nat) returns (p: seq<nat>)
    requires Tested(ix, pages, level, trueRoot, leftmost, path) && AtBlock(ix, level, trueRoot, path, left, b, first)
    requires path == [] ==> b == leftmost
    requires LevelRun(ix, pages, level, trueRoot, left, b, first, After(ix, pages, path, |path|), steps).1
    ensures Tested(ix, pages, level, trueRoot, leftmost, p) && |p| == |path| + steps
    decreases steps
  {
    p := path;
    if steps > 0 {
      BlockGoes(ix, pages, level, trueRoot, path, left, b, first, After(ix, pages, path, |path|));
      TestedGrows(ix, pages, level, trueRoot, leftmost, path, left, b, first);
      p := LostTested(ix, pages, level, trueRoot, leftmost, path + [b], b, ix[b].next, first && Ignorable(ix[b]), steps - 1);
    }
  }

  // ---------------------------------------------------------- when a pass never ends

  /** All checks pass on the path, and after it the walk recurs or a page check never ends. */
  ghost predicate EndlessAfter(ix: Index, pages: Checks, level: nat, trueRoot: bool, leftmost: nat, path: seq<nat>) {
    && Tested(ix, pages, level, trueRoot, leftmost, path)
    && (Recurs(ix, path) || exists b :: StopsAt(ix, pages, level, trueRoot, leftmost, path, b))
  }

  ghost predicate LevelEndless(ix: Index, level: nat, trueRoot: bool, leftmost: nat) {
    exists path :: EndlessAfter(ix, Pages(ix, Enough(ix)), level, trueRoot, leftmost, path)
  }

  /** With as many steps, other fuel gives the same outcome or is too little. */
  lemma {:induction false} RunShort(ix: Index, pages: Checks, pages': Checks, level: nat, trueRoot: bool, left: nat, b: nat,
                                    first: bool, s: Below, steps: nat)
    requires Agree(pages, pages')
    ensures var t, u := LevelRun(ix, pages, level, trueRoot, left, b, first, s, steps),
                        LevelRun(ix, pages', level, trueRoot, left, b, first, s, steps);
            u.0 == TooLong || u.0 == t.0
    decreases steps
  {
    if steps > 0 {
      var t := BlockRun(ix, pages, level, trueRoot, left, b, first, s);
      if t.0 == Silent && !Rightmost(ix[b]) {
        RunShort(ix, pages, pages', level, trueRoot, b, ix[b].next, first && Ignorable(ix[b]), t.1, steps - 1);
      }
    }
  }

  lemma {:induction false} FuelShort(ix: Index, level: nat, trueRoot: bool, leftmost: nat, steps: nat, fuel: nat, other: nat)
    requires fuel > |ix.Keys|
    ensures var r, r' := Pass(ix, level, trueRoot, leftmost, steps, fuel).0, Pass(ix, level, trueRoot, leftmost, steps, other).0;
            r' == TooLong || r' == r
  {
    PagesAgree(ix, fuel, other);
    RunShort(ix, Pages(ix, fuel), Pages(ix, other), level, trueRoot, P_NONE, leftmost, true, START, steps);
  }

  /** An endless level exhausts every bound. */
  lemma {:induction false} EndlessExhausts(ix: Index, level: nat, trueRoot: bool, leftmost: nat, steps: nat, fuel: nat)
    requires LevelEndless(ix, level, trueRoot, leftmost)
    ensures Pass(ix, level, trueRoot, leftmost, steps, fuel).0 == TooLong
  {
    var pages := Pages(ix, Enough(ix));
    var path :| EndlessAfter(ix, pages, level, trueRoot, leftmost, path);
    if Recurs(ix, path) {
      var i: nat, j: nat :| Returns(ix, path, i, j);
      PagesLand(ix, Enough(ix));
      TestedCircles(ix, pages, level, trueRoot, leftmost, path, i, j, 0, steps);
    } else {
      var b :| StopsAt(ix, pages, level, trueRoot, leftmost, path, b);
      PagesHang(ix);
      TestedHangs(ix, pages, level, trueRoot, leftmost, path, b, 0, steps);
    }
    FuelShort(ix, level, trueRoot, leftmost, steps, Enough(ix), fuel);
  }

  /** A pass that stops in a page check, or outlasts twice the blocks, is over an endless level. */
  lemma {:induction false} TooLongEndless(ix: Index, level: nat, trueRoot: bool, leftmost: nat, steps: nat)
    requires Pass(ix, level, trueRoot, leftmost, steps, Enough(ix)).0 == TooLong
    requires steps > 2 * |ix.Keys| || !Pass(ix, level, trueRoot, leftmost, steps, Enough(ix)).1
    ensures LevelEndless(ix, level, trueRoot, leftmost)
  {
    var pages := Pages(ix, Enough(ix));
    if Pass(ix, level, trueRoot, leftmost, steps, Enough(ix)).1 {
      var p := LostTested(ix, pages, level, trueRoot, leftmost, [], P_NONE, leftmost, true, steps);
      PathLinked(ix, level, p);
      LongRecurs(ix, p);
      assert EndlessAfter(ix, pages, level, trueRoot, leftmost, p);
    } else {
      PagesHang(ix);
      var p, c := RunStops(ix, pages, level, trueRoot, leftmost, [], P_NONE, leftmost, true, steps);
      assert EndlessAfter(ix, pages, level, trueRoot, leftmost, p);
    }
  }

  /** Without half-dead pages the walk itself does not run out of steps. */
  lemma {:induction false} NeverLost(ix: Index, level: nat, trueRoot: bool, leftmost: nat, steps: nat, fuel: nat)
    requires NoHalfDead(ix) && steps > |ix.Keys|
    ensures !Pass(ix, level, trueRoot, leftmost, steps, fuel).1
  {
    if Pass(ix, level, trueRoot, leftmost, steps, fuel).1 {
      var p := LostPath(ix, Pages(ix, fuel), level, trueRoot, [], P_NONE, leftmost, true, START, steps);
      LevelBounded(ix, level, p);
    }
  }

  /**
    Bounds that decide: more fuel than blocks, and more steps than twice the
    blocks; on leaf levels and without half-dead pages, more steps than blocks.
   */
  predicate Ample(ix: Index, level: nat, steps: nat, fuel: nat) {
    fuel > |ix.Keys| && (steps > 2 * |ix.Keys| || (steps > |ix.Keys| && (level == 0 || NoHalfDead(ix))))
  }

  lemma {:induction false} AmpleEndless(ix: Index, level: nat, trueRoot: bool, leftmost: nat, steps: nat, fuel: nat)
    requires Ample(ix, level, steps, fuel) && Pass(ix, level, trueRoot, leftmost, steps, fuel).0 == TooLong
    ensures LevelEndless(ix, level, trueRoot, leftmost)
  {
    var n := Enough(ix);
    if level == 0 {
      var big := 2 * |ix.Keys| + 1;
      LeafPassIff(ix, trueRoot, leftmost, steps, fuel);
      LeafPassIff(ix, trueRoot, leftmost, big, n);
      TooLongEndless(ix, level, trueRoot, leftmost, big);
    } else {
      FuelShort(ix, level, trueRoot, leftmost, steps, fuel, n);
      if NoHalfDead(ix) { NeverLost(ix, level, trueRoot, leftmost, steps, n); }
      TooLongEndless(ix, level, trueRoot, leftmost, steps);
    }
  }

  /**
    On every index, the pass over any level never ends if and only if all checks
    pass up to a page on which they run into a ring, of ignorable pages to its
    right or of accepted pages below it, or until the walk along the level comes
    back to a live block or goes round half-dead ones.
   */
  lemma {:induction false} PassEndlessIff(ix: Index, level: nat, trueRoot: bool, leftmost: nat, steps: nat, fuel: nat)
    ensures LevelEndless(ix, level, trueRoot, leftmost) ==> Pass(ix, level, trueRoot, leftmost, steps, fuel).0 == TooLong
    ensures Ample(ix, level, steps, fuel) ==>
              (Pass(ix, level, trueRoot, leftmost, steps, fuel).0 == TooLong <==> LevelEndless(ix, level, trueRoot, leftmost))
  {
    if LevelEndless(ix, level, trueRoot, leftmost) {
      EndlessExhausts(ix, level, trueRoot, leftmost, steps, fuel);
    } else if Ample(ix, level, steps, fuel) && Pass(ix, level, trueRoot, leftmost, steps, fuel).0 == TooLong {
      AmpleEndless(ix, level, trueRoot, leftmost, steps, fuel);
    }
  }

  /**
    With ample bounds the model decides what the pass does on every index: any
    other bounds give the same outcome or are too small, and when these are
    exhausted then so are all others, so that the pass never ends.
   */
  lemma {:induction false} BoundsDecide(ix: Index, level: nat, trueRoot: bool, leftmost: nat, steps: nat, fuel: nat,
                                        steps': nat, fuel': nat)
    requires Ample(ix, level, steps, fuel)
    ensures var r, r' := Pass(ix, level, trueRoot, leftmost, steps, fuel).0, Pass(ix, level, trueRoot, leftmost, steps', fuel').0;
            (r == TooLong ==> r' == TooLong) && (r' == TooLong || r' == r)
  {
    PassEndlessIff(ix, level, trueRoot, leftmost, steps, fuel);
    PassEndlessIff(ix, level, trueRoot, leftmost, steps', fuel');
    if Pass(ix, level, trueRoot, leftmost, steps, fuel).0 != TooLong {
      LostTooLong(ix, Pages(ix, fuel), level, trueRoot, P_NONE, leftmost, true, START, steps);
      PagesAgree(ix, fuel, fuel');
      RunAgrees(ix, Pages(ix, fuel), Pages(ix, fuel'), level, trueRoot, P_NONE, leftmost, true, START, steps, steps');
    }
  }

  lemma {:induction false} LostTooLong(ix: Index, pages: Checks, level: nat, trueRoot: bool, left: nat, b: nat, first: bool,
                                       s: Below, steps: nat)
    ensures var t := LevelRun(ix, pages, level, trueRoot, left, b, first, s, steps); t.1 ==> t.0 == TooLong
    decreases steps
  {
    var t := BlockRun(ix, pages, level, trueRoot, left, b, first, s);
    if steps > 0 && t.0 == Silent && !Rightmost(ix[b]) {
      LostTooLong(ix, pages, level, trueRoot, b, ix[b].next, first && Ignorable(ix[b]), t.1, steps - 1);
    }
  }
}
