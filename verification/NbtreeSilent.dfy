/**
  When the pass over an internal level is silent, on the pages alone: the level
  and the pages on it are in order, and the level below is one chain of right
  links, cut at the downlinks, on which every page is accounted for.
 */
module NbtreeSilent {
  import opened NbtreePages
  import opened NbtreeLeaf
  import opened NbtreeChild
  import opened NbtreeLevel
  import opened NbtreePass
  import opened NbtreeTrail

  // ------------------------------------------------------- the downlink before each

  /** The downlink before item k of a page, when `before` precedes the page. */
  function DownBefore(p: Page, k: nat, before: nat): nat
    requires k <= |p.items|
  {
    if k == 0 then before else p.items[k - 1].down
  }

  /** The last downlink of the live pages among the first n blocks. */
  function LastDown(ix: Index, path: seq<nat>, n: nat): nat
    requires n <= |path|
  {
    if n == 0 then P_NONE
    else
      var r := LastDown(ix, path, n - 1);
      if Live(ix, path[n - 1]) then DownBefore(ix[path[n - 1]], |ix[path[n - 1]].items|, r) else r
  }

  /** The high key of the block before block n. */
  function LowBefore(ix: Index, path: seq<nat>, n: nat): LowKey
    requires n <= |path|
  {
    if n == 0 || path[n - 1] !in ix then NoKey else LowOf(ix[path[n - 1]])
  }

  // --------------------------------------------------------------------- one page

  ghost predicate ItemReached(ix: Index, p: Page, low: LowKey, before: nat, k: nat)
    requires k < |p.items|
  {
    Reached(ix, p, k, low, DownBefore(p, k, before))
  }

  /** Every downlink of the page is reached, and from the last page of the level the right edge below. */
  ghost predicate PageReached(ix: Index, p: Page, low: LowKey, before: nat) {
    && (forall k :: 0 <= k < |p.items| ==> ItemReached(ix, p, low, before, k))
    && (Rightmost(p) ==> Reached(ix, p, -1, low, DownBefore(p, |p.items|, before)))
  }

  lemma {:induction false} ItemIff(ix: Index, b: nat, s: Below, k: nat, fuel: nat)
    requires b in ix && k < |ix[b].items|
    ensures ItemRun(ix, b, s, k, fuel).0 == Silent <==>
              && InnerItemOk(ix, ix[b], k) && (0 < k == |ix[b].items| - 1 ==> CrossResult(ix, b, fuel) == Silent)
              && Call(ix, ix[b], k, s, fuel).0 == Silent
    ensures ItemRun(ix, b, s, k, fuel).0 == Silent ==> ItemRun(ix, b, s, k, fuel).1 == Landed(ix, ix[b], k, s)
  {
    if Call(ix, ix[b], k, s, fuel).0 == Silent { WalkLands(ix, ix[b], k, s, From(ix[b], k, s), true, NbtreeChild.Split(s), fuel); }
  }

  lemma {:induction false} LandedState(ix: Index, p: Page, k: nat, before: nat, low: LowKey)
    requires k < |p.items|
    ensures Landed(ix, p, k, StateOf(ix, before, low)) == StateOf(ix, p.items[k].down, low)
  {
  }

  /** Everything item k is checked for. */
  ghost predicate ItemFine(ix: Index, b: nat, low: LowKey, before: nat, fuel: nat, k: nat)
    requires b in ix && k < |ix[b].items|
  {
    && InnerItemOk(ix, ix[b], k) && (0 < k == |ix[b].items| - 1 ==> CrossResult(ix, b, fuel) == Silent)
    && ItemReached(ix, ix[b], low, before, k)
  }

  lemma {:induction false} ReachedLoads(ix: Index, p: Page, k: nat, low: LowKey, before: nat)
    requires k < |p.items| && Reached(ix, p, k, low, before)
    ensures p.items[k].down != P_NONE ==> p.items[k].down in ix
  {
    var q :| Trail(ix, p, k, low, before, q);
    if p.items[k].down != P_NONE { assert TrailPage(ix, p, k, low, before, q, |q| - 1); }
  }

  /** The items from k on. */
  lemma {:induction false} ItemsIff(ix: Index, b: nat, low: LowKey, before: nat, k: nat, fuel: nat)
    requires b in ix && k <= |ix[b].items| && fuel > |ix.Keys|
    requires var d := DownBefore(ix[b], k, before); d != P_NONE ==> d in ix
    ensures var t := ItemsRun(ix, b, StateOf(ix, DownBefore(ix[b], k, before), low), k, fuel);
      && (t.0 == Silent <==> forall m :: k <= m < |ix[b].items| ==> ItemFine(ix, b, low, before, fuel, m))
      && (t.0 == Silent ==> t.1 == StateOf(ix, DownBefore(ix[b], |ix[b].items|, before), low))
      && (t.0 == Silent ==> var d := DownBefore(ix[b], |ix[b].items|, before); d != P_NONE ==> d in ix)
    decreases |ix[b].items| - k
  {
    var p := ix[b];
    if k < |p.items| {
      var d := DownBefore(p, k, before);
      var s := StateOf(ix, d, low);
      CallIff(ix, p, k, low, d, fuel);
      ItemIff(ix, b, s, k, fuel);
      LandedState(ix, p, k, d, low);
      assert ItemRun(ix, b, s, k, fuel).0 == Silent <==> ItemFine(ix, b, low, before, fuel, k);
      if ItemRun(ix, b, s, k, fuel).0 == Silent {
        ReachedLoads(ix, p, k, low, d);
        ItemsIff(ix, b, low, before, k + 1, fuel);
      }
    }
  }

  /** The checks on an internal page are silent if and only if it is in order and all below it is reached. */
  lemma {:induction false} PageIff(ix: Index, b: nat, low: LowKey, before: nat, fuel: nat)
    requires Loads(ix, b) && Live(ix, b) && !ix[b].leaf && fuel > |ix.Keys| && (before != P_NONE ==> before in ix)
    ensures var t := PageRun(ix, b, StateOf(ix, before, low), fuel);
      && (t.0 == Silent <==> InnerOk(ix, b) && PageReached(ix, ix[b], low, before))
      && (t.0 == Silent && !Rightmost(ix[b]) ==>
            var d := DownBefore(ix[b], |ix[b].items|, before); t.1 == StateOf(ix, d, low) && (d != P_NONE ==> d in ix))
  {
    var p, s := ix[b], StateOf(ix, before, low);
    var t := ItemsRun(ix, b, s, 0, fuel);
    ItemsIff(ix, b, low, before, 0, fuel);
    if HasFirst(p) { CrossIff(ix, b, fuel); }
    assert t.0 == Silent <==> InnerOk(ix, b) && forall k :: 0 <= k < |p.items| ==> ItemReached(ix, p, low, before, k) by {
      ItemsFine(ix, b, low, before, fuel);
    }
    if t.0 == Silent { CallIff(ix, p, -1, low, DownBefore(p, |p.items|, before), fuel); }
  }

  lemma {:induction false} ItemsFine(ix: Index, b: nat, low: LowKey, before: nat, fuel: nat)
    requires b in ix && !ix[b].leaf && (HasFirst(ix[b]) ==> (CrossResult(ix, b, fuel) == Silent <==> CrossOk(ix, b)))
    ensures (forall k :: 0 <= k < |ix[b].items| ==> ItemFine(ix, b, low, before, fuel, k)) <==>
              InnerOk(ix, b) && forall k :: 0 <= k < |ix[b].items| ==> ItemReached(ix, ix[b], low, before, k)
  {
    var p := ix[b];
    if forall k :: 0 <= k < |p.items| ==> ItemFine(ix, b, low, before, fuel, k) {
      if HasFirst(p) { assert ItemFine(ix, b, low, before, fuel, |p.items| - 1); }
      forall k | 0 <= k < |p.items|
        ensures InnerItemOk(ix, p, k) && ItemReached(ix, p, low, before, k)
      {
        assert ItemFine(ix, b, low, before, fuel, k);
      }
    }
    if InnerOk(ix, b) && forall k :: 0 <= k < |p.items| ==> ItemReached(ix, p, low, before, k) {
      forall k | 0 <= k < |p.items|
        ensures ItemFine(ix, b, low, before, fuel, k)
      {
        assert InnerItemOk(ix, p, k) && ItemReached(ix, p, low, before, k);
      }
    }
  }

  // ------------------------------------------------------------------ a whole level

  ghost predicate BlockBelow(ix: Index, path: seq<nat>, i: nat)
    requires i < |path|
  {
    Live(ix, path[i]) ==> PageReached(ix, ix[path[i]], LowBefore(ix, path, i), LastDown(ix, path, i))
  }

  /** Below every live page everything is reached. */
  ghost predicate LevelBelow(ix: Index, path: seq<nat>) { forall i :: 0 <= i < |path| ==> BlockBelow(ix, path, i) }

  /** All conditions on block i. */
  ghost predicate BlockFine(ix: Index, path: seq<nat>, i: nat)
    requires i < |path|
  {
    (Live(ix, path[i]) ==> InnerOk(ix, path[i])) && BlockBelow(ix, path, i)
  }

  /** Up to block n the page checks pass exactly when all conditions hold, and the walk below stands at the last downlink. */
  lemma {:induction false} BlocksIff(ix: Index, level: nat, path: seq<nat>, n: nat, fuel: nat)
    requires level > 0 && Visits(ix, level, path) && n <= |path| && fuel > |ix.Keys|
    ensures var pages := Pages(ix, fuel);
      && ((forall i :: 0 <= i < n ==> PassedPage(ix, pages, path, i)) <==> forall i :: 0 <= i < n ==> BlockFine(ix, path, i))
      && ((forall i :: 0 <= i < n ==> PassedPage(ix, pages, path, i)) && n < |path| ==>
            Stands(ix, pages, path, n))
  {
    var pages := Pages(ix, fuel);
    if n > 0 {
      BlocksIff(ix, level, path, n - 1, fuel);
      if forall i :: 0 <= i < n - 1 ==> PassedPage(ix, pages, path, i) {
        BlockStands(ix, level, path, n - 1, fuel);
      }
    }
  }

  /** Where the walk below stands before block n. */
  ghost predicate Stands(ix: Index, pages: Checks, path: seq<nat>, n: nat)
    requires n <= |path|
  {
    var d := LastDown(ix, path, n);
    After(ix, pages, path, n) == StateOf(ix, d, LowBefore(ix, path, n)) && (d != P_NONE ==> d in ix)
  }

  lemma {:induction false} BlockStands(ix: Index, level: nat, path: seq<nat>, i: nat, fuel: nat)
    requires level > 0 && Visits(ix, level, path) && i < |path| && fuel > |ix.Keys| && Stands(ix, Pages(ix, fuel), path, i)
    ensures PassedPage(ix, Pages(ix, fuel), path, i) <==> BlockFine(ix, path, i)
    ensures PassedPage(ix, Pages(ix, fuel), path, i) && i + 1 < |path| ==> Stands(ix, Pages(ix, fuel), path, i + 1)
  {
    var b := path[i];
    assert VisitOk(ix, level, path, i);
    if i + 1 < |path| { assert VisitOk(ix, level, path, i + 1); }
    if Live(ix, b) { PageIff(ix, b, LowBefore(ix, path, i), LastDown(ix, path, i), fuel); }
  }

  /** The pages of the level are in order, and so is all that lies below them. */
  ghost predicate Sound(ix: Index, level: nat, trueRoot: bool, leftmost: nat, path: seq<nat>) {
    && WholeLevel(ix, level, path) && path[0] == leftmost && RootOk(ix, trueRoot, path)
    && InnersOk(ix, path) && LevelBelow(ix, path)
  }

  lemma {:induction false} TestedIff(ix: Index, level: nat, trueRoot: bool, leftmost: nat, path: seq<nat>, fuel: nat)
    requires level > 0 && WholeLevel(ix, level, path) && fuel > |ix.Keys|
    ensures Tested(ix, Pages(ix, fuel), level, trueRoot, leftmost, path) <==> Sound(ix, level, trueRoot, leftmost, path)
  {
    BlocksIff(ix, level, path, |path|, fuel);
    if Sound(ix, level, trueRoot, leftmost, path) {
      forall i | 0 <= i < |path|
        ensures BlockFine(ix, path, i)
      {
        assert BlockBelow(ix, path, i);
      }
    }
    if forall i :: 0 <= i < |path| ==> BlockFine(ix, path, i) {
      forall i | 0 <= i < |path|
        ensures BlockBelow(ix, path, i) && (Live(ix, path[i]) ==> InnerOk(ix, path[i]))
      {
        assert BlockFine(ix, path, i);
      }
    }
  }

  // ------------------------------------------------------------- tested and silent

  /** A tested path to the right end makes the pass silent. */
  lemma {:induction false} TestedPasses(ix: Index, pages: Checks, level: nat, trueRoot: bool, leftmost: nat, path: seq<nat>, k: nat,
                                        steps: nat)
    requires Tested(ix, pages, level, trueRoot, leftmost, path) && WholeLevel(ix, level, path) && k < |path| && steps >= |path| - k
    ensures LevelRun(ix, pages, level, trueRoot, LeftOf(path, k), path[k], NoneLive(ix, path, k), After(ix, pages, path, k), steps).0
              == Silent
    decreases |path| - k
  {
    TestedStep(ix, pages, level, trueRoot, leftmost, path, k);
    if k + 1 < |path| { TestedPasses(ix, pages, level, trueRoot, leftmost, path, k + 1, steps - 1); }
  }

  /** A silent run leaves a tested path to the right end behind. */
  lemma {:induction false} SilentTested(ix: Index, pages: Checks, level: nat, trueRoot: bool, leftmost: nat, path: seq<nat>,
                                        left: nat, b: nat, first: bool, steps: nat) returns (p: seq<nat>)
    requires Tested(ix, pages, level, trueRoot, leftmost, path) && AtBlock(ix, level, trueRoot, path, left, b, first)
    requires path == [] ==> b == leftmost
    requires LevelRun(ix, pages, level, trueRoot, left, b, first, After(ix, pages, path, |path|), steps).0 == Silent
    ensures Tested(ix, pages, level, trueRoot, leftmost, p) && WholeLevel(ix, level, p) && p[0] == leftmost
    decreases steps
  {
    BlockGoes(ix, pages, level, trueRoot, path, left, b, first, After(ix, pages, path, |path|));
    TestedGrows(ix, pages, level, trueRoot, leftmost, path, left, b, first);
    p := path + [b];
    if !Rightmost(ix[b]) {
      p := SilentTested(ix, pages, level, trueRoot, leftmost, p, b, ix[b].next, first && Ignorable(ix[b]), steps - 1);
    }
  }

  /** Right links that reach the right edge meet no block twice. */
  lemma {:induction false} EndsDistinct(ix: Index, q: seq<nat>)
    requires Linked(ix, q) && EndsLevel(ix, q)
    ensures Distinct(q) && |q| <= |ix.Keys|
  {
    forall i, j | 0 <= i < j < |q|
      ensures q[i] != q[j]
    {
      var d := |q| - 1 - j;
      assert LinkAt(ix, q, i + d + 1);
      if q[i] == q[j] { ShiftSame(ix, q, i, j, d); }
    }
    forall i | 0 <= i < |q|
      ensures q[i] in ix.Keys
    {
      assert LinkAt(ix, q, i);
    }
    DistinctBounded(q, ix.Keys);
  }

  ghost predicate SoundLevel(ix: Index, level: nat, trueRoot: bool, leftmost: nat) {
    exists path :: Sound(ix, level, trueRoot, leftmost, path)
  }

  /**
    The pass over an internal level is silent if and only if there is a path of
    blocks from the leftmost one to the right edge whose links, levels and keys
    are in order, and every downlink on it is reached, in order, along the right
    links of the level below over pages that are accounted for.
   */
  lemma {:induction false} SilentIff(ix: Index, level: nat, trueRoot: bool, leftmost: nat, steps: nat, fuel: nat)
    requires level > 0 && steps > |ix.Keys| && fuel > |ix.Keys|
    ensures Pass(ix, level, trueRoot, leftmost, steps, fuel).0 == Silent <==> SoundLevel(ix, level, trueRoot, leftmost)
  {
    var pages := Pages(ix, fuel);
    if Pass(ix, level, trueRoot, leftmost, steps, fuel).0 == Silent {
      var p := SilentTested(ix, pages, level, trueRoot, leftmost, [], P_NONE, leftmost, true, steps);
      TestedIff(ix, level, trueRoot, leftmost, p, fuel);
    }
    if SoundLevel(ix, level, trueRoot, leftmost) {
      var path :| Sound(ix, level, trueRoot, leftmost, path);
      TestedIff(ix, level, trueRoot, leftmost, path, fuel);
      PathLinked(ix, level, path);
      EndsDistinct(ix, path);
      TestedPasses(ix, pages, level, trueRoot, leftmost, path, 0, steps);
    }
  }

  // ------------------------------------------------------------ the chain as a whole

  /** A place in the level that the walk below stops for: an item, or with off == -1 the right end. */
  datatype Station = Station(b: nat, off: int, low: LowKey, before: nat)

  function PageStations(ix: Index, b: nat, low: LowKey, before: nat, n: nat): (r: seq<Station>)
    requires b in ix && n <= |ix[b].items|
    ensures |r| == n
  {
    if n == 0 then []
    else PageStations(ix, b, low, before, n - 1) + [Station(b, n - 1, low, DownBefore(ix[b], n - 1, before))]
  }

  function EdgeStations(ix: Index, b: nat, low: LowKey, before: nat): seq<Station>
    requires b in ix
  {
    if Rightmost(ix[b]) then [Station(b, -1, low, DownBefore(ix[b], |ix[b].items|, before))] else []
  }

  /** The stations of the live pages among the first n blocks, from left to right. */
  function Stations(ix: Index, path: seq<nat>, n: nat): seq<Station>
    requires n <= |path|
  {
    if n == 0 then []
    else
      var b, low, d := path[n - 1], LowBefore(ix, path, n - 1), LastDown(ix, path, n - 1);
      Stations(ix, path, n - 1) +
      if Live(ix, b) then PageStations(ix, b, low, d, |ix[b].items|) + EdgeStations(ix, b, low, d) else []
  }

  ghost predicate StationReached(ix: Index, st: Station) {
    st.b in ix && -1 <= st.off < |ix[st.b].items| && Reached(ix, ix[st.b], st.off, st.low, st.before)
  }

  ghost predicate AllReached(ix: Index, sts: seq<Station>) { forall j :: 0 <= j < |sts| ==> StationReached(ix, sts[j]) }

  lemma {:induction false} BothReached(ix: Index, a: seq<Station>, b: seq<Station>)
    ensures AllReached(ix, a + b) <==> AllReached(ix, a) && AllReached(ix, b)
  {
    forall j | 0 <= j < |a|
      ensures (a + b)[j] == a[j]
    {
    }
    forall j | 0 <= j < |b|
      ensures (a + b)[|a| + j] == b[j]
    {
    }
  }

  lemma {:induction false} PageStationsIff(ix: Index, b: nat, low: LowKey, before: nat, n: nat)
    requires b in ix && n <= |ix[b].items|
    ensures AllReached(ix, PageStations(ix, b, low, before, n)) <==>
              forall k :: 0 <= k < n ==> ItemReached(ix, ix[b], low, before, k)
  {
    if n > 0 {
      PageStationsIff(ix, b, low, before, n - 1);
      var st := Station(b, n - 1, low, DownBefore(ix[b], n - 1, before));
      BothReached(ix, PageStations(ix, b, low, before, n - 1), [st]);
      assert AllReached(ix, [st]) <==> StationReached(ix, st) by { assert [st][0] == st; }
      assert StationReached(ix, st) <==> ItemReached(ix, ix[b], low, before, n - 1);
    }
  }

  lemma {:induction false} BlockStationsIff(ix: Index, b: nat, low: LowKey, before: nat)
    requires b in ix
    ensures AllReached(ix, PageStations(ix, b, low, before, |ix[b].items|) + EdgeStations(ix, b, low, before)) <==>
              PageReached(ix, ix[b], low, before)
  {
    PageStationsIff(ix, b, low, before, |ix[b].items|);
    var e := EdgeStations(ix, b, low, before);
    BothReached(ix, PageStations(ix, b, low, before, |ix[b].items|), e);
    if Rightmost(ix[b]) { assert AllReached(ix, e) <==> StationReached(ix, e[0]); }
  }

  lemma {:induction false} StationsIff(ix: Index, path: seq<nat>, n: nat)
    requires n <= |path|
    ensures AllReached(ix, Stations(ix, path, n)) <==> forall i :: 0 <= i < n ==> BlockBelow(ix, path, i)
  {
    if n > 0 {
      var b, low, d := path[n - 1], LowBefore(ix, path, n - 1), LastDown(ix, path, n - 1);
      StationsIff(ix, path, n - 1);
      if Live(ix, b) {
        BlockStationsIff(ix, b, low, d);
        BothReached(ix, Stations(ix, path, n - 1), PageStations(ix, b, low, d, |ix[b].items|) + EdgeStations(ix, b, low, d));
      } else {
        assert Stations(ix, path, n - 1) + [] == Stations(ix, path, n - 1);
      }
      assert BlockBelow(ix, path, n - 1) <==> (Live(ix, b) ==> PageReached(ix, ix[b], low, d));
    }
  }

  /** The part of the chain that leads to station j. */
  function PieceOf(chain: seq<nat>, ends: seq<nat>, j: nat): seq<nat>
    requires j < |ends| && (if j == 0 then 0 else ends[j - 1]) <= ends[j] <= |chain|
  {
    chain[if j == 0 then 0 else ends[j - 1]..ends[j]]
  }

  ghost predicate PieceAt(ix: Index, sts: seq<Station>, chain: seq<nat>, ends: seq<nat>, j: nat)
    requires j < |sts|
  {
    var st := sts[j];
    && j < |ends| && (if j == 0 then 0 else ends[j - 1]) <= ends[j] <= |chain|
    && st.b in ix && -1 <= st.off < |ix[st.b].items|
    && Trail(ix, ix[st.b], st.off, st.low, st.before, PieceOf(chain, ends, j))
  }

  /** The pages below in the order they are visited, cut after each station; a zero downlink cuts at the right edge. */
  ghost predicate ChainBelow(ix: Index, sts: seq<Station>, chain: seq<nat>, ends: seq<nat>) {
    && |ends| == |sts| && |chain| == (if ends == [] then 0 else ends[|ends| - 1])
    && forall j :: 0 <= j < |sts| ==> PieceAt(ix, sts, chain, ends, j)
  }

  lemma {:induction false} BuildChain(ix: Index, sts: seq<Station>, n: nat) returns (chain: seq<nat>, ends: seq<nat>)
    requires n <= |sts| && AllReached(ix, sts)
    ensures |ends| == n && |chain| == (if n == 0 then 0 else ends[n - 1])
    ensures forall j :: 0 <= j < n ==> PieceAt(ix, sts, chain, ends, j)
  {
    chain, ends := [], [];
    if n > 0 {
      var c, e := BuildChain(ix, sts, n - 1);
      var st := sts[n - 1];
      assert StationReached(ix, st);
      var q :| Trail(ix, ix[st.b], st.off, st.low, st.before, q);
      chain, ends := c + q, e + [|c| + |q|];
      forall j | 0 <= j < n
        ensures PieceAt(ix, sts, chain, ends, j)
      {
        if j < n - 1 {
          assert PieceAt(ix, sts, c, e, j);
          assert PieceOf(chain, ends, j) == PieceOf(c, e, j);
        } else {
          assert PieceOf(chain, ends, j) == q;
        }
      }
    }
  }

  lemma {:induction false} ChainReaches(ix: Index, path: seq<nat>, chain: seq<nat>, ends: seq<nat>)
    requires ChainBelow(ix, Stations(ix, path, |path|), chain, ends)
    ensures LevelBelow(ix, path)
  {
    var sts := Stations(ix, path, |path|);
    StationsIff(ix, path, |path|);
    forall j | 0 <= j < |sts|
      ensures StationReached(ix, sts[j])
    {
      assert PieceAt(ix, sts, chain, ends, j);
    }
  }

  /** When everything below is reached, there is a chain, cut at the stations. */
  lemma {:induction false} ReachedChain(ix: Index, path: seq<nat>) returns (chain: seq<nat>, ends: seq<nat>)
    requires LevelBelow(ix, path)
    ensures ChainBelow(ix, Stations(ix, path, |path|), chain, ends)
  {
    StationsIff(ix, path, |path|);
    chain, ends := BuildChain(ix, Stations(ix, path, |path|), |Stations(ix, path, |path|)|);
  }

  /** Everything a silent pass over an internal level has found. */
  ghost predicate Whole(ix: Index, level: nat, trueRoot: bool, leftmost: nat, path: seq<nat>, chain: seq<nat>, ends: seq<nat>) {
    && WholeLevel(ix, level, path) && path[0] == leftmost && RootOk(ix, trueRoot, path) && InnersOk(ix, path)
    && ChainBelow(ix, Stations(ix, path, |path|), chain, ends)
  }

  /** The same with the chain below as one sequence and the positions in it where the downlinks are met. */
  lemma {:induction false} SilentChain(ix: Index, level: nat, trueRoot: bool, leftmost: nat, steps: nat, fuel: nat)
    requires level > 0 && steps > |ix.Keys| && fuel > |ix.Keys|
    ensures Pass(ix, level, trueRoot, leftmost, steps, fuel).0 == Silent <==>
              exists path, chain, ends :: Whole(ix, level, trueRoot, leftmost, path, chain, ends)
  {
    SilentIff(ix, level, trueRoot, leftmost, steps, fuel);
    if SoundLevel(ix, level, trueRoot, leftmost) {
      var path :| Sound(ix, level, trueRoot, leftmost, path);
      var chain, ends := ReachedChain(ix, path);
      assert Whole(ix, level, trueRoot, leftmost, path, chain, ends);
    }
    forall path, chain, ends | Whole(ix, level, trueRoot, leftmost, path, chain, ends)
      ensures SoundLevel(ix, level, trueRoot, leftmost)
    {
      ChainReaches(ix, path, chain, ends);
      assert Sound(ix, level, trueRoot, leftmost, path);
    }
  }
}
