/**
  Pages of a B-tree index as the structure checker sees them: sibling links,
  level, flags, a high key and the data items.  The index is frozen, as under
  the lock a read-only check holds.  Keys are numbers; a tuple with a posting
  list spans the keys lo to hi.
 */
module NbtreePages {
  const P_NONE: nat := 0

  /** A leaf tuple, or a separator with its downlink. */
  datatype Item = Item(lo: int, hi: int, down: nat)

  datatype Page = Page(
    prev: nat,
    next: nat,
    level: nat,
    leaf: bool,
    root: bool,
    deleted: bool,
    halfDead: bool,
    incomplete: bool,
    fullXid: bool,
    highKey: int,
    topParent: nat,
    items: seq<Item>)

  type Index = map<nat, Page>

  predicate Ignorable(p: Page) { p.deleted || p.halfDead }

  predicate Rightmost(p: Page) { p.next == P_NONE }

  /** The level field is in use: an old deleted page keeps something else there. */
  predicate LevelKept(p: Page) { !p.deleted || p.fullXid }

  /** The checks every page passes when it is read. */
  predicate Sane(p: Page) {
    && (LevelKept(p) ==> (p.leaf <==> p.level == 0))
    && (!p.leaf && !p.deleted ==> p.items != [])
    && (!p.leaf ==> !p.halfDead)
    && !(p.deleted && p.halfDead)
    && (p.fullXid ==> p.deleted)
  }

  /** Block b can be read and passes the checks. */
  predicate Loads(ix: Index, b: nat) { b != P_NONE && b in ix && Sane(ix[b]) }

  datatype Outcome = Silent | Corrupt | TooLong

  // ------------------------------------------------------------- rings of right links

  ghost predicate Distinct(s: seq<nat>) {
    forall i, j :: 0 <= i < j < |s| ==> s[i] != s[j]
  }

  ghost predicate LinkAt(ix: Index, q: seq<nat>, i: nat)
    requires i < |q|
  {
    Loads(ix, q[i]) && (i > 0 ==> q[i - 1] in ix && ix[q[i - 1]].next == q[i])
  }

  /** Readable pages, each the right sibling of the one before. */
  ghost predicate Linked(ix: Index, q: seq<nat>) {
    forall i :: 0 <= i < |q| ==> LinkAt(ix, q, i)
  }

  /** Following right links never comes back to a block. */
  ghost predicate Acyclic(ix: Index) {
    forall q :: Linked(ix, q) ==> Distinct(q)
  }

  lemma {:induction false} DistinctBounded(s: seq<nat>, keys: set<nat>)
    requires Distinct(s) && forall i :: 0 <= i < |s| ==> s[i] in keys
    ensures |s| <= |keys|
  {
    if s != [] {
      var n := |s| - 1;
      DistinctBounded(s[..n], keys - {s[n]});
    }
  }

  /** More blocks than the index has: some block occurs twice. */
  lemma {:induction false} LongRepeats(ix: Index, q: seq<nat>)
    requires Linked(ix, q) && |q| > |ix.Keys|
    ensures !Distinct(q)
  {
    if Distinct(q) {
      forall i | 0 <= i < |q|
        ensures q[i] in ix.Keys
      {
        assert LinkAt(ix, q, i);
      }
      DistinctBounded(q, ix.Keys);
    }
  }

  // --------------------------------------------------- half-dead pages on the left

  /** path[0] and then half-dead pages leftwards, each linking back to the one before. */
  ghost predicate LeftPath(ix: Index, path: seq<nat>) {
    && path != []
    && (forall i :: 0 <= i < |path| ==> Loads(ix, path[i]))
    && (forall i :: 0 < i < |path| ==> LeftLinkAt(ix, path, i))
  }

  ghost predicate LeftLinkAt(ix: Index, path: seq<nat>, i: nat)
    requires 0 < i < |path|
  {
    LeftLink(ix, path[i - 1], path[i])
  }

  ghost predicate LeftLink(ix: Index, a: nat, b: nat) {
    a in ix && b in ix && ix[a].prev == b && ix[b].halfDead && ix[b].next == a
  }

  /** Everything to the left of block b is a half-dead chain that links back to b. */
  ghost predicate LeftmostButHalfDead(ix: Index, b: nat) {
    exists path :: LeftPath(ix, path) && path[0] == b && ix[path[|path| - 1]].prev == P_NONE
  }

  /** In a left path that avoids its start every block is new: the links back are unique. */
  lemma {:induction false} LeftPathNew(ix: Index, path: seq<nat>, b: nat)
    requires LeftPath(ix, path) && Distinct(path) && Loads(ix, b) && LeftLink(ix, path[|path| - 1], b) && b != path[0]
    ensures Distinct(path + [b]) && LeftPath(ix, path + [b])
  {
    var n := |path|;
    var p := path + [b];
    forall i | 0 <= i < n
      ensures path[i] != b
    {
      if i > 0 { assert LeftLinkAt(ix, path, i); }
    }
    forall i | 0 < i < |p|
      ensures LeftLinkAt(ix, p, i)
    {
      if i < n { assert LeftLinkAt(ix, path, i); }
    }
  }

  /** Two left paths from the same block agree as far as both go. */
  lemma {:induction false} LeftPathsAgree(ix: Index, p: seq<nat>, q: seq<nat>, i: nat)
    requires LeftPath(ix, p) && LeftPath(ix, q) && p[0] == q[0] && i < |p| && i < |q|
    ensures p[i] == q[i]
  {
    if i > 0 {
      LeftPathsAgree(ix, p, q, i - 1);
      assert LeftLinkAt(ix, p, i) && LeftLinkAt(ix, q, i);
    }
  }

  /** A left path that ends at the left edge never comes back to its start. */
  lemma {:induction false} EndedPathShifts(ix: Index, p: seq<nat>, i: nat, k: nat)
    requires LeftPath(ix, p) && 0 < i && i + k < |p| && p[i] == p[0]
    ensures p[i + k] == p[k]
  {
    if k > 0 {
      EndedPathShifts(ix, p, i, k - 1);
      assert LeftLinkAt(ix, p, i + k) && LeftLinkAt(ix, p, k);
    }
  }

  lemma {:induction false} EndedPathAvoidsStart(ix: Index, p: seq<nat>, i: nat)
    requires LeftPath(ix, p) && ix[p[|p| - 1]].prev == P_NONE && 0 < i < |p|
    ensures p[i] != p[0]
  {
    var k := |p| - 1 - i;
    assert LeftLinkAt(ix, p, k + 1);
    if p[i] == p[0] { EndedPathShifts(ix, p, i, k); }
  }

  /** The walk so far, and how it relates to any complete chain. */
  ghost predicate WalkedLeft(ix: Index, path: seq<nat>, start: nat, reached: nat, from: nat) {
    && LeftPath(ix, path) && Distinct(path) && path[0] == start
    && path[|path| - 1] == from && ix[from].prev == reached
  }

  lemma {:induction false} NotLeftmost(ix: Index, path: seq<nat>, start: nat, reached: nat, from: nat)
    requires WalkedLeft(ix, path, start, reached, from) && reached != P_NONE
    requires !(Loads(ix, reached) && ix[reached].halfDead && reached != start && reached != from && ix[reached].next == from)
    ensures !LeftmostButHalfDead(ix, start)
  {
    if LeftmostButHalfDead(ix, start) {
      var q :| LeftPath(ix, q) && q[0] == start && ix[q[|q| - 1]].prev == P_NONE;
      var n := |path|;
      LongerThan(ix, path, q);
      LeftPathsAgree(ix, path, q, n - 1);
      assert LeftLinkAt(ix, q, n);
      EndedPathAvoidsStart(ix, q, n);
      assert q[n] == reached;
      SelfLink(ix, q, n);
    }
  }

  lemma {:induction false} LongerThan(ix: Index, path: seq<nat>, q: seq<nat>)
    requires LeftPath(ix, path) && LeftPath(ix, q) && path[0] == q[0]
    requires ix[q[|q| - 1]].prev == P_NONE && ix[path[|path| - 1]].prev != P_NONE
    ensures |q| > |path|
  {
    var m := |q| - 1;
    if m + 1 < |path| { assert LeftLinkAt(ix, path, m + 1); }
    if |q| <= |path| { LeftPathsAgree(ix, path, q, m); }
  }

  /** No page of an ended path is its own left neighbour. */
  lemma {:induction false} SelfLink(ix: Index, q: seq<nat>, n: nat)
    requires LeftPath(ix, q) && 0 < n < |q| && ix[q[|q| - 1]].prev == P_NONE
    ensures q[n] != q[n - 1]
  {
    if q[n] == q[n - 1] {
      var r := q[n - 1..];
      assert LeftPath(ix, r) by {
        forall i | 0 < i < |r|
          ensures LeftLinkAt(ix, r, i)
        {
          assert LeftLinkAt(ix, q, n - 1 + i);
        }
      }
      EndedPathAvoidsStart(ix, r, 1);
    }
  }

  /**
    bt_leftmost_ignoring_half_dead: ends on every graph of links, because no
    block can be reached twice, and says whether only a half-dead chain lies to
    the left.  A page that cannot be read is corruption.
   */
  method LeftmostIgnoringHalfDead(ix: Index, start: nat) returns (r: Outcome, leftmost: bool)
    requires Loads(ix, start)
    ensures r == Silent || r == Corrupt
    ensures r == Silent ==> (leftmost <==> LeftmostButHalfDead(ix, start))
    ensures r == Corrupt ==> !LeftmostButHalfDead(ix, start)
  {
    var reached, from := ix[start].prev, start;
    var allHalfDead := true;
    ghost var path := [start];
    while reached != P_NONE && allHalfDead
      invariant allHalfDead ==> WalkedLeft(ix, path, start, reached, from)
      invariant !allHalfDead ==> !LeftmostButHalfDead(ix, start)
      invariant forall i :: 0 <= i < |path| ==> path[i] in ix.Keys
      invariant Distinct(path)
      decreases allHalfDead, |ix.Keys| + 1 - |path|
    {
      DistinctBounded(path, ix.Keys);
      if !Loads(ix, reached) {
        NotLeftmost(ix, path, start, reached, from);
        return Corrupt, false;
      }
      var page := ix[reached];
      allHalfDead := page.halfDead && reached != start && reached != from && page.next == from;
      if allHalfDead {
        LeftPathNew(ix, path, reached);
        path := path + [reached];
        from, reached := reached, page.prev;
      } else {
        NotLeftmost(ix, path, start, reached, from);
      }
    }
    return Silent, allHalfDead;
  }

  // ------------------------------------------------------- walking along a level

  predicate NoHalfDead(ix: Index) { forall c :: c in ix ==> !ix[c].halfDead }

  predicate Live(ix: Index, b: nat) { b in ix && !Ignorable(ix[b]) }

  /** What the level walk has checked of the i-th block it visited. */
  ghost predicate VisitOk(ix: Index, level: nat, path: seq<nat>, i: nat)
    requires i < |path|
  {
    var b := path[i];
    && Loads(ix, b) && !ix[b].deleted && ix[b].prev != b
    && (ix[b].halfDead ==> !Rightmost(ix[b]))
    && (i > 0 ==> path[i - 1] in ix && ix[path[i - 1]].next == b && path[i - 1] != b)
    && (Live(ix, b) ==> ix[b].level == level && (i > 0 ==> ix[b].prev == path[i - 1]))
  }

  /** None of the first k blocks is live. */
  predicate NoneLive(ix: Index, path: seq<nat>, k: nat)
    requires k <= |path|
  {
    forall i :: 0 <= i < k ==> !Live(ix, path[i])
  }

  /** The first live block has only a half-dead chain on its left. */
  ghost predicate StartOk(ix: Index, path: seq<nat>) {
    forall i :: 0 <= i < |path| ==> StartAt(ix, path, i)
  }

  ghost predicate StartAt(ix: Index, path: seq<nat>, i: nat)
    requires i < |path|
  {
    Live(ix, path[i]) && NoneLive(ix, path, i) ==> LeftmostButHalfDead(ix, path[i])
  }

  ghost predicate Visits(ix: Index, level: nat, path: seq<nat>) {
    forall i :: 0 <= i < |path| ==> VisitOk(ix, level, path, i)
  }

  /** The blocks visited by a level walk that has raised no error so far. */
  ghost predicate LevelPath(ix: Index, level: nat, path: seq<nat>) {
    Visits(ix, level, path) && StartOk(ix, path)
  }

  /** The walk has reached the right end of the level. */
  ghost predicate WholeLevel(ix: Index, level: nat, path: seq<nat>) {
    LevelPath(ix, level, path) && path != [] && path[|path| - 1] in ix && Rightmost(ix[path[|path| - 1]])
  }

  lemma {:induction false} VisitExtends(ix: Index, level: nat, path: seq<nat>, b: nat, i: nat)
    requires i < |path| && VisitOk(ix, level, path, i)
    ensures VisitOk(ix, level, path + [b], i)
  {
  }

  lemma {:induction false} LevelExtends(ix: Index, level: nat, path: seq<nat>, b: nat)
    requires LevelPath(ix, level, path) && VisitOk(ix, level, path + [b], |path|)
    requires Live(ix, b) && NoneLive(ix, path, |path|) ==> LeftmostButHalfDead(ix, b)
    ensures LevelPath(ix, level, path + [b])
  {
    var p := path + [b];
    forall i | 0 <= i < |p|
      ensures VisitOk(ix, level, p, i) && StartAt(ix, p, i)
    {
      assert forall j :: 0 <= j < |path| ==> p[j] == path[j];
      if i < |path| {
        VisitExtends(ix, level, path, b, i);
        assert StartAt(ix, path, i);
      }
    }
  }

  lemma {:induction false} SecondHalfDead(ix: Index, q: seq<nat>)
    requires LeftPath(ix, q) && |q| > 1
    ensures exists c :: c in ix && ix[c].halfDead
  {
    assert LeftLinkAt(ix, q, 1);
  }

  lemma {:induction false} NoHalfDeadLeftmost(ix: Index, b: nat)
    requires LeftmostButHalfDead(ix, b) && NoHalfDead(ix)
    ensures b in ix && ix[b].prev == P_NONE
  {
    var q :| LeftPath(ix, q) && q[0] == b && ix[q[|q| - 1]].prev == P_NONE;
    if |q| > 1 {
      SecondHalfDead(ix, q);
      assert false;
    }
  }

  ghost predicate LiveVisit(ix: Index, level: nat, path: seq<nat>, i: nat)
    requires i < |path|
  {
    VisitOk(ix, level, path, i) && Live(ix, path[i])
  }

  /** Left links lead two visits of one block back to the start, which has none. */
  lemma {:induction false} NoRevisit(ix: Index, level: nat, path: seq<nat>, i: nat, j: nat)
    requires i < j < |path| && forall k :: 0 <= k < |path| ==> LiveVisit(ix, level, path, k)
    requires path[0] in ix && ix[path[0]].prev == P_NONE
    ensures path[i] != path[j]
  {
    assert LiveVisit(ix, level, path, i) && LiveVisit(ix, level, path, j) && LiveVisit(ix, level, path, j - 1);
    if i > 0 { NoRevisit(ix, level, path, i - 1, j - 1); }
  }

  /**
    Without half-dead pages a level walk that raises no error visits no block
    twice, so its path is no longer than the number of blocks.
   */
  lemma {:induction false} LevelBounded(ix: Index, level: nat, path: seq<nat>)
    requires LevelPath(ix, level, path) && NoHalfDead(ix)
    ensures Distinct(path) && |path| <= |ix.Keys|
  {
    forall i | 0 <= i < |path|
      ensures LiveVisit(ix, level, path, i) && path[i] in ix.Keys
    {
      assert VisitOk(ix, level, path, i);
    }
    if path != [] {
      assert StartAt(ix, path, 0);
      NoHalfDeadLeftmost(ix, path[0]);
      forall i, j | 0 <= i < j < |path|
        ensures path[i] != path[j]
      {
        NoRevisit(ix, level, path, i, j);
      }
    }
    DistinctBounded(path, ix.Keys);
  }
}
