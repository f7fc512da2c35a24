/**
  The pages below that are accounted for between one downlink and the next, as
  they lie on disk: the trail from the page of the downlink before, along right
  links, to the page of the downlink itself.  A call of the connectivity check is
  silent exactly when there is such a trail.
 */
module NbtreeTrail {
  import opened NbtreePages
  import opened NbtreeChild

  /** The page to the left of q[i] is incompletely split; left of q[0] is the page of the downlink before. */
  predicate LeftSplit(ix: Index, before: nat, q: seq<nat>, i: nat)
    requires i < |q|
  {
    var left := if i == 0 then before else q[i - 1];
    left != P_NONE && left in ix && ix[left].incomplete
  }

  /**
    Page i of a trail: it can be read, follows the page before it, is one level
    below the target, is not its own left sibling, is the page the downlink names
    or accounted for without one, and its high key is the separator there.
   */
  ghost predicate TrailPage(ix: Index, target: Page, off: int, low: LowKey, before: nat, q: seq<nat>, i: nat)
    requires -1 <= off < |target.items| && i < |q|
  {
    var b := q[i];
    && LinkAt(ix, q, i)
    && (LevelKept(ix[b]) ==> ix[b].level + 1 == target.level)
    && ix[b].prev != b
    && (b == Downlink(target, off) || Ignorable(ix[b]) || ix[b].root || LeftSplit(ix, before, q, i) || TopOfDeletion(ix, b))
    && KeyOk(ix, target, off, low, b, b == Downlink(target, off))
  }

  ghost predicate TrailPages(ix: Index, target: Page, off: int, low: LowKey, before: nat, q: seq<nat>)
    requires -1 <= off < |target.items|
  {
    forall i :: 0 <= i < |q| ==> TrailPage(ix, target, off, low, before, q, i)
  }

  /** Where a trail starts: right of the page before, or, without one, at a leftmost page that the downlink names. */
  ghost predicate TrailStarts(ix: Index, target: Page, off: int, before: nat, q: seq<nat>)
    requires -1 <= off < |target.items|
  {
    if before == P_NONE then q == [] || (q[0] == Downlink(target, off) && LeftmostButHalfDead(ix, q[0]))
    else before in ix && (if q == [] then Rightmost(ix[before]) else q[0] == ix[before].next)
  }

  /** Where it ends: at the page the downlink names; at the right edge of the level if there is none. */
  ghost predicate TrailEnds(ix: Index, target: Page, off: int, q: seq<nat>)
    requires -1 <= off < |target.items|
  {
    var d := Downlink(target, off);
    if d != P_NONE then q != [] && q[|q| - 1] == d
    else q != [] ==> q[|q| - 1] in ix && Rightmost(ix[q[|q| - 1]])
  }

  /** `before` is the downlink before this one, or zero if there is none to go on from. */
  ghost predicate Trail(ix: Index, target: Page, off: int, low: LowKey, before: nat, q: seq<nat>)
    requires -1 <= off < |target.items|
  {
    && Distinct(q) && TrailPages(ix, target, off, low, before, q)
    && TrailStarts(ix, target, off, before, q) && TrailEnds(ix, target, off, q)
  }

  ghost predicate Reached(ix: Index, target: Page, off: int, low: LowKey, before: nat)
    requires -1 <= off < |target.items|
  {
    exists q :: Trail(ix, target, off, low, before, q)
  }

  /** Where the walk below stands after the page of a downlink, or after a zero one. */
  function StateOf(ix: Index, before: nat, low: LowKey): Below {
    if before != P_NONE && before in ix then Below(ix[before].next, ix[before].incomplete, low) else Below(INVALID, false, low)
  }

  // ------------------------------------------------------------- a trail is walked

  /** A page of a trail passes when the walk comes to it. */
  lemma {:induction false} TrailPasses(ix: Index, target: Page, off: int, low: LowKey, before: nat, q: seq<nat>, i: nat)
    requires -1 <= off < |target.items| && Trail(ix, target, off, low, before, q) && i < |q| && (before != P_NONE ==> before in ix)
    ensures Loads(ix, q[i]) && (i + 1 < |q| ==> ix[q[i]].next == q[i + 1] && q[i] != Downlink(target, off))
    ensures Passes(ix, target, off, StateOf(ix, before, low), q[i], i == 0,
                   if i == 0 then Split(StateOf(ix, before, low)) else q[i - 1] in ix && ix[q[i - 1]].incomplete)
  {
    assert TrailPage(ix, target, off, low, before, q, i);
    if i + 1 < |q| { assert TrailPage(ix, target, off, low, before, q, i + 1); }
  }

  /** The walk along the rest of a trail. */
  lemma {:induction false} TrailWalks(ix: Index, target: Page, off: int, low: LowKey, before: nat, q: seq<nat>, i: nat, fuel: nat)
    requires -1 <= off < |target.items| && Trail(ix, target, off, low, before, q) && (before != P_NONE ==> before in ix)
    requires i < |q| && fuel > |q| - i
    ensures Walk(ix, target, off, StateOf(ix, before, low), q[i], i == 0,
                 if i == 0 then Split(StateOf(ix, before, low)) else q[i - 1] in ix && ix[q[i - 1]].incomplete, fuel).0 == Silent
    decreases |q| - i
  {
    TrailPasses(ix, target, off, low, before, q, i);
    if i + 1 < |q| { TrailWalks(ix, target, off, low, before, q, i + 1, fuel - 1); }
  }

  lemma {:induction false} TrailBounded(ix: Index, target: Page, off: int, low: LowKey, before: nat, q: seq<nat>)
    requires -1 <= off < |target.items| && Trail(ix, target, off, low, before, q)
    ensures |q| <= |ix.Keys|
  {
    forall i | 0 <= i < |q|
      ensures q[i] in ix.Keys
    {
      assert TrailPage(ix, target, off, low, before, q, i);
    }
    DistinctBounded(q, ix.Keys);
  }

  lemma {:induction false} ReachedSilent(ix: Index, target: Page, off: int, low: LowKey, before: nat, fuel: nat)
    requires -1 <= off < |target.items| && Reached(ix, target, off, low, before) && fuel > |ix.Keys|
    ensures Call(ix, target, off, StateOf(ix, before, low), fuel).0 == Silent
  {
    var q :| Trail(ix, target, off, low, before, q);
    TrailBounded(ix, target, off, low, before, q);
    if q != [] { TrailWalks(ix, target, off, low, before, q, 0, fuel); }
  }

  // --------------------------------------------------------- a walk leaves a trail

  /** What the walk has checked of the i-th page, when it started with `first` and `split`. */
  ghost predicate WalkedPage(ix: Index, target: Page, off: int, s: Below, first: bool, split: bool, q: seq<nat>, i: nat)
    requires -1 <= off < |target.items| && i < |q|
  {
    && LinkAt(ix, q, i) && (i + 1 < |q| ==> q[i] != Downlink(target, off))
    && (if i == 0 then Passes(ix, target, off, s, q[0], first, split)
        else Passes(ix, target, off, s, q[i], false, ix[q[i - 1]].incomplete))
  }

  ghost predicate Walked(ix: Index, target: Page, off: int, s: Below, b: int, first: bool, split: bool, q: seq<nat>)
    requires -1 <= off < |target.items|
  {
    && (if q == [] then b == P_NONE == Downlink(target, off) else q[0] == b)
    && TrailEnds(ix, target, off, q)
    && forall i :: 0 <= i < |q| ==> WalkedPage(ix, target, off, s, first, split, q, i)
  }

  lemma {:induction false} SilentWalked(ix: Index, target: Page, off: int, s: Below, b: int, first: bool, split: bool, fuel: nat)
    returns (q: seq<nat>)
    requires -1 <= off < |target.items| && Walk(ix, target, off, s, b, first, split, fuel).0 == Silent
    ensures Walked(ix, target, off, s, b, first, split, q)
    decreases fuel
  {
    q := [];
    if b != P_NONE || Downlink(target, off) != P_NONE {
      q := [b];
      if b != Downlink(target, off) {
        var t := SilentWalked(ix, target, off, s, ix[b].next, false, ix[b].incomplete, fuel - 1);
        q := q + t;
        forall i | 0 <= i < |q|
          ensures WalkedPage(ix, target, off, s, first, split, q, i)
        {
          if i > 0 { assert WalkedPage(ix, target, off, s, false, ix[b].incomplete, t, i - 1); }
        }
      }
    }
  }

  /** The pages before the last one, or all of them when there is no downlink. */
  function Inner(target: Page, off: int, q: seq<nat>): seq<nat>
    requires -1 <= off < |target.items|
  {
    if Downlink(target, off) != P_NONE && q != [] then q[..|q| - 1] else q
  }

  lemma {:induction false} InnerPassed(ix: Index, target: Page, off: int, s: Below, b: int, first: bool, split: bool, q: seq<nat>)
    requires -1 <= off < |target.items| && Walked(ix, target, off, s, b, first, split, q) && Inner(target, off, q) != []
    ensures Passed(ix, target, off, s, b, first, split, Inner(target, off, q))
  {
    var t := Inner(target, off, q);
    forall i | 0 <= i < |t|
      ensures PassedAt(ix, target, off, s, first, split, t, i)
    {
      assert WalkedPage(ix, target, off, s, first, split, q, i);
    }
  }

  /** A walk that ends meets no page twice. */
  lemma {:induction false} WalkedDistinct(ix: Index, target: Page, off: int, s: Below, q: seq<nat>, fuel: nat)
    requires -1 <= off < |target.items| && Call(ix, target, off, s, fuel).0 == Silent
    requires Walked(ix, target, off, s, From(target, off, s), true, Split(s), q)
    ensures Distinct(q)
  {
    var t := Inner(target, off, q);
    if t != [] { InnerPassed(ix, target, off, s, From(target, off, s), true, Split(s), q); }
    if !Distinct(t) {
      assert RingBelow(ix, target, off, s);
      CallEndlessIff(ix, target, off, s, fuel);
    }
    forall i, j | 0 <= i < j < |q|
      ensures q[i] != q[j]
    {
      assert WalkedPage(ix, target, off, s, true, Split(s), q, i);
      if j < |t| { assert t[i] != t[j]; }
    }
  }

  lemma {:induction false} WalkedTrail(ix: Index, target: Page, off: int, low: LowKey, before: nat, q: seq<nat>)
    requires -1 <= off < |target.items| && (before != P_NONE ==> before in ix) && Distinct(q)
    requires var s := StateOf(ix, before, low); Walked(ix, target, off, s, From(target, off, s), true, Split(s), q)
    ensures Trail(ix, target, off, low, before, q)
  {
    var s := StateOf(ix, before, low);
    forall i | 0 <= i < |q|
      ensures TrailPage(ix, target, off, low, before, q, i)
    {
      assert WalkedPage(ix, target, off, s, true, Split(s), q, i);
      if i > 0 { assert WalkedPage(ix, target, off, s, true, Split(s), q, i - 1); }
    }
    if q != [] { assert WalkedPage(ix, target, off, s, true, Split(s), q, 0); }
  }

  /** A call is silent if and only if there is a trail; it leaves the walk right of the page it found. */
  lemma {:induction false} CallIff(ix: Index, target: Page, off: int, low: LowKey, before: nat, fuel: nat)
    requires -1 <= off < |target.items| && fuel > |ix.Keys| && (before != P_NONE ==> before in ix)
    ensures Call(ix, target, off, StateOf(ix, before, low), fuel).0 == Silent <==> Reached(ix, target, off, low, before)
  {
    var s := StateOf(ix, before, low);
    if Call(ix, target, off, s, fuel).0 == Silent {
      var q := SilentWalked(ix, target, off, s, From(target, off, s), true, Split(s), fuel);
      WalkedDistinct(ix, target, off, s, q, fuel);
      WalkedTrail(ix, target, off, low, before, q);
    }
    if Reached(ix, target, off, low, before) { ReachedSilent(ix, target, off, low, before, fuel); }
  }
}
