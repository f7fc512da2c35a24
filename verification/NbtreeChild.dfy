/**
  Downlink connectivity: while the downlinks of an internal level are read from
  left to right, the checker follows the right links of the level below in step
  with them.  The main result says what the pages below look like when no error
  was raised.
 */
module NbtreeChild {
  import opened NbtreePages

  // ------------------------------------------------- pages without a downlink

  /** Following first downlinks from blk, one level at a time, ends in a half-dead leaf that names top. */
  ghost predicate Spine(ix: Index, top: nat, blk: nat, level: nat)
    decreases level
  {
    && Loads(ix, blk)
    && var p := ix[blk];
       if p.leaf then !p.deleted && p.halfDead && !Rightmost(p) && p.topParent == top
       else level > 0 && p.level == level - 1 && p.items != [] && Spine(ix, top, p.items[0].down, level - 1)
  }

  /** Block b is the top of an interrupted multi-level deletion. */
  ghost predicate TopOfDeletion(ix: Index, b: nat) {
    Loads(ix, b) && !ix[b].leaf && ix[b].items != [] && Spine(ix, b, ix[b].items[0].down, ix[b].level)
  }

  /** The descent of bt_downlink_missing_check. */
  method Descend(ix: Index, b: nat) returns (r: Outcome)
    requires Loads(ix, b) && !Ignorable(ix[b]) && !ix[b].leaf
    ensures r == Silent <==> TopOfDeletion(ix, b)
    ensures r == Silent || r == Corrupt
  {
    var level := ix[b].level;
    var childblk := ix[b].items[0].down;
    while true
      invariant TopOfDeletion(ix, b) <==> Spine(ix, b, childblk, level)
      decreases level
    {
      if !Loads(ix, childblk) {
        return Corrupt;
      }
      var child := ix[childblk];
      if child.leaf {
        break;
      }
      if level == 0 || child.level != level - 1 || child.items == [] {
        return Corrupt;
      }
      level := child.level;
      childblk := child.items[0].down;
    }
    var leaf := ix[childblk];
    if leaf.deleted {
      return Corrupt;
    }
    if leaf.halfDead && !Rightmost(leaf) && leaf.topParent == b {
      return Silent;
    }
    return Corrupt;
  }

  /** bt_downlink_missing_check for a page that is not ignorable. */
  method DownlinkMissingCheck(ix: Index, rightsplit: bool, b: nat) returns (r: Outcome)
    requires Loads(ix, b) && !Ignorable(ix[b])
    ensures r == Silent <==> ix[b].root || rightsplit || TopOfDeletion(ix, b)
    ensures r == Silent || r == Corrupt
  {
    if ix[b].root {
      return Silent;
    }
    if rightsplit {
      return Silent;
    }
    if ix[b].leaf {
      return Corrupt;
    }
    r := Descend(ix, b);
  }

  // ----------------------------------------------------------------- the chain

  datatype LowKey = NoKey | LowKey(key: int)

  /** A downlink and the separator to its right, if there is one. */
  datatype Down = Down(blk: nat, right: LowKey)

  function DownAt(target: Page, off: nat): Down
    requires off < |target.items|
  {
    Down(target.items[off].down,
         if off + 1 < |target.items| then LowKey(target.items[off + 1].lo)
         else if Rightmost(target) then NoKey else LowKey(target.highKey))
  }

  /** The high key of block b is the separator k, unless its split is incomplete. */
  predicate KeyFits(ix: Index, b: nat, k: LowKey) {
    b in ix && (!ix[b].incomplete && !Rightmost(ix[b]) ==> k == LowKey(ix[b].highKey))
  }

  /** A page of the chain that needs no downlink. */
  ghost predicate AcceptedAt(ix: Index, chain: seq<nat>, i: nat)
    requires i < |chain|
  {
    && chain[i] in ix
    && (Ignorable(ix[chain[i]]) || ix[chain[i]].root
        || (i > 0 && chain[i - 1] in ix && ix[chain[i - 1]].incomplete)
        || TopOfDeletion(ix, chain[i]))
  }

  /** The j-th downlink leads to the page at position ends[j]; positions increase and keys match. */
  ghost predicate EndAt(ix: Index, chain: seq<nat>, ends: seq<nat>, downs: seq<Down>, j: nat)
    requires j < |ends| && |ends| == |downs|
  {
    && ends[j] < |chain| && chain[ends[j]] == downs[j].blk && KeyFits(ix, downs[j].blk, downs[j].right)
    && (j > 0 ==> ends[j - 1] < ends[j])
  }

  ghost predicate NeededAt(ix: Index, chain: seq<nat>, ends: seq<nat>, i: nat)
    requires i < |chain|
  {
    i in ends || AcceptedAt(ix, chain, i)
  }

  /**
    The pages seen so far are linked from left to right, starting at a leftmost
    page; the downlinks read so far occur among them in order; every other page
    is accounted for.
   */
  ghost predicate ChainOk(ix: Index, chain: seq<nat>, ends: seq<nat>, downs: seq<Down>) {
    && |ends| == |downs|
    && (forall i :: 0 <= i < |chain| ==> LinkAt(ix, chain, i))
    && (forall j :: 0 <= j < |ends| ==> EndAt(ix, chain, ends, downs, j))
    && (forall i :: 0 <= i < |chain| ==> NeededAt(ix, chain, ends, i))
    && (chain != [] ==> ends != [] && ends[0] == 0 && LeftmostButHalfDead(ix, chain[0]))
    && (chain == [] ==> ends == [])
  }

  /** Block b can come next on the chain. */
  ghost predicate Follows(ix: Index, chain: seq<nat>, b: nat) {
    && Loads(ix, b)
    && (chain == [] ==> LeftmostButHalfDead(ix, b))
    && (chain != [] ==> chain[|chain| - 1] in ix && ix[chain[|chain| - 1]].next == b)
  }

  /** The cursor stands right of the last page of the chain. */
  ghost predicate CursorAt(ix: Index, chain: seq<nat>, blkno: int, split: bool) {
    && chain != [] && chain[|chain| - 1] in ix
    && blkno == ix[chain[|chain| - 1]].next && split == ix[chain[|chain| - 1]].incomplete
  }

  ghost predicate EndsLevel(ix: Index, chain: seq<nat>) {
    chain != [] && chain[|chain| - 1] in ix && Rightmost(ix[chain[|chain| - 1]])
  }

  lemma {:induction false} KeepPosition(ix: Index, chain: seq<nat>, ends: seq<nat>, b: nat, ends': seq<nat>, i: nat)
    requires i < |chain| && LinkAt(ix, chain, i) && NeededAt(ix, chain, ends, i) && (forall e :: e in ends ==> e in ends')
    ensures LinkAt(ix, chain + [b], i) && NeededAt(ix, chain + [b], ends', i)
  {
  }

  /** The next page is the one the downlink names. */
  lemma {:induction false} VisitDown(ix: Index, chain: seq<nat>, ends: seq<nat>, downs: seq<Down>, down: Down)
    requires ChainOk(ix, chain, ends, downs) && Follows(ix, chain, down.blk) && KeyFits(ix, down.blk, down.right)
    ensures ChainOk(ix, chain + [down.blk], ends + [|chain|], downs + [down])
  {
    var b := down.blk;
    var c, e, d := chain + [b], ends + [|chain|], downs + [down];
    forall i | 0 <= i < |c|
      ensures LinkAt(ix, c, i) && NeededAt(ix, c, e, i)
    {
      if i < |chain| { KeepPosition(ix, chain, ends, b, e, i); } else { assert e[|ends|] == i; }
    }
    forall j | 0 <= j < |e|
      ensures EndAt(ix, c, e, d, j)
    {
      if j < |ends| { assert EndAt(ix, chain, ends, downs, j); }
      if j > 0 { assert EndAt(ix, chain, ends, downs, j - 1); }
    }
  }

  /** The next page has no downlink and is accepted without one. */
  lemma {:induction false} VisitPlain(ix: Index, chain: seq<nat>, ends: seq<nat>, downs: seq<Down>, b: nat)
    requires ChainOk(ix, chain, ends, downs) && chain != [] && Follows(ix, chain, b)
    requires Ignorable(ix[b]) || ix[b].root || ix[chain[|chain| - 1]].incomplete || TopOfDeletion(ix, b)
    ensures ChainOk(ix, chain + [b], ends, downs)
  {
    var c := chain + [b];
    forall i | 0 <= i < |c|
      ensures LinkAt(ix, c, i) && NeededAt(ix, c, ends, i)
    {
      if i < |chain| { KeepPosition(ix, chain, ends, b, ends, i); } else { assert AcceptedAt(ix, c, i); }
    }
    forall j | 0 <= j < |ends|
      ensures EndAt(ix, c, ends, downs, j)
    {
      assert EndAt(ix, chain, ends, downs, j);
    }
  }

  // --------------------------------------------------------------- the walk below

  const INVALID: int := -1

  /** Where the walk below stands between two downlinks, and the saved low key of the target. */
  datatype Below = Below(right: int, split: bool, low: LowKey)

  const START: Below := Below(INVALID, false, NoKey)

  /** The separator a page below is compared with. */
  function Separator(target: Page, off: nat, low: LowKey, isDown: bool): LowKey
    requires off < |target.items|
  {
    if isDown then DownAt(target, off).right else if off > 0 then LowKey(target.items[off].lo) else low
  }

  /**
    The high key comparison of a page below.  Right of the last downlink there is
    no separator: the line pointer looked up instead has no storage, which is an
    error, unless the page has no high key to compare.
   */
  predicate KeyOk(ix: Index, target: Page, off: int, low: LowKey, b: nat, isDown: bool)
    requires -1 <= off < |target.items|
  {
    if off >= 0 then KeyFits(ix, b, Separator(target, off, low, isDown))
    else b in ix && (ix[b].incomplete || Rightmost(ix[b]))
  }

  /** Every check of the loop body on one page below. */
  ghost predicate Passes(ix: Index, target: Page, off: int, s: Below, b: nat, first: bool, split: bool)
    requires -1 <= off < |target.items|
  {
    && Loads(ix, b)
    && (first && s.right == INVALID ==> LeftmostButHalfDead(ix, b))
    && (LevelKept(ix[b]) ==> ix[b].level + 1 == target.level)
    && (!first ==> b != s.right) && b != ix[b].prev
    && (b == Downlink(target, off) || Ignorable(ix[b]) || ix[b].root || split || TopOfDeletion(ix, b))
    && KeyOk(ix, target, off, s.low, b, b == Downlink(target, off))
  }

  function Downlink(target: Page, off: int): nat
    requires -1 <= off < |target.items|
  {
    if off >= 0 then target.items[off].down else P_NONE
  }

  /** The walk below from block b: how it ends, and where it then stands. */
  ghost function Walk(ix: Index, target: Page, off: int, s: Below, b: int, first: bool, split: bool, fuel: nat): (Outcome, Below)
    requires -1 <= off < |target.items|
    decreases fuel
  {
    var down := Downlink(target, off);
    if fuel == 0 then (TooLong, s)
    else if b == P_NONE == down then (Silent, s.(right := INVALID, split := false))
    else if b <= P_NONE || !Passes(ix, target, off, s, b, first, split) then (Corrupt, s)
    else if b == down then (Silent, s.(right := ix[b].next, split := ix[b].incomplete))
    else Walk(ix, target, off, s, ix[b].next, false, ix[b].incomplete, fuel - 1)
  }

  /** One call of bt_child_highkey_check. */
  ghost function Call(ix: Index, target: Page, off: int, s: Below, fuel: nat): (Outcome, Below)
    requires -1 <= off < |target.items|
  {
    Walk(ix, target, off, s, From(target, off, s), true, Split(s), fuel)
  }

  function From(target: Page, off: int, s: Below): int
    requires -1 <= off < |target.items|
  {
    if s.right == INVALID then Downlink(target, off) else s.right
  }

  predicate Split(s: Below) { s.right != INVALID && s.split }

  /** More fuel changes no answer that was found. */
  lemma {:induction false} WalkMore(ix: Index, target: Page, off: int, s: Below, b: int, first: bool, split: bool, fuel: nat, more: nat)
    requires -1 <= off < |target.items| && fuel <= more
    requires Walk(ix, target, off, s, b, first, split, fuel).0 != TooLong
    ensures Walk(ix, target, off, s, b, first, split, more) == Walk(ix, target, off, s, b, first, split, fuel)
    decreases fuel
  {
    if b > P_NONE && Passes(ix, target, off, s, b, first, split) && b != Downlink(target, off) {
      WalkMore(ix, target, off, s, ix[b].next, false, ix[b].incomplete, fuel - 1, more - 1);
    }
  }

  /** The i-th block of a walk below passes, and is not the one the downlink names. */
  ghost predicate PassedAt(ix: Index, target: Page, off: int, s: Below, first: bool, split: bool, q: seq<nat>, i: nat)
    requires -1 <= off < |target.items| && i < |q|
  {
    && LinkAt(ix, q, i) && q[i] != Downlink(target, off)
    && (if i == 0 then Passes(ix, target, off, s, q[0], first, split)
        else Passes(ix, target, off, s, q[i], false, ix[q[i - 1]].incomplete))
  }

  ghost predicate Passed(ix: Index, target: Page, off: int, s: Below, b: int, first: bool, split: bool, q: seq<nat>)
    requires -1 <= off < |target.items|
  {
    q != [] && q[0] == b && forall i :: 0 <= i < |q| ==> PassedAt(ix, target, off, s, first, split, q, i)
  }

  /** Right links below lead over accepted pages, never to the downlink, and back to one of them. */
  ghost predicate RingBelow(ix: Index, target: Page, off: int, s: Below)
    requires -1 <= off < |target.items|
  {
    exists q :: Passed(ix, target, off, s, From(target, off, s), true, Split(s), q) && !Distinct(q)
  }

  /** On a trail that returns to block q[i] the walk never stops. */
  lemma {:induction false} RingWalks(ix: Index, target: Page, off: int, s: Below, b: int, first: bool, split: bool,
                                     q: seq<nat>, i: nat, j: nat, k: nat, fuel: nat)
    requires -1 <= off < |target.items| && Passed(ix, target, off, s, b, first, split, q)
    requires i < j < |q| && q[i] == q[j] && 0 < k <= j && LinkAt(ix, q, k)
    ensures Walk(ix, target, off, s, q[k], false, ix[q[k - 1]].incomplete, fuel).0 == TooLong
    decreases fuel
  {
    if fuel > 0 {
      var m := if k < j then k + 1 else i + 1;
      assert PassedAt(ix, target, off, s, first, split, q, k) && PassedAt(ix, target, off, s, first, split, q, m);
      RingWalks(ix, target, off, s, b, first, split, q, i, j, m, fuel - 1);
    }
  }

  lemma {:induction false} PassedOf(ix: Index, target: Page, off: int, s: Below, b: int, first: bool, split: bool, fuel: nat)
    returns (q: seq<nat>)
    requires -1 <= off < |target.items| && fuel > 0
    requires Walk(ix, target, off, s, b, first, split, fuel).0 == TooLong
    ensures Passed(ix, target, off, s, b, first, split, q) && |q| == fuel
    decreases fuel
  {
    q := [b];
    if fuel > 1 {
      var t := PassedOf(ix, target, off, s, ix[b].next, false, ix[b].incomplete, fuel - 1);
      q := q + t;
      forall i | 0 <= i < |q|
        ensures PassedAt(ix, target, off, s, first, split, q, i)
      {
        if i > 0 { assert PassedAt(ix, target, off, s, false, ix[b].incomplete, t, i - 1); }
      }
    }
  }

  lemma {:induction false} PassedLinked(ix: Index, target: Page, off: int, s: Below, b: int, first: bool, split: bool, q: seq<nat>)
    requires -1 <= off < |target.items| && Passed(ix, target, off, s, b, first, split, q)
    ensures Linked(ix, q)
  {
    forall i | 0 <= i < |q|
      ensures LinkAt(ix, q, i)
    {
      assert PassedAt(ix, target, off, s, first, split, q, i);
    }
  }

  /**
    A call never ends if and only if the right links below run into a ring of
    accepted pages without meeting the downlink; otherwise it ends within the
    number of blocks.
   */
  lemma {:induction false} CallEndlessIff(ix: Index, target: Page, off: int, s: Below, fuel: nat)
    requires -1 <= off < |target.items|
    ensures RingBelow(ix, target, off, s) ==> Call(ix, target, off, s, fuel).0 == TooLong
    ensures fuel > |ix.Keys| ==> (Call(ix, target, off, s, fuel).0 == TooLong <==> RingBelow(ix, target, off, s))
  {
    var b, split := From(target, off, s), Split(s);
    if RingBelow(ix, target, off, s) {
      var q :| Passed(ix, target, off, s, b, true, split, q) && !Distinct(q);
      var i, j :| 0 <= i < j < |q| && q[i] == q[j];
      assert PassedAt(ix, target, off, s, true, split, q, 0) && PassedAt(ix, target, off, s, true, split, q, 1);
      if fuel > 0 { RingWalks(ix, target, off, s, b, true, split, q, i, j, 1, fuel - 1); }
    } else if fuel > |ix.Keys| && Call(ix, target, off, s, fuel).0 == TooLong {
      var q := PassedOf(ix, target, off, s, b, true, split, fuel);
      PassedLinked(ix, target, off, s, b, true, split, q);
      LongRepeats(ix, q);
    }
  }

  // ------------------------------------------------------------------- the check

  class ChildCheck {
    const ix: Index
    var prevrightlink: int
    var previncomplete: bool
    var lowkey: LowKey
    ghost var chain: seq<nat>
    ghost var ends: seq<nat>
    ghost var downs: seq<Down>

    constructor (ix: Index)
      ensures this.ix == ix && Between() && downs == [] && State() == START
    {
      this.ix := ix;
      prevrightlink, previncomplete, lowkey := INVALID, false, NoKey;
      chain, ends, downs := [], [], [];
    }

    ghost function State(): Below
      reads this
    {
      Below(prevrightlink, previncomplete, lowkey)
    }

    /** Between two downlinks: the cursor stands right of the last downlink's page. */
    ghost predicate Between()
      reads this
    {
      && ChainOk(ix, chain, ends, downs)
      && (chain == [] ==> prevrightlink == INVALID && !previncomplete)
      && (chain != [] ==> CursorAt(ix, chain, prevrightlink, previncomplete))
    }

    /** The high key of a child against the separator next to its downlink. */
    method HighKeyMatches(target: Page, off: int, blkno: nat, isDown: bool) returns (ok: bool)
      requires -1 <= off < |target.items| && blkno in ix && (isDown ==> off >= 0)
      ensures ok <==> KeyOk(ix, target, off, lowkey, blkno, isDown)
    {
      var page := ix[blkno];
      if page.incomplete || Rightmost(page) {
        return true;
      }
      if off < 0 {
        return false;
      }
      var pivot := if isDown then off + 1 else off;
      if pivot == 0 {
        return lowkey.LowKey? && page.highKey == lowkey.key;
      }
      if pivot >= |target.items| {
        return !Rightmost(target) && page.highKey == target.highKey;
      }
      return page.highKey == target.items[pivot].lo;
    }

    /** The checks on one child-level page before it is accepted. */
    method PageCheck(target: Page, blkno: nat, first: bool) returns (r: Outcome)
      ensures r == Silent <==>
                && Loads(ix, blkno)
                && (first && prevrightlink == INVALID ==> LeftmostButHalfDead(ix, blkno))
                && (LevelKept(ix[blkno]) ==> ix[blkno].level + 1 == target.level)
                && (!first ==> blkno != prevrightlink) && blkno != ix[blkno].prev
      ensures r == Silent || r == Corrupt
    {
      if !Loads(ix, blkno) {
        return Corrupt;
      }
      var page := ix[blkno];
      if first && prevrightlink == INVALID {
        var leftmost;
        r, leftmost := LeftmostIgnoringHalfDead(ix, blkno);
        if r != Silent || !leftmost {
          return Corrupt;
        }
      }
      if LevelKept(page) && page.level + 1 != target.level {
        return Corrupt;
      }
      if (!first && blkno == prevrightlink) || blkno == page.prev {
        return Corrupt;
      }
      return Silent;
    }

    /** Where the walk below stands. */
    ghost predicate Cursor(blkno: int, downlink: nat, first: bool, rightsplit: bool)
      reads this
    {
      && ChainOk(ix, chain, ends, downs)
      && if chain == [] then first && prevrightlink == INVALID && blkno == downlink
         else CursorAt(ix, chain, blkno, rightsplit)
    }

    /** One page of the walk below: every check of the loop body on it. */
    method VisitPage(target: Page, off: int, blkno: nat, downlink: nat, first: bool, rightsplit: bool, ghost good: bool)
      returns (r: Outcome)
      requires -1 <= off < |target.items| && downlink == Downlink(target, off)
      requires blkno != P_NONE && (good ==> Cursor(blkno, downlink, first, rightsplit))
      modifies this`chain, this`ends, this`downs
      ensures r == Silent <==> Passes(ix, target, off, State(), blkno, first, rightsplit)
      ensures r == Silent || r == Corrupt
      ensures r == Silent && good ==> ChainOk(ix, chain, ends, downs) && chain == old(chain) + [blkno]
      ensures r == Silent && good && blkno == downlink ==> off >= 0 && downs == old(downs) + [DownAt(target, off)]
      ensures r == Silent && good && blkno != downlink ==> downs == old(downs)
    {
      r := PageCheck(target, blkno, first);
      if r != Silent {
        return;
      }
      if blkno != downlink && !Ignorable(ix[blkno]) {
        r := DownlinkMissingCheck(ix, rightsplit, blkno);
        if r != Silent {
          return;
        }
      }
      var ok := HighKeyMatches(target, off, blkno, blkno == downlink);
      if !ok {
        return Corrupt;
      }
      if good {
        if blkno == downlink {
          VisitDown(ix, chain, ends, downs, DownAt(target, off));
          ends, downs := ends + [|chain|], downs + [DownAt(target, off)];
        } else {
          VisitPlain(ix, chain, ends, downs, blkno);
        }
        chain := chain + [blkno];
      }
      return Silent;
    }

    /** What a call that found its downlink, or the right edge, has established. */
    ghost predicate Reached(target: Page, off: int, downs0: seq<Down>)
      requires -1 <= off < |target.items|
      reads this
    {
      if off >= 0 then Between() && downs == downs0 + [DownAt(target, off)] && chain != []
      else ChainOk(ix, chain, ends, downs) && downs == downs0 && EndsLevel(ix, chain)
    }

    /** The walk below stands at a page and has not met the downlink yet. */
    ghost predicate Walking(off: int, blkno: int, downlink: nat, first: bool, rightsplit: bool, downs0: seq<Down>)
      reads this
    {
      Cursor(blkno, downlink, first, rightsplit) && downs == downs0 && (off < 0 ==> chain != [])
    }

    /** One round of the loop of bt_child_highkey_check. */
    method WalkStep(target: Page, off: int, blkno: int, first: bool, rightsplit: bool, ghost fuel: nat, ghost good: bool)
      returns (r: Outcome, done: bool, next: int, split: bool)
      requires -1 <= off < |target.items| && fuel > 0 && (off >= 0 && good ==> Downlink(target, off) != P_NONE)
      requires good ==> Walking(off, blkno, Downlink(target, off), first, rightsplit, downs)
      modifies this
      ensures r == Corrupt ==> Walk(ix, target, off, old(State()), blkno, first, rightsplit, fuel).0 == Corrupt
      ensures r == Silent && done ==> Walk(ix, target, off, old(State()), blkno, first, rightsplit, fuel) == (Silent, State())
      ensures r == Silent && done && good ==> Reached(target, off, old(downs))
      ensures r == Silent && !done ==> State() == old(State())
      ensures r == Silent && !done ==>
                Walk(ix, target, off, State(), blkno, first, rightsplit, fuel) == Walk(ix, target, off, State(), next, false, split, fuel - 1)
      ensures r == Silent && !done && good ==> Walking(off, next, Downlink(target, off), false, split, old(downs))
      ensures (r == Silent || r == Corrupt) && lowkey == old(lowkey)
    {
      var downlink := Downlink(target, off);
      next, split, done := blkno, rightsplit, true;
      if blkno == P_NONE && downlink == P_NONE {
        prevrightlink, previncomplete := INVALID, false;
        return Silent, true, next, split;
      }
      if blkno <= P_NONE {
        return Corrupt, true, next, split;
      }
      r := VisitPage(target, off, blkno, downlink, first, rightsplit, good);
      if r != Silent {
        return;
      }
      var page := ix[blkno];
      split, next := page.incomplete, page.next;
      if blkno == downlink {
        prevrightlink, previncomplete := page.next, split;
      } else {
        done := false;
      }
    }

    /**
      bt_child_highkey_check for the downlink at `off`, or for the pages right of
      the last downlink when `off` is negative.  `clean` says that no downlink so
      far was zero; only then are the pages below known to form a chain.
     */
    method ChildHighkeyCheck(target: Page, off: int, fuel: nat, ghost clean: bool) returns (r: Outcome)
      requires -1 <= off < |target.items| && (clean ==> Between())
      requires off < 0 ==> clean ==> chain != []
      modifies this
      ensures lowkey == old(lowkey)
      ensures r == Silent && clean && (off >= 0 ==> target.items[off].down != P_NONE) ==> Reached(target, off, old(downs))
      ensures r == Call(ix, target, off, old(State()), fuel).0
      ensures r == Silent ==> State() == Call(ix, target, off, old(State()), fuel).1
    {
      ghost var good := clean && (off >= 0 ==> Downlink(target, off) != P_NONE);
      var blkno: int := if prevrightlink == INVALID then Downlink(target, off) else prevrightlink;
      var rightsplit := prevrightlink != INVALID && previncomplete;
      var first := true;
      var left := fuel;
      while left > 0
        invariant State() == old(State())
        invariant Call(ix, target, off, State(), fuel) == Walk(ix, target, off, State(), blkno, first, rightsplit, left)
        invariant good ==> Walking(off, blkno, Downlink(target, off), first, rightsplit, old(downs))
      {
        var done;
        r, done, blkno, rightsplit := WalkStep(target, off, blkno, first, rightsplit, left, good);
        if r != Silent || done {
          return;
        }
        first := false;
        left := left - 1;
      }
      return TooLong;
    }
  }
}
