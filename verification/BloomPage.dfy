/**
  Data pages of the bloom access method: the value of a page, the operations on
  it, and the in-place code that implements them.
 */
module BloomPage {
  import opened BloomSignature
  import opened Counting

  const BLCKSZ: nat := 8192
  const PAGE_HEADER: nat := 24
  const OPAQUE: nat := 8
  /** Bytes for tuples between the page header and the special area. */
  const ROOM: nat := BLCKSZ - PAGE_HEADER - OPAQUE

  datatype HeapPtr = HeapPtr(block: nat, offset: nat)
  datatype Tuple = Tuple(heapPtr: HeapPtr, sign: Words)

  /** Size of a tuple with `length` signature words: item pointer plus words. */
  function TupleSize(length: nat): nat { 6 + 2 * length }

  /** A page is new (all zeros), or initialized and possibly flagged deleted. */
  datatype Page = Page(isNew: bool, deleted: bool, tuples: seq<Tuple>, lower: nat)

  const NEW_PAGE := Page(true, false, [], 0)
  const EMPTY_PAGE := Page(false, false, [], PAGE_HEADER)

  predicate Unused(p: Page) { p.isNew || p.deleted }

  function Live(p: Page): seq<Tuple> { if Unused(p) then [] else p.tuples }

  /** Bytes taken by n tuples. */
  function Used(n: nat, size: nat): nat {
    if n == 0 then 0 else Used(n - 1, size) + size
  }

  lemma {:induction false} UsedIsProduct(n: nat, size: nat)
    ensures Used(n, size) == n * size
  {
    if n > 0 {
      UsedIsProduct(n - 1, size);
      assert n * size == (n - 1) * size + size;
    }
  }

  /** BloomPageGetFreeSpace */
  function FreeSpace(size: nat, p: Page): int { ROOM - Used(|p.tuples|, size) }

  predicate Fits(size: nat, p: Page) { FreeSpace(size, p) >= size }

  function Appended(size: nat, p: Page, t: Tuple): Page {
    p.(tuples := p.tuples + [t], lower := PAGE_HEADER + Used(|p.tuples| + 1, size))
  }

  /** What an inserter works on: a reused page is reinitialized first. */
  function Usable(p: Page): Page { if Unused(p) then EMPTY_PAGE else p }

  /** New, or deleted and empty, or live with tuples that fit. */
  predicate ValidPage(size: nat, p: Page) {
    if p.isNew then p == NEW_PAGE
    else
      && p.lower == PAGE_HEADER + Used(|p.tuples|, size) <= BLCKSZ - OPAQUE
      && (p.deleted <==> p.tuples == [])
  }

  lemma {:induction false} AppendKeepsValid(size: nat, p: Page, t: Tuple)
    requires ValidPage(size, p) && Fits(size, Usable(p))
    ensures ValidPage(size, Appended(size, Usable(p), t))
    ensures Live(Appended(size, Usable(p), t)) == Live(p) + [t]
  {
  }

  /** Every permitted signature length leaves room on an empty page. */
  lemma {:induction false} EmptyPageFits(length: nat)
    requires length <= MAX_WORDS
    ensures Fits(TupleSize(length), EMPTY_PAGE)
  {
  }

  function Keep(ts: seq<Tuple>, dead: set<HeapPtr>): seq<Tuple> {
    if ts == [] then []
    else
      var r := Keep(ts[..|ts| - 1], dead);
      var t := ts[|ts| - 1];
      if t.heapPtr in dead then r else r + [t]
  }

  /** The tuples bulk delete removes. */
  function Dropped(ts: seq<Tuple>, dead: set<HeapPtr>): seq<Tuple> {
    if ts == [] then []
    else
      var r := Dropped(ts[..|ts| - 1], dead);
      var t := ts[|ts| - 1];
      if t.heapPtr in dead then r + [t] else r
  }

  /** Every occurrence is either kept or dropped, according to its heap pointer. */
  lemma {:induction false} KeepCounts(ts: seq<Tuple>, dead: set<HeapPtr>, t: Tuple)
    ensures Occurs(Keep(ts, dead), |Keep(ts, dead)|, t) == if t.heapPtr in dead then 0 else Occurs(ts, |ts|, t)
    ensures Occurs(Dropped(ts, dead), |Dropped(ts, dead)|, t) == if t.heapPtr in dead then Occurs(ts, |ts|, t) else 0
  {
    if ts != [] {
      var n := |ts| - 1;
      KeepCounts(ts[..n], dead, t);
      OccursSame(ts[..n], ts, n, t);
      OccursAppend(Keep(ts[..n], dead), ts[n], t);
      OccursAppend(Dropped(ts[..n], dead), ts[n], t);
    }
  }

  predicate AllDead(ts: seq<Tuple>, dead: set<HeapPtr>) {
    forall i :: 0 <= i < |ts| ==> ts[i].heapPtr in dead
  }

  lemma {:induction false} DroppedDead(ts: seq<Tuple>, dead: set<HeapPtr>)
    ensures AllDead(Dropped(ts, dead), dead)
  {
    if ts != [] { DroppedDead(ts[..|ts| - 1], dead); }
  }

  lemma {:induction false} KeepsLiving(ts: seq<Tuple>, dead: set<HeapPtr>, t: Tuple)
    ensures t in Keep(ts, dead) <==> t in ts && t.heapPtr !in dead
  {
    KeepCounts(ts, dead, t);
    var kept := Keep(ts, dead);
    OccursMember(ts, |ts|, t);
    OccursMember(kept, |kept|, t);
    assert ts[..|ts|] == ts && kept[..|kept|] == kept;
  }

  /** The page bulk delete leaves behind. */
  function Compacted(size: nat, p: Page, dead: set<HeapPtr>): Page {
    if Unused(p) then p
    else
      var k := Keep(p.tuples, dead);
      if |k| == |p.tuples| then p else Page(false, k == [], k, PAGE_HEADER + Used(|k|, size))
  }

  lemma {:induction false} FewerFit(k: nat, n: nat, size: nat)
    requires k <= n
    ensures Used(k, size) <= Used(n, size)
  {
    if k < n { FewerFit(k, n - 1, size); }
  }

  lemma {:induction false} CompactKeepsValid(size: nat, p: Page, dead: set<HeapPtr>)
    requires ValidPage(size, p)
    ensures ValidPage(size, Compacted(size, p, dead))
    ensures Live(Compacted(size, p, dead)) == Keep(Live(p), dead)
  {
    if !Unused(p) {
      KeepAllSame(p.tuples, dead);
      FewerFit(|Keep(p.tuples, dead)|, |p.tuples|, size);
    }
  }

  lemma {:induction false} KeepAllSame(ts: seq<Tuple>, dead: set<HeapPtr>)
    ensures |Keep(ts, dead)| <= |ts|
    ensures |Keep(ts, dead)| == |ts| ==> Keep(ts, dead) == ts
  {
    if ts != [] {
      KeepAllSame(ts[..|ts| - 1], dead);
      assert ts == ts[..|ts| - 1] + [ts[|ts| - 1]];
    }
  }

  /** A page in a buffer: flags, item count, pd_lower and the tuple slots. */
  class Buffer {
    const size: nat
    const slots: array<Tuple>
    var isNew: bool
    var deleted: bool
    var maxoff: nat
    var lower: nat

    ghost predicate Valid()
      reads this, slots
    {
      && size > 0
      && slots.Length == ROOM / size
      && maxoff <= slots.Length
      && ValidPage(size, View())
    }

    ghost function View(): Page
      reads this, slots
      requires maxoff <= slots.Length
    {
      Page(isNew, deleted, slots[..maxoff], lower)
    }

    constructor (size: nat, blank: Tuple)
      requires size > 0
      ensures Valid() && fresh(slots) && this.size == size && View() == NEW_PAGE
    {
      this.size := size;
      slots := new Tuple[ROOM / size](_ => blank);
      isNew, deleted, maxoff, lower := true, false, 0, 0;
    }

    /** BloomInitPage on a data page, as callers use it: before adding a tuple. */
    method InitAndAdd(t: Tuple) returns (ok: bool)
      requires Valid()
      modifies this, slots
      ensures Valid()
      ensures ok <==> Fits(size, Usable(old(View())))
      ensures View() == if ok then Appended(size, Usable(old(View())), t) else old(View())
    {
      var n := if isNew || deleted then 0 else maxoff;
      AppendRoom(size, n);
      UsedIsProduct(n, size);
      UsedIsProduct(n + 1, size);
      if ROOM - n * size < size {
        return false;
      }
      if Fits(size, Usable(View())) { AppendKeepsValid(size, View(), t); }
      isNew, deleted, maxoff := false, false, n;
      slots[maxoff] := t;
      maxoff := maxoff + 1;
      lower := PAGE_HEADER + maxoff * size;
      return true;
    }

    /** The page body of blbulkdelete: an emptied page is flagged deleted. */
    method Compact(dead: set<HeapPtr>) returns (removed: nat)
      requires Valid()
      modifies this, slots
      ensures Valid()
      ensures View() == Compacted(size, old(View()), dead)
      ensures removed == |old(Live(View()))| - |Live(View())|
    {
      removed := 0;
      if isNew || deleted {
        return;
      }
      CompactKeepsValid(size, View(), dead);
      var kept;
      kept, removed := Slide(slots, maxoff, dead);
      UsedIsProduct(kept, size);
      maxoff := maxoff - removed;
      if removed != 0 {
        if maxoff == 0 {
          deleted := true;
        }
        lower := PAGE_HEADER + kept * size;
      }
    }
  }

  /** Two pointers run over the tuples and the survivors slide down. */
  method Slide(slots: array<Tuple>, n: nat, dead: set<HeapPtr>) returns (to: nat, removed: nat)
    requires n <= slots.Length
    modifies slots
    ensures to + removed == n
    ensures slots[..to] == Keep(old(slots[..n]), dead)
  {
    ghost var ts := slots[..n];
    removed, to := 0, 0;
    var from := 0;
    while from < n
      invariant to + removed == from <= n
      invariant slots[..to] == Keep(ts[..from], dead)
      invariant forall i :: from <= i < n ==> slots[i] == ts[i]
    {
      assert ts[..from + 1][..from] == ts[..from];
      if slots[from].heapPtr in dead {
        removed := removed + 1;
      } else {
        slots[to] := slots[from];
        to := to + 1;
      }
      from := from + 1;
    }
    assert ts[..from] == ts;
  }

  lemma {:induction false} AppendRoom(size: nat, n: nat)
    requires size > 0
    ensures ROOM - n * size >= size ==> n < ROOM / size
  {
    var q := ROOM / size;
    assert q * size + ROOM % size == ROOM;
    if n >= q { assert (n - q) * size >= 0; assert n * size >= q * size; }
  }
}
