/** Building a bloom index: one cached page is filled and flushed at a time. */
module BloomBuild {
  import opened BloomPage
  import opened BloomIndex
  import opened Counting

  function Concat(ps: seq<Page>): seq<Tuple> {
    if ps == [] then [] else Concat(ps[..|ps| - 1]) + Live(ps[|ps| - 1])
  }

  lemma {:induction false} ConcatAppend(ps: seq<Page>, x: Page)
    ensures Concat(ps + [x]) == Concat(ps) + Live(x)
  {
    assert (ps + [x])[..|ps|] == ps;
  }

  /** BloomBuildState together with the pages flushed so far. */
  class BuildState {
    const size: nat
    var flushed: seq<Page>
    var data: Page
    var count: nat
    var indtuples: nat

    ghost predicate Valid()
      reads this
    {
      && Fits(size, EMPTY_PAGE)
      && (forall i :: 0 <= i < |flushed| ==> ValidPage(size, flushed[i]) && !Unused(flushed[i]) && !Fits(size, flushed[i]))
      && !Unused(data) && count == |data.tuples|
      && (count == 0 ==> data == EMPTY_PAGE)
      && (count > 0 ==> ValidPage(size, data))
      && indtuples == |Tuples()|
    }

    /** All tuples taken so far, in order. */
    ghost function Tuples(): seq<Tuple>
      reads this
    {
      Concat(flushed) + data.tuples
    }

    constructor (size: nat)
      requires Fits(size, EMPTY_PAGE)
      ensures Valid() && Tuples() == [] && this.size == size
    {
      this.size := size;
      flushed, data, count, indtuples := [], EMPTY_PAGE, 0, 0;
    }

    /** flushCachedPage and initCachedPage when the page is full. */
    method Flush()
      requires Valid() && !Fits(size, data)
      modifies this
      ensures Valid() && Tuples() == old(Tuples()) && data == EMPTY_PAGE
    {
      ConcatAppend(flushed, data);
      flushed := flushed + [data];
      data, count := EMPTY_PAGE, 0;
    }

    /** bloomBuildCallback */
    method Add(t: Tuple)
      requires Valid()
      modifies this
      ensures Valid() && Tuples() == old(Tuples()) + [t]
    {
      if !Fits(size, data) {
        Flush();
      }
      AppendKeepsValid(size, if data.tuples == [] then NEW_PAGE else data, t);
      data := Appended(size, data, t);
      count := count + 1;
      indtuples := indtuples + 1;
    }

    /** The end of blbuild: the last page is flushed unless the heap was empty. */
    method Finish()
      requires Valid()
      modifies this
      ensures Concat(flushed) == old(Tuples()) && indtuples == |Concat(flushed)|
      ensures forall i :: 0 <= i < |flushed| ==> ValidPage(size, flushed[i]) && !Unused(flushed[i])
      ensures forall i :: 0 <= i < |flushed| - 1 ==> !Fits(size, flushed[i])
    {
      if count > 0 {
        ConcatAppend(flushed, data);
        flushed := flushed + [data];
      }
    }
  }

  /** blbuild: the pages hold the heap's tuples, in heap order; none is empty, and all but the last are full. */
  method Build(size: nat, heap: seq<Tuple>) returns (pages: seq<Page>)
    requires Fits(size, EMPTY_PAGE)
    ensures Concat(pages) == heap
    ensures forall i :: 0 <= i < |pages| ==> ValidPage(size, pages[i]) && !Unused(pages[i])
    ensures forall i :: 0 <= i < |pages| - 1 ==> !Fits(size, pages[i])
  {
    var b := new BuildState(size);
    for i := 0 to |heap|
      invariant b.Valid() && b.size == size
      invariant b.Tuples() == heap[..i]
    {
      b.Add(heap[i]);
    }
    b.Finish();
    pages := b.flushed;
  }

  lemma {:induction false} ConcatCount(ps: seq<Page>, t: Tuple)
    ensures Occurs(Concat(ps), |Concat(ps)|, t) == Sum(OnPages(ps, t))
  {
    if ps != [] {
      var n := |ps| - 1;
      ConcatCount(ps[..n], t);
      OccursConcat(Concat(ps[..n]), Live(ps[n]), |Live(ps[n])|, t);
      assert OnPages(ps, t)[..n] == OnPages(ps[..n], t);
    }
  }

  /** A freshly built index is a valid start state holding exactly the heap's tuples. */
  lemma {:induction false} BuildIsValid(size: nat, pages: seq<Page>, heap: seq<Tuple>, t: Tuple)
    requires Fits(size, EMPTY_PAGE) && Concat(pages) == heap
    requires forall i :: 0 <= i < |pages| ==> ValidPage(size, pages[i])
    ensures var s := State(size, pages, Meta(0, 0, seq(META_N, i => 0)), Free, []);
            Valid(s) && Count(s, t) == Occurs(heap, |heap|, t)
  {
    ConcatCount(pages, t);
  }
}
