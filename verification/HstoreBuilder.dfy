/**
  Writing packed hstore values in place: HS_COPYITEM, HS_ADDITEM and
  HS_FINALIZE on one byte buffer that was laid out for a provisional number of
  pairs.  Finalizing slides the string area down when fewer pairs were written.
 */
module HstoreBuilder {
  import opened Bytes
  import opened HstoreLayout

  method PutWord(mem: array<Cell>, o: nat, w: word)
    requires o + 4 <= mem.Length
    modifies mem
    ensures IsWord(mem[..], o, w)
    ensures forall i :: 0 <= i < mem.Length && !(o <= i < o + 4) ==> mem[i] == old(mem[i])
  {
    mem[o], mem[o + 1], mem[o + 2], mem[o + 3] := Word(w), More, More, More;
  }

  lemma {:induction false} EntriesKept(a: Mem, b: Mem, ps: seq<Pair>, i: nat, flag: bool)
    requires i < |ps| && EntriesOf(a, ps, i, flag) && 16 + 8 * i <= |b|
    requires forall j :: 8 + 8 * i <= j < 16 + 8 * i ==> a[j] == b[j]
    ensures EntriesOf(b, ps, i, flag)
  {
  }

  lemma {:induction false} EntriesAppend(m: Mem, ps: seq<Pair>, p: Pair, i: nat, flag: bool)
    requires i < |ps| && EntriesOf(m, ps, i, flag)
    ensures EntriesOf(m, ps + [p], i, flag)
  {
    StrsSame(ps, ps + [p], i);
    StrsSame(ps, ps + [p], i + 1);
  }

  predicate AllEntries(m: Mem, ps: seq<Pair>, flag: bool) {
    forall i :: 0 <= i < |ps| ==> EntriesOf(m, ps, i, flag)
  }

  lemma {:induction false} AllEntriesKept(a: Mem, b: Mem, ps: seq<Pair>, flag: bool)
    requires AllEntries(a, ps, flag)
    requires 8 + 8 * |ps| <= |a| && 8 + 8 * |ps| <= |b|
    requires forall j :: 8 <= j < 8 + 8 * |ps| ==> a[j] == b[j]
    ensures AllEntries(b, ps, flag)
  {
    forall i | 0 <= i < |ps|
      ensures EntriesOf(b, ps, i, flag)
    {
      EntriesKept(a, b, ps, i, flag);
    }
  }

  lemma {:induction false} AppendEnds(ps: seq<Pair>, p: Pair)
    ensures Strs(ps + [p]) == Strs(ps) + (p.key + ValBytes(p))
    ensures KeyEnd(ps + [p], |ps|) == |Strs(ps)| + |p.key|
    ensures PairStart(ps + [p], |ps| + 1) == |Strs(ps + [p])|
  {
    StrsSame(ps, ps + [p], |ps|);
  }

  /** The two words written for p extend the entries by one pair. */
  lemma {:induction false} AllEntriesAppend(a: Mem, b: Mem, ps: seq<Pair>, p: Pair)
    requires Fits(ps + [p]) && AllEntries(a, ps, false)
    requires 16 + 8 * |ps| <= |a| == |b| && forall j :: 8 <= j < 8 + 8 * |ps| ==> a[j] == b[j]
    requires |Strs(ps)| + |p.key| <= |Strs(ps + [p])|
    requires IsWord(b, 8 + 8 * |ps|, MakeEntry(|Strs(ps)| + |p.key|, false, false))
    requires IsWord(b, 12 + 8 * |ps|, MakeEntry(|Strs(ps + [p])|, false, p.val.Null?))
    ensures AllEntries(b, ps + [p], false)
  {
    NewEntries(b, ps, p);
    AllEntriesKept(a, b, ps, false);
    forall i | 0 <= i < |ps|
      ensures EntriesOf(b, ps + [p], i, false)
    {
      EntriesAppend(b, ps, p, i, false);
    }
  }

  lemma {:induction false} NewEntries(b: Mem, ps: seq<Pair>, p: Pair)
    requires Fits(ps + [p]) && 16 + 8 * |ps| <= |b|
    requires |Strs(ps)| + |p.key| <= |Strs(ps + [p])|
    requires IsWord(b, 8 + 8 * |ps|, MakeEntry(|Strs(ps)| + |p.key|, false, false))
    requires IsWord(b, 12 + 8 * |ps|, MakeEntry(|Strs(ps + [p])|, false, p.val.Null?))
    ensures EntriesOf(b, ps + [p], |ps|, false)
  {
    AppendEnds(ps, p);
  }

  method PutEntries(mem: array<Cell>, i: nat, k: word, v: word)
    requires 16 + 8 * i <= mem.Length
    modifies mem
    ensures IsWord(mem[..], 8 + 8 * i, k) && IsWord(mem[..], 12 + 8 * i, v)
    ensures forall j :: 0 <= j < mem.Length && !(8 + 8 * i <= j < 16 + 8 * i) ==> mem[j] == old(mem[j])
  {
    PutWord(mem, 8 + 8 * i, k);
    ghost var m := mem[..];
    PutWord(mem, 12 + 8 * i, v);
  }

  /** Setting the mark in entry 0 turns unmarked entries into marked ones. */
  lemma {:induction false} AllEntriesMarked(a: Mem, b: Mem, ps: seq<Pair>)
    requires ps != [] && AllEntries(a, ps, false)
    requires 8 + 8 * |ps| <= |a| == |b| && KeyEnd(ps, 0) < ISNULL
    requires forall j :: 12 <= j < |a| ==> a[j] == b[j]
    requires IsWord(b, 8, MakeEntry(KeyEnd(ps, 0), true, false))
    ensures AllEntries(b, ps, true)
  {
    forall i | 0 <= i < |ps|
      ensures EntriesOf(b, ps, i, true)
    {
      assert EntriesOf(a, ps, i, false);
    }
  }

  /** What writing the entries of a new pair does to the buffer. */
  lemma {:induction false} ItemPut(a: Mem, b: Mem, ps: seq<Pair>, p: Pair, cap: nat, end: nat, w: word)
    requires |ps| < cap && 8 + 8 * cap <= end <= |a| == |b| && IsWord(a, 4, w) && AllEntries(a, ps, false)
    requires forall j :: 0 <= j < |a| && !(8 + 8 * |ps| <= j < 16 + 8 * |ps|) ==> a[j] == b[j]
    requires Fits(ps + [p]) && |Strs(ps)| + |p.key| <= |Strs(ps + [p])|
    requires IsWord(b, 8 + 8 * |ps|, MakeEntry(|Strs(ps)| + |p.key|, false, false))
    requires IsWord(b, 12 + 8 * |ps|, MakeEntry(|Strs(ps + [p])|, false, p.val.Null?))
    ensures IsWord(b, 4, w) && AllEntries(b, ps + [p], false) && b[8 + 8 * cap..end] == a[8 + 8 * cap..end]
  {
    AllEntriesAppend(a, b, ps, p);
  }

  /** What setting the mark does to the buffer. */
  lemma {:induction false} MarkPut(a: Mem, b: Mem, ps: seq<Pair>, cap: nat, end: nat, w: word)
    requires 0 < |ps| <= cap && 8 + 8 * cap <= end <= |a| == |b| && IsWord(a, 4, w) && AllEntries(a, ps, false)
    requires forall j :: 0 <= j < |a| && !(8 <= j < 12) ==> a[j] == b[j]
    requires KeyEnd(ps, 0) < ISNULL && IsWord(b, 8, MakeEntry(KeyEnd(ps, 0), true, false))
    ensures IsWord(b, 4, w) && AllEntries(b, ps, true) && b[8 + 8 * cap..end] == a[8 + 8 * cap..end]
  {
    AllEntriesMarked(a, b, ps);
  }

  lemma {:induction false} FirstEntry(m: Mem, ps: seq<Pair>)
    requires ps != [] && AllEntries(m, ps, false)
    ensures KeyEnd(ps, 0) < ISNULL && IsWord(m, 8, MakeEntry(KeyEnd(ps, 0), false, false))
  {
    assert EntriesOf(m, ps, 0, false);
  }

  /** Sets the mark in the first entry. */
  method SetFirst(mem: array<Cell>, ghost pos: nat)
    requires 12 <= mem.Length && pos < ISNULL && IsWord(mem[..], 8, MakeEntry(pos, false, false))
    modifies mem
    ensures IsWord(mem[..], 8, MakeEntry(pos, true, false))
    ensures forall j :: 0 <= j < mem.Length && !(8 <= j < 12) ==> mem[j] == old(mem[j])
  {
    var w := WordAt(mem[..], 8);
    PutWord(mem, 8, if IsFirst(w) then w else w + ISFIRST);
  }

  lemma {:induction false} FinishPacked(m: Mem, out: Mem, ps: seq<Pair>)
    requires Fits(ps) && DataSize(ps) <= |m| && out == m[..DataSize(ps)]
    requires IsWord(m, 0, DataSize(ps)) && IsWord(m, 4, NEWVERSION + |ps|)
    requires AllEntries(m, ps, true)
    requires m[8 + 8 * |ps|..DataSize(ps)] == Cells(Strs(ps))
    ensures Packed(out, ps)
  {
    AllEntriesKept(m, out, ps, true);
    assert out[8 + 8 * |ps|..] == m[8 + 8 * |ps|..DataSize(ps)];
  }

  class Builder {
    const mem: array<Cell>
    const cap: nat
    var n: nat
    var pos: nat
    ghost var items: seq<Pair>

    function Base(): nat { 8 + 8 * cap }

    ghost predicate Valid()
      reads this, mem
    {
      && mem.Length <= MAX_ALLOC
      && n == |items| <= cap
      && pos == |Strs(items)|
      && Base() + pos <= mem.Length
      && IsWord(mem[..], 4, NEWVERSION + cap)
      && AllEntries(mem[..], items, false)
      && mem[Base()..Base() + pos] == Cells(Strs(items))
    }

    /** A fresh buffer of `alloc` bytes, provisionally laid out for `cap` pairs. */
    constructor (alloc: nat, cap: nat)
      requires 8 + 8 * cap <= alloc <= MAX_ALLOC
      ensures Valid() && items == [] && mem.Length == alloc && this.cap == cap && fresh(mem)
    {
      mem := new Cell[alloc](_ => More);
      this.cap := cap;
      n, pos, items := 0, 0, [];
      new;
      PutWord(mem, 4, NEWVERSION + cap);
    }

    /** Appends the bytes of one pair to the string area. */
    method CopyBytes(src: bytes)
      requires Valid() && Base() + pos + |src| <= mem.Length
      modifies mem
      ensures Valid()
      ensures mem[Base()..Base() + pos + |src|] == Cells(Strs(items) + src)
    {
      ghost var m := mem[..];
      Copy(mem, Base() + pos, src);
      AllEntriesKept(m, mem[..], items, false);
      JoinSlices(mem[..], m, Base(), Base() + pos, src, Strs(items));
    }

    /** HS_COPYITEM: the contiguous bytes of pair p and its two entries. */
    method CopyItem(src: bytes, klen: nat, isnull: bool, ghost p: Pair)
      requires Valid() && n < cap && Base() + pos + |src| <= mem.Length
      requires src == p.key + ValBytes(p) && klen == |p.key| && isnull == p.val.Null?
      modifies this, mem
      ensures Valid()
      ensures items == old(items) + [p] && n == old(n) + 1 && pos == old(pos) + |src|
    {
      AppendEnds(items, p);
      CopyBytes(src);
      PutItem(|src|, klen, isnull, p);
    }

    /** HS_ADDITEM: key and value come from separate strings. */
    method AddItem(p: Pair)
      requires Valid() && n < cap && Base() + pos + |p.key| + |ValBytes(p)| <= mem.Length
      modifies this, mem
      ensures Valid()
      ensures items == old(items) + [p] && n == old(n) + 1 && pos == old(pos) + |p.key| + |ValBytes(p)|
    {
      CopyItem(p.key + ValBytes(p), |p.key|, p.val.Null?, p);
    }

    method PutItem(len: nat, klen: nat, isnull: bool, ghost p: Pair)
      requires Valid() && n < cap && Base() + pos + len <= mem.Length
      requires mem[Base()..Base() + pos + len] == Cells(Strs(items + [p]))
      requires klen == |p.key| && len == klen + |ValBytes(p)| && isnull == p.val.Null?
      modifies this, mem
      ensures Valid()
      ensures items == old(items) + [p] && n == old(n) + 1 && pos == old(pos) + len
    {
      ghost var m := mem[..];
      AppendEnds(items, p);
      pos := pos + len;
      PutEntries(mem, n, MakeEntry(pos - (len - klen), false, false), MakeEntry(pos, false, isnull));
      ItemPut(m, mem[..], items, p, cap, Base() + pos, NEWVERSION + cap);
      items := items + [p];
      n := n + 1;
    }

    /**
      HS_FINALIZE: marks the first entry, records the real count, slides the
      strings next to the entries and sets the exact size.
     */
    method Finalize() returns (out: Mem)
      requires Valid()
      modifies this, mem
      ensures Packed(out, items) && items == old(items)
    {
      Mark();
      Shrink();
      ghost var m := mem[..];
      var size := 8 + 8 * n + pos;
      PutWord(mem, 0, size);
      AllEntriesKept(m, mem[..], items, true);
      assert mem[8 + 8 * n..size] == m[8 + 8 * n..size];
      out := mem[..size];
      FinishPacked(mem[..], out, items);
    }

    method Mark()
      requires Valid()
      modifies mem
      ensures AllEntries(mem[..], items, true) && IsWord(mem[..], 4, NEWVERSION + cap)
      ensures mem[Base()..Base() + pos] == Cells(Strs(items))
    {
      if n > 0 {
        MarkFirst();
      }
    }

    method MarkFirst()
      requires Valid() && n > 0
      modifies mem
      ensures AllEntries(mem[..], items, true) && IsWord(mem[..], 4, NEWVERSION + cap)
      ensures mem[Base()..Base() + pos] == Cells(Strs(items))
    {
      ghost var m, end := mem[..], Base() + pos;
      FirstEntry(m, items);
      SetFirst(mem, KeyEnd(items, 0));
      MarkPut(m, mem[..], items, cap, end, NEWVERSION + cap);
      assert m[Base()..end] == Cells(Strs(items));
    }

    method Shrink()
      requires n == |items| <= cap && pos == |Strs(items)| && Base() + pos <= mem.Length <= MAX_ALLOC
      requires AllEntries(mem[..], items, true) && IsWord(mem[..], 4, NEWVERSION + cap)
      requires mem[Base()..Base() + pos] == Cells(Strs(items))
      modifies mem
      ensures AllEntries(mem[..], items, true) && IsWord(mem[..], 4, NEWVERSION + n)
      ensures mem[8 + 8 * n..8 + 8 * n + pos] == Cells(Strs(items))
    {
      if n != cap {
        ghost var m := mem[..];
        MoveDown(mem, Base(), 8 + 8 * n, pos);
        AllEntriesKept(m, mem[..], items, true);
        ghost var m1 := mem[..];
        PutWord(mem, 4, NEWVERSION + n);
        AllEntriesKept(m1, mem[..], items, true);
        assert mem[8 + 8 * n..8 + 8 * n + pos] == m1[8 + 8 * n..8 + 8 * n + pos];
      }
    }
  }

  lemma {:induction false} JoinSlices(m: Mem, was: Mem, base: nat, at: nat, src: bytes, s: bytes)
    requires base <= at <= at + |src| <= |m| == |was|
    requires was[base..at] == Cells(s) && m[at..at + |src|] == Cells(src)
    requires forall j :: base <= j < at ==> m[j] == was[j]
    ensures m[base..at] == Cells(s) && m[base..at + |src|] == Cells(s + src)
  {
    CellsConcat(s, src);
    assert m[base..at] == was[base..at];
    assert m[base..at + |src|] == m[base..at] + m[at..at + |src|];
  }

  /** memcpy into the buffer. */
  method Copy(mem: array<Cell>, at: nat, src: bytes)
    requires at + |src| <= mem.Length
    modifies mem
    ensures mem[at..at + |src|] == Cells(src)
    ensures forall j :: 0 <= j < at ==> mem[j] == old(mem[j])
  {
    forall i | 0 <= i < |src| {
      mem[at + i] := Byte(src[i]);
    }
  }

  /** memmove toward lower addresses. */
  method MoveDown(mem: array<Cell>, from: nat, to: nat, len: nat)
    requires to <= from && from + len <= mem.Length
    modifies mem
    ensures mem[to..to + len] == old(mem[from..from + len])
    ensures forall j :: 0 <= j < to ==> mem[j] == old(mem[j])
  {
    forall i | 0 <= i < len {
      mem[to + i] := mem[from + i];
    }
  }
}
