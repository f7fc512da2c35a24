/**
  Checking an out-of-line attribute: its chunks, in the order the index scan
  returns them, against the sequence numbers and sizes its external size calls
  for.
 */
module Toast {
  import opened Machine

  const TOAST_MAX_CHUNK_SIZE: nat := 1996

  /** The data column of a chunk; `Other` is any other varlena header. */
  datatype Data = NoData | Plain(size: nat) | Short(size: nat) | Other

  /** A toast tuple: sequence number, null or not, and data. */
  datatype Chunk = Chunk(isnull: bool, seqno: wrapped, data: Data)

  datatype Report = NullSequence | WrongSequence | NullData | BadHeader | AfterLast | WrongSize | NotFound | EndedEarly

  /** (extsize - 1) / TOAST_MAX_CHUNK_SIZE in unsigned arithmetic. */
  function LastChunk(extsize: uint32): nat {
    ((extsize - 1) % 0x1_0000_0000) / TOAST_MAX_CHUNK_SIZE
  }

  /** The size chunk i should have. */
  function ExpectedSize(i: int, extsize: uint32): wrapped {
    if i < LastChunk(extsize) then TOAST_MAX_CHUNK_SIZE
    else Wrap32(extsize - LastChunk(extsize) * TOAST_MAX_CHUNK_SIZE)
  }

  predicate HasSize(c: Chunk, size: int) {
    (c.data.Plain? && c.data.size == size) || (c.data.Short? && c.data.size == size)
  }

  /** Chunk i of a value is as it should be. */
  predicate GoodChunk(c: Chunk, i: int, extsize: uint32) {
    !c.isnull && c.seqno == i && i <= LastChunk(extsize) && HasSize(c, ExpectedSize(i, extsize))
  }

  /** All chunks, numbered from 0 to the last one in order, each of its planned size. */
  predicate AsPlanned(chunks: seq<Chunk>, extsize: uint32) {
    |chunks| == LastChunk(extsize) + 1 && forall i :: 0 <= i < |chunks| ==> GoodChunk(chunks[i], i, extsize)
  }

  class HeapCheckContext {
    var reports: seq<Report>
    var isCorrupt: bool

    constructor ()
      ensures reports == [] && !isCorrupt
    {
      reports, isCorrupt := [], false;
    }

    method ReportCorruption(what: Report)
      modifies this
      ensures reports == old(reports) + [what] && isCorrupt
    {
      reports, isCorrupt := reports + [what], true;
    }

    /** check_toast_tuple: reports something unless the chunk is the expected one and good. */
    method CheckToastTuple(c: Chunk, expected: wrapped, extsize: uint32) returns (expected': wrapped)
      modifies this
      ensures old(reports) <= reports
      ensures reports == old(reports) <==> GoodChunk(c, expected, extsize)
      ensures reports == old(reports) ==> isCorrupt == old(isCorrupt) && expected' == Wrap32(expected + 1)
    {
      expected' := expected;
      var last := LastChunk(extsize);
      if c.isnull {
        ReportCorruption(NullSequence);
        return;
      }
      if c.seqno != expected {
        ReportCorruption(WrongSequence);
      }
      expected' := Wrap32(c.seqno + 1);
      if c.data.NoData? {
        ReportCorruption(NullData);
        return;
      }
      if c.data.Other? {
        ReportCorruption(BadHeader);
        return;
      }
      if c.seqno > last {
        ReportCorruption(AfterLast);
        return;
      }
      if c.data.size != ExpectedSize(c.seqno, extsize) {
        ReportCorruption(WrongSize);
      }
    }

    /** check_toasted_attribute: silent exactly when the chunks are as planned. */
    method CheckToastedAttribute(chunks: seq<Chunk>, extsize: uint32)
      modifies this
      ensures old(reports) <= reports
      ensures reports == old(reports) <==> AsPlanned(chunks, extsize)
      ensures reports == old(reports) ==> isCorrupt == old(isCorrupt)
    {
      var last := LastChunk(extsize);
      var expected: wrapped := 0;
      var i := 0;
      ghost var was := reports;
      while i < |chunks|
        invariant 0 <= i <= |chunks| && was <= reports
        invariant reports == was <==> i <= last + 1 && forall j :: 0 <= j < i ==> GoodChunk(chunks[j], j, extsize)
        invariant reports == was ==> isCorrupt == old(isCorrupt) && expected == i
      {
        ghost var before := reports;
        expected := CheckToastTuple(chunks[i], expected, extsize);
        GrowsOnce(was, before, reports);
        i := i + 1;
      }
      if |chunks| == 0 {
        ReportCorruption(NotFound);
      } else if expected <= last {
        ReportCorruption(EndedEarly);
      }
    }
  }

  /** Reports only accumulate. */
  lemma {:induction false} GrowsOnce(a: seq<Report>, b: seq<Report>, c: seq<Report>)
    requires a <= b <= c
    ensures a <= c && (c == a <==> b == a && c == b)
  {
  }

  // ---------------------------------------------------------------------- sizes

  function Size(c: Chunk): nat {
    match c.data
    case Plain(size) => size
    case Short(size) => size
    case _ => 0
  }

  /** Bytes in the first n chunks. */
  function Total(chunks: seq<Chunk>, n: nat): nat
    requires n <= |chunks|
  {
    if n == 0 then 0 else Total(chunks, n - 1) + Size(chunks[n - 1])
  }

  /** All chunks but the last are full. */
  lemma {:induction false} FullChunks(chunks: seq<Chunk>, extsize: uint32, n: nat)
    requires AsPlanned(chunks, extsize) && n < |chunks|
    ensures Total(chunks, n) == n * TOAST_MAX_CHUNK_SIZE
  {
    if n > 0 {
      FullChunks(chunks, extsize, n - 1);
      assert GoodChunk(chunks[n - 1], n - 1, extsize);
    }
  }

  /** For a positive external size the planned sizes sum to it, and none is empty or too large. */
  lemma {:induction false} PlannedTotal(chunks: seq<Chunk>, extsize: uint32)
    requires 1 <= extsize < 0x8000_0000 && AsPlanned(chunks, extsize)
    ensures Total(chunks, |chunks|) == extsize
    ensures forall i :: 0 <= i < |chunks| ==> 1 <= Size(chunks[i]) <= TOAST_MAX_CHUNK_SIZE
  {
    var n := |chunks| - 1;
    LastSize(extsize);
    FullChunks(chunks, extsize, n);
    assert GoodChunk(chunks[n], n, extsize);
    forall i | 0 <= i < |chunks|
      ensures 1 <= Size(chunks[i]) <= TOAST_MAX_CHUNK_SIZE
    {
      assert GoodChunk(chunks[i], i, extsize);
    }
  }

  lemma {:induction false} LastSize(extsize: uint32)
    requires 1 <= extsize < 0x8000_0000
    ensures var last := LastChunk(extsize);
      && ExpectedSize(last, extsize) == extsize - last * TOAST_MAX_CHUNK_SIZE
      && 1 <= ExpectedSize(last, extsize) <= TOAST_MAX_CHUNK_SIZE
  {
  }

  /** A chunk stored in order whose size is full, or whatever is left for the last one. */
  predicate InOrder(c: Chunk, i: int, last: bool) {
    !c.isnull && c.seqno == i && (c.data.Plain? || c.data.Short?)
    && (if last then 1 <= Size(c) <= TOAST_MAX_CHUNK_SIZE else Size(c) == TOAST_MAX_CHUNK_SIZE)
  }

  /**
    The converse: chunks numbered in order, all full but the last, whose sizes
    sum to the external size are as planned.
   */
  lemma {:induction false} TotalPlanned(chunks: seq<Chunk>, extsize: uint32)
    requires 1 <= extsize < 0x8000_0000 && chunks != [] && Total(chunks, |chunks|) == extsize
    requires forall i :: 0 <= i < |chunks| ==> InOrder(chunks[i], i, i == |chunks| - 1)
    ensures AsPlanned(chunks, extsize)
  {
    var n := |chunks| - 1;
    InOrderTotal(chunks, n);
    assert InOrder(chunks[n], n, true);
    assert LastChunk(extsize) == n;
    LastSize(extsize);
    forall i | 0 <= i < |chunks|
      ensures GoodChunk(chunks[i], i, extsize)
    {
      assert InOrder(chunks[i], i, i == n);
    }
  }

  lemma {:induction false} InOrderTotal(chunks: seq<Chunk>, n: nat)
    requires n < |chunks| && forall i :: 0 <= i < |chunks| ==> InOrder(chunks[i], i, i == |chunks| - 1)
    ensures Total(chunks, n) == n * TOAST_MAX_CHUNK_SIZE
  {
    if n > 0 {
      InOrderTotal(chunks, n - 1);
      assert InOrder(chunks[n - 1], n - 1, false);
    }
  }

  /** An external size of zero wraps around: only two million chunks would pass. */
  lemma {:induction false} ZeroSize(chunks: seq<Chunk>)
    requires AsPlanned(chunks, 0)
    ensures |chunks| == 2_151_787 + 1
  {
  }
}
