/**
  The packed hstore value: an 8-byte header, two 32-bit entries per pair holding
  end positions and flags, then all keys and values back to back.  `Packed` says
  that a value is the packed form of a list of pairs; the accessors read any
  value the way the HSTORE_* macros do.

  Memory is addressed by the byte.  A 32-bit word covers four addresses and is
  kept whole in the first of them, because the code never looks at single bytes
  of a word; strings occupy one address per byte.
 */
module HstoreLayout {
  import opened Bytes
  import opened Machine

  datatype Value = Null | Text(text: bytes)
  datatype Pair = Pair(key: bytes, val: Value)

  const ISFIRST: nat := 0x8000_0000
  const ISNULL: nat := 0x4000_0000
  const NEWVERSION: nat := 0x8000_0000
  const MAX_ALLOC: nat := 0x3FFF_FFFF

  /** HSTORE_MAX_KEY_LEN and HSTORE_MAX_VALUE_LEN */
  const MAX_LEN: nat := 0x3FFF_FFFF

  type word = uint32

  // ------------------------------------------------------------------- memory

  datatype Cell = Byte(b: byte) | Word(w: word) | More
  type Mem = seq<Cell>

  /** The word at address o is w. */
  predicate IsWord(m: Mem, o: nat, w: word) {
    o + 4 <= |m| && m[o] == Word(w) && m[o + 1] == More && m[o + 2] == More && m[o + 3] == More
  }

  function WordAt(m: Mem, o: nat): word
    requires o + 4 <= |m|
  {
    if m[o].Word? then m[o].w else 0
  }

  /** The bytes at addresses i to j. */
  function TextAt(m: Mem, i: nat, j: nat): (t: bytes)
    requires i <= j <= |m|
    ensures |t| == j - i
  {
    seq(j - i, k requires 0 <= k < j - i => if m[i + k].Byte? then m[i + k].b else 0)
  }

  function Cells(s: bytes): (m: Mem)
    ensures |m| == |s|
  {
    seq(|s|, k requires 0 <= k < |s| => Byte(s[k]))
  }

  /** Reading back bytes that were stored from address base on. */
  lemma {:induction false} TextOfCells(m: Mem, s: bytes, base: nat, i: nat, j: nat)
    requires base <= |m| && m[base..] == Cells(s) && i <= j <= |s|
    ensures base + j <= |m| && TextAt(m, base + i, base + j) == s[i..j]
  {
    var t := TextAt(m, base + i, base + j);
    forall k | 0 <= k < j - i
      ensures t[k] == s[i..j][k]
    {
      assert m[base + i + k] == m[base..][i + k];
    }
  }

  lemma {:induction false} CellsConcat(a: bytes, b: bytes)
    ensures Cells(a + b) == Cells(a) + Cells(b)
  {
  }

  /** Bit 31, bit 30 and the 30 bits below. */
  predicate IsFirst(w: word) { w >= ISFIRST }
  function Rest(w: word): nat { if IsFirst(w) then w - ISFIRST else w }
  predicate IsNull(w: word) { Rest(w) >= ISNULL }
  function EndPos(w: word): nat { if IsNull(w) then Rest(w) - ISNULL else Rest(w) }

  /** The entry word with the given position and flags. */
  function MakeEntry(pos: nat, first: bool, isnull: bool): word
    requires pos < ISNULL
  {
    pos + (if first then ISFIRST else 0) + (if isnull then ISNULL else 0)
  }

  lemma {:induction false} EntryFields(pos: nat, first: bool, isnull: bool)
    requires pos < ISNULL
    ensures var w := MakeEntry(pos, first, isnull);
            EndPos(w) == pos && IsFirst(w) == first && IsNull(w) == isnull
  {
  }

  // -------------------------------------------------------------------- pairs

  function ValBytes(p: Pair): bytes {
    if p.val.Null? then [] else p.val.text
  }

  /** Keys and values of the first n pairs, back to back. */
  function StrsTo(ps: seq<Pair>, n: nat): bytes
    requires n <= |ps|
  {
    if n == 0 then [] else StrsTo(ps, n - 1) + (ps[n - 1].key + ValBytes(ps[n - 1]))
  }

  function Strs(ps: seq<Pair>): bytes { StrsTo(ps, |ps|) }

  lemma {:induction false} StrsSame(a: seq<Pair>, b: seq<Pair>, n: nat)
    requires n <= |a| && n <= |b| && forall i :: 0 <= i < n ==> a[i] == b[i]
    ensures StrsTo(a, n) == StrsTo(b, n)
  {
    if n > 0 { StrsSame(a, b, n - 1); }
  }

  lemma {:induction false} StrsAppend(ps: seq<Pair>, p: Pair)
    ensures Strs(ps + [p]) == Strs(ps) + (p.key + ValBytes(p))
  {
    StrsSame(ps, ps + [p], |ps|);
  }

  /** CALCDATASIZE */
  function DataSize(ps: seq<Pair>): nat { 8 + 8 * |ps| + |Strs(ps)| }

  /** The value can be allocated at all. */
  predicate Fits(ps: seq<Pair>) { DataSize(ps) <= MAX_ALLOC }

  /** Where pair i starts, where its key ends and where its value ends. */
  function PairStart(ps: seq<Pair>, i: nat): nat
    requires i <= |ps|
  {
    |StrsTo(ps, i)|
  }

  function KeyEnd(ps: seq<Pair>, i: nat): nat
    requires i < |ps|
  {
    PairStart(ps, i) + |ps[i].key|
  }

  lemma {:induction false} StrsPrefix(ps: seq<Pair>, i: nat, n: nat)
    requires i <= n <= |ps|
    ensures StrsTo(ps, i) <= StrsTo(ps, n)
  {
    if i < n { StrsPrefix(ps, i, n - 1); }
  }

  lemma {:induction false} PairSize(ps: seq<Pair>, i: nat)
    requires i < |ps|
    ensures PairStart(ps, i + 1) == PairStart(ps, i) + |ps[i].key| + |ValBytes(ps[i])| <= |Strs(ps)|
  {
    StrsPrefix(ps, i + 1, |ps|);
  }

  lemma {:induction false} PairEnds(ps: seq<Pair>, i: nat)
    requires i < |ps|
    ensures KeyEnd(ps, i) + |ValBytes(ps[i])| == PairStart(ps, i + 1) <= |Strs(ps)|
    ensures Strs(ps)[PairStart(ps, i)..KeyEnd(ps, i)] == ps[i].key
    ensures Strs(ps)[KeyEnd(ps, i)..PairStart(ps, i + 1)] == ValBytes(ps[i])
  {
    StrsPrefix(ps, i + 1, |ps|);
    SlicesOfPair(Strs(ps), StrsTo(ps, i), ps[i].key, ValBytes(ps[i]));
  }

  lemma {:induction false} SlicesOfPair(s: bytes, h: bytes, k: bytes, v: bytes)
    requires h + (k + v) <= s
    ensures s[|h|..|h| + |k|] == k && s[|h| + |k|..|h| + |k| + |v|] == v
  {
    var t := h + (k + v);
    assert forall i :: 0 <= i < |t| ==> s[i] == t[i];
  }

  // -------------------------------------------------------------- packed form

  /** Entry word of key i and of value i. */
  function KeyEntry(hs: Mem, i: nat): word
    requires 16 + 8 * i <= |hs|
  {
    WordAt(hs, 8 + 8 * i)
  }

  function ValEntry(hs: Mem, i: nat): word
    requires 16 + 8 * i <= |hs|
  {
    WordAt(hs, 12 + 8 * i)
  }

  /** Entry words of pair i; `flag` says whether the first entry is marked yet. */
  predicate EntriesOf(hs: Mem, ps: seq<Pair>, i: nat, flag: bool)
    requires i < |ps|
  {
    && 16 + 8 * i <= |hs|
    && KeyEnd(ps, i) < ISNULL && PairStart(ps, i + 1) < ISNULL
    && IsWord(hs, 8 + 8 * i, MakeEntry(KeyEnd(ps, i), i == 0 && flag, false))
    && IsWord(hs, 12 + 8 * i, MakeEntry(PairStart(ps, i + 1), false, ps[i].val.Null?))
  }

  predicate Packed(hs: Mem, ps: seq<Pair>) {
    && Fits(ps)
    && |hs| == DataSize(ps)
    && IsWord(hs, 0, DataSize(ps))
    && IsWord(hs, 4, NEWVERSION + |ps|)
    && (forall i :: 0 <= i < |ps| ==> EntriesOf(hs, ps, i, true))
    && hs[8 + 8 * |ps|..] == Cells(Strs(ps))
  }

  /** VARSIZE */
  function VarSize(hs: Mem): word
    requires |hs| >= 8
  {
    WordAt(hs, 0)
  }

  /** HS_COUNT: the low 28 bits of the size word. */
  function Count(hs: Mem): nat
    requires |hs| >= 8
  {
    WordAt(hs, 4) % 0x1000_0000
  }

  function KeyOff(hs: Mem, i: nat): nat
    requires 16 + 8 * i <= |hs|
  {
    if IsFirst(KeyEntry(hs, i)) || i == 0 then 0 else EndPos(ValEntry(hs, i - 1))
  }

  /** All addresses the macros touch for pair i lie inside the value. */
  predicate Readable(hs: Mem, i: nat) {
    && 16 + 8 * i <= |hs|
    && !IsFirst(ValEntry(hs, i))
    && KeyOff(hs, i) <= EndPos(KeyEntry(hs, i)) <= EndPos(ValEntry(hs, i))
    && 8 + 8 * Count(hs) + EndPos(ValEntry(hs, i)) <= |hs|
  }

  /** HSTORE_KEY with HSTORE_KEYLEN */
  function Key(hs: Mem, i: nat): bytes
    requires Readable(hs, i)
  {
    var base := 8 + 8 * Count(hs);
    TextAt(hs, base + KeyOff(hs, i), base + EndPos(KeyEntry(hs, i)))
  }

  predicate ValIsNull(hs: Mem, i: nat)
    requires Readable(hs, i)
  {
    IsNull(ValEntry(hs, i))
  }

  /** HSTORE_VAL with HSTORE_VALLEN */
  function Val(hs: Mem, i: nat): bytes
    requires Readable(hs, i)
  {
    var base := 8 + 8 * Count(hs);
    TextAt(hs, base + EndPos(KeyEntry(hs, i)), base + EndPos(ValEntry(hs, i)))
  }

  function PairAt(hs: Mem, i: nat): Pair
    requires Readable(hs, i)
  {
    Pair(Key(hs, i), if ValIsNull(hs, i) then Null else Text(Val(hs, i)))
  }

  /** The positions and flags read for pair i. */
  predicate HasFields(hs: Mem, i: nat, o: nat, k: nat, v: nat, isnull: bool) {
    && 16 + 8 * i <= |hs|
    && KeyOff(hs, i) == o && EndPos(KeyEntry(hs, i)) == k && EndPos(ValEntry(hs, i)) == v
    && !IsFirst(ValEntry(hs, i)) && IsNull(ValEntry(hs, i)) == isnull
  }

  lemma {:induction false} PackedFields(hs: Mem, ps: seq<Pair>, i: nat)
    requires Packed(hs, ps) && i < |ps|
    ensures HasFields(hs, i, PairStart(ps, i), KeyEnd(ps, i), PairStart(ps, i + 1), ps[i].val.Null?)
  {
    assert EntriesOf(hs, ps, i, true);
    EntryFields(KeyEnd(ps, i), i == 0, false);
    EntryFields(PairStart(ps, i + 1), false, ps[i].val.Null?);
    if i > 0 {
      assert EntriesOf(hs, ps, i - 1, true);
      EntryFields(PairStart(ps, i), false, ps[i - 1].val.Null?);
    }
  }

  /** The accessors on a string area s, given the fields of the entries. */
  lemma {:induction false} FieldsRead(hs: Mem, s: bytes, n: nat, i: nat, o: nat, k: nat, v: nat, p: Pair)
    requires |hs| >= 8 && Count(hs) == n && 8 + 8 * n <= |hs| && hs[8 + 8 * n..] == Cells(s)
    requires HasFields(hs, i, o, k, v, p.val.Null?)
    requires o <= k <= v <= |s| && s[o..k] == p.key && s[k..v] == ValBytes(p)
    ensures Readable(hs, i) && Key(hs, i) == p.key && Val(hs, i) == ValBytes(p) && PairAt(hs, i) == p
  {
    TextOfCells(hs, s, 8 + 8 * n, o, k);
    TextOfCells(hs, s, 8 + 8 * n, k, v);
  }

  /** Reading pair i of a packed value gives pair i. */
  lemma {:induction false} PackedReads(hs: Mem, ps: seq<Pair>, i: nat)
    requires Packed(hs, ps) && i < |ps|
    ensures Count(hs) == |ps|
    ensures Readable(hs, i) && Key(hs, i) == ps[i].key && Val(hs, i) == ValBytes(ps[i])
    ensures PairAt(hs, i) == ps[i]
  {
    PackedCount(hs, ps);
    PackedFields(hs, ps, i);
    PairEnds(ps, i);
    FieldsRead(hs, Strs(ps), |ps|, i, PairStart(ps, i), KeyEnd(ps, i), PairStart(ps, i + 1), ps[i]);
  }

  lemma {:induction false} PackedCount(hs: Mem, ps: seq<Pair>)
    requires Packed(hs, ps)
    ensures Count(hs) == |ps| && VarSize(hs) == |hs|
  {
  }

  /** The packed form determines the pairs. */
  lemma {:induction false} PackedPairsUnique(hs: Mem, a: seq<Pair>, b: seq<Pair>)
    requires Packed(hs, a) && Packed(hs, b)
    ensures a == b
  {
    PackedCount(hs, a);
    PackedCount(hs, b);
    forall i | 0 <= i < |a|
      ensures a[i] == b[i]
    {
      PackedReads(hs, a, i);
      PackedReads(hs, b, i);
    }
  }

  /** The pairs determine the packed form, address by address. */
  lemma {:induction false} PackedMemUnique(a: Mem, b: Mem, ps: seq<Pair>)
    requires Packed(a, ps) && Packed(b, ps)
    ensures a == b
  {
    var base := 8 + 8 * |ps|;
    forall j | 0 <= j < |a|
      ensures a[j] == b[j]
    {
      if j >= base {
        assert a[j] == a[base..][j - base] && b[j] == b[base..][j - base];
      } else if j >= 8 {
        EntryMemUnique(a, b, ps, (j - 8) / 8, j);
      }
    }
  }

  lemma {:induction false} EntryMemUnique(a: Mem, b: Mem, ps: seq<Pair>, i: nat, j: nat)
    requires i < |ps| && EntriesOf(a, ps, i, true) && EntriesOf(b, ps, i, true)
    requires 8 + 8 * i <= j < 16 + 8 * i
    ensures a[j] == b[j]
  {
  }
}
