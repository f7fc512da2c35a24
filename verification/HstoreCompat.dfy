/**
  Reading values of the old hstore format.  Old and new entries overlay the same
  two words per pair; the upgrade validates the old reading and then overwrites
  the entries in place.  The old fields are laid out as on little-endian
  machines: key length in the low and value length in the high half of the first
  word, null flag in bit 0 of the second word and position above it.
 */
module HstoreCompat {
  import opened Bytes
  import opened HstoreLayout
  import opened HstoreBuilder
  import opened Machine

  const MAX_COUNT: nat := 0xFFF_FFFF

  datatype OldEntry = OldEntry(keylen: nat, vallen: nat, isnull: bool, pos: nat)

  function Decode(w0: word, w1: word): (e: OldEntry)
    ensures e.keylen < 0x1_0000 && e.vallen < 0x1_0000 && e.pos < 0x8000_0000
  {
    OldEntry(w0 % 0x1_0000, w0 / 0x1_0000, w1 % 2 == 1, w1 / 2)
  }

  function OldAt(hs: Mem, i: nat): OldEntry
    requires 16 + 8 * i <= |hs|
  {
    Decode(WordAt(hs, 8 + 8 * i), WordAt(hs, 12 + 8 * i))
  }

  /** The first n entries as the old format reads them. */
  function OldEntries(hs: Mem, n: nat): (es: seq<OldEntry>)
    requires 8 + 8 * n <= |hs|
    ensures |es| == n
  {
    if n == 0 then [] else OldEntries(hs, n - 1) + [OldAt(hs, n - 1)]
  }

  lemma {:induction false} OldEntriesAre(hs: Mem, n: nat, i: nat)
    requires 8 + 8 * n <= |hs| && i < n
    ensures OldEntries(hs, n)[i] == OldAt(hs, i)
  {
    if i < n - 1 { OldEntriesAre(hs, n - 1, i); }
  }

  /** es are the entries of hs, one at a time. */
  predicate Decodes(hs: Mem, es: seq<OldEntry>) {
    8 + 8 * |es| <= |hs| && forall i :: 0 <= i < |es| ==> DecodedAt(hs, es, i)
  }

  predicate DecodedAt(hs: Mem, es: seq<OldEntry>, i: nat)
    requires i < |es| && 8 + 8 * |es| <= |hs|
  {
    es[i] == OldAt(hs, i)
  }

  /** Bytes of the pair: the length of a null value does not count. */
  function Used(e: OldEntry): nat { e.keylen + if e.isnull then 0 else e.vallen }

  /** Bytes used by the first i pairs. */
  function End(es: seq<OldEntry>, i: nat): nat
    requires i <= |es|
  {
    if i == 0 then 0 else End(es, i - 1) + Used(es[i - 1])
  }

  predicate GrowsAt(es: seq<OldEntry>, i: nat)
    requires 1 <= i < |es|
  {
    es[i - 1].keylen <= es[i].keylen
  }

  /** Key lengths do not decrease. */
  predicate Growing(es: seq<OldEntry>, n: nat)
    requires n <= |es|
  {
    forall i :: 1 <= i < n ==> GrowsAt(es, i)
  }

  predicate PosAt(es: seq<OldEntry>, i: nat)
    requires i < |es|
  {
    es[i].pos == End(es, i)
  }

  /** Each pair starts where the one before it ends. */
  predicate Contiguous(es: seq<OldEntry>, n: nat)
    requires n <= |es|
  {
    forall i :: 0 <= i < n ==> PosAt(es, i)
  }

  /** A value as detoasting returns it: exact memory, bytes after the entries. */
  predicate Stored(hs: Mem) {
    && 8 <= |hs| <= MAX_ALLOC
    && IsWord(hs, 0, |hs|)
    && IsWord(hs, 4, WordAt(hs, 4))
    && forall j :: 8 + 8 * Count(hs) <= j < |hs| ==> hs[j].Byte?
  }

  /** The size word as the old format reads it. */
  function OldCount(hs: Mem): nat
    requires |hs| >= 8
  {
    WordAt(hs, 4)
  }

  /** What the old format demands of the entries of a value of the given size. */
  predicate EntriesValid(es: seq<OldEntry>, size: nat) {
    Growing(es, |es|) && Contiguous(es, |es|) && 8 + 8 * |es| + End(es, |es|) <= size
  }

  predicate OldValid(hs: Mem)
    requires |hs| >= 8
  {
    var n := OldCount(hs);
    n <= MAX_COUNT && 8 + 8 * n <= |hs| && EntriesValid(OldEntries(hs, n), |hs|)
  }

  // ---------------------------------------------------------------- validation

  function Unsigned32(x: int): int
    requires -0x8000_0000 <= x < 0x1_0000_0000
  {
    if x < 0 then x + 0x1_0000_0000 else x
  }

  lemma {:induction false} EndMono(es: seq<OldEntry>, i: nat, n: nat)
    requires i <= n <= |es|
    ensures End(es, i) <= End(es, n)
  {
    if i < n { EndMono(es, i, n - 1); }
  }

  method KeysGrow(hs: Mem, count: nat, ghost es: seq<OldEntry>) returns (ok: bool)
    requires count == |es| && Decodes(hs, es)
    ensures ok <==> Growing(es, count)
  {
    var i := 1;
    while i < count
      invariant 1 <= i && (i <= count || count == 0) && (count > 0 ==> Growing(es, i))
    {
      var e := ReadOld(hs, i, es);
      var d := ReadOld(hs, i - 1, es);
      if e.keylen < d.keylen {
        assert !GrowsAt(es, i);
        return false;
      }
      i := i + 1;
    }
    return true;
  }

  method ReadOld(hs: Mem, i: nat, ghost es: seq<OldEntry>) returns (e: OldEntry)
    requires i < |es| && Decodes(hs, es)
    ensures e == es[i] && e.keylen < 0x1_0000 && e.vallen < 0x1_0000 && e.pos < 0x8000_0000
  {
    assert DecodedAt(hs, es, i);
    e := OldAt(hs, i);
  }

  /** The position loop; lastpos is a 32-bit int and may wrap on the last pair. */
  method Positions(hs: Mem, count: nat, ghost es: seq<OldEntry>) returns (ok: bool, lastpos: int)
    requires count == |es| && |hs| <= MAX_ALLOC && Decodes(hs, es)
    ensures ok ==> Contiguous(es, count) && End(es, count) < 0x8002_0000 && lastpos == Wrap32(End(es, count))
    ensures !ok ==> !Contiguous(es, count)
  {
    lastpos := 0;
    var i := 0;
    while i < count
      invariant 0 <= i <= count && Contiguous(es, i)
      invariant End(es, i) < 0x8002_0000 && lastpos == Wrap32(End(es, i))
    {
      var e := ReadOld(hs, i, es);
      if e.pos != lastpos {
        assert !PosAt(es, i);
        return false, 0;
      }
      assert End(es, i + 1) == e.pos + Used(e);
      lastpos := Wrap32(e.pos + Used(e));
      i := i + 1;
    }
    return true, lastpos;
  }

  /** Bytes the pairs of a valid old value need. */
  function OldSize(es: seq<OldEntry>): nat { 8 + 8 * |es| + End(es, |es|) }

  /** hstoreValidOldFormat: 0 invalid, 1 valid with slack at the end, 2 exact. */
  method ValidOld(hs: Mem) returns (r: nat)
    requires Stored(hs)
    ensures r > 0 <==> OldValid(hs)
    ensures r > 0 && OldCount(hs) > 0 ==> r == if OldSize(OldEntries(hs, OldCount(hs))) == |hs| then 2 else 1
    ensures OldCount(hs) == 0 ==> r == 2
  {
    var count := WordAt(hs, 4);
    if count >= NEWVERSION {
      return 0;
    }
    if count == 0 {
      return 2;
    }
    if count > MAX_COUNT {
      return 0;
    }
    if 8 + 8 * count > VarSize(hs) {
      return 0;
    }
    ghost var es := OldEntries(hs, count);
    EntriesDecoded(hs, count);
    var first := ReadOld(hs, 0, es);
    if first.pos != 0 {
      assert !PosAt(es, 0);
      return 0;
    }
    var grow := KeysGrow(hs, count, es);
    if !grow {
      return 0;
    }
    var ok, lastpos := Positions(hs, count, es);
    if !ok {
      return 0;
    }
    var vsize := Unsigned32(8 + 8 * count + lastpos);
    if vsize > VarSize(hs) {
      return 0;
    }
    return if vsize != VarSize(hs) then 1 else 2;
  }

  // -------------------------------------------------------------- old contents

  /** Bytes i to j, or nothing when they lie outside. */
  function Slice(hs: Mem, i: nat, j: nat): bytes {
    if i <= j <= |hs| then TextAt(hs, i, j) else []
  }

  /** The pair of entry e over the string area at base. */
  function OldPair(hs: Mem, base: nat, e: OldEntry): Pair {
    Pair(Slice(hs, base + e.pos, base + e.pos + e.keylen),
         if e.isnull then Null else Text(Slice(hs, base + e.pos + e.keylen, base + e.pos + e.keylen + e.vallen)))
  }

  function PairsFrom(hs: Mem, es: seq<OldEntry>): (ps: seq<Pair>)
    ensures |ps| == |es|
  {
    seq(|es|, i requires 0 <= i < |es| => OldPair(hs, 8 + 8 * |es|, es[i]))
  }

  /** The pairs of an old value. */
  function OldPairs(hs: Mem): seq<Pair>
    requires |hs| >= 8 && OldValid(hs)
  {
    PairsFrom(hs, OldEntries(hs, OldCount(hs)))
  }

  lemma {:induction false} TextJoin(m: Mem, i: nat, j: nat, k: nat)
    requires i <= j <= k <= |m|
    ensures TextAt(m, i, j) + TextAt(m, j, k) == TextAt(m, i, k)
  {
  }

  lemma {:induction false} CellsOfText(m: Mem, i: nat, j: nat)
    requires i <= j <= |m| && forall k :: i <= k < j ==> m[k].Byte?
    ensures Cells(TextAt(m, i, j)) == m[i..j]
  {
  }

  lemma {:induction false} OldPairBytes(hs: Mem, base: nat, e: OldEntry)
    requires base + e.pos + Used(e) <= |hs|
    ensures var p := OldPair(hs, base, e);
      && p.key + ValBytes(p) == TextAt(hs, base + e.pos, base + e.pos + Used(e))
      && |p.key| == e.keylen && p.val.Null? == e.isnull
  {
    TextJoin(hs, base + e.pos, base + e.pos + e.keylen, base + e.pos + Used(e));
  }

  lemma {:induction false} StrsStep(hs: Mem, ps: seq<Pair>, i: nat, a: nat, b: nat, c: nat)
    requires i < |ps| && a <= b <= c <= |hs|
    requires StrsTo(ps, i) == TextAt(hs, a, b) && ps[i].key + ValBytes(ps[i]) == TextAt(hs, b, c)
    ensures StrsTo(ps, i + 1) == TextAt(hs, a, c)
  {
    TextJoin(hs, a, b, c);
  }

  /** The bytes of pair i are where its entry says. */
  predicate BytesAt(hs: Mem, base: nat, es: seq<OldEntry>, ps: seq<Pair>, i: nat)
    requires i < |es| == |ps|
  {
    var b := base + es[i].pos;
    b + Used(es[i]) <= |hs| && ps[i].key + ValBytes(ps[i]) == TextAt(hs, b, b + Used(es[i]))
  }

  /** The strings of the first i pairs are the first End(es, i) bytes of the string area. */
  lemma {:induction false} OldStrs(hs: Mem, base: nat, es: seq<OldEntry>, ps: seq<Pair>, i: nat)
    requires i <= |es| == |ps| && Contiguous(es, |es|) && base + End(es, i) <= |hs|
    requires forall j :: 0 <= j < |es| ==> BytesAt(hs, base, es, ps, j)
    ensures StrsTo(ps, i) == TextAt(hs, base, base + End(es, i))
  {
    if i > 0 {
      EndMono(es, i - 1, i);
      OldStrs(hs, base, es, ps, i - 1);
      assert PosAt(es, i - 1) && BytesAt(hs, base, es, ps, i - 1);
      StrsStep(hs, ps, i - 1, base, base + End(es, i - 1), base + End(es, i));
    }
  }

  // --------------------------------------------------------- writing old values

  /** The two words the old format keeps for pair i; the length of a null may be anything. */
  predicate OldWords(hs: Mem, ps: seq<Pair>, i: nat, vallen: nat)
    requires i < |ps|
  {
    && |ps[i].key| < 0x1_0000 && vallen < 0x1_0000 && (ps[i].val.Text? ==> vallen == |ps[i].val.text|)
    && PairStart(ps, i) < 0x8000_0000
    && IsWord(hs, 8 + 8 * i, |ps[i].key| + 0x1_0000 * vallen)
    && IsWord(hs, 12 + 8 * i, 2 * PairStart(ps, i) + if ps[i].val.Null? then 1 else 0)
  }

  predicate OldWordsAt(hs: Mem, ps: seq<Pair>, vallens: seq<nat>, i: nat)
    requires i < |ps| == |vallens|
  {
    OldWords(hs, ps, i, vallens[i])
  }

  predicate Longer(ps: seq<Pair>, i: nat)
    requires 0 < i < |ps|
  {
    |ps[i - 1].key| <= |ps[i].key|
  }

  /** hs holds the pairs in the old format: count, entries, strings back to back. */
  predicate OldPacked(hs: Mem, ps: seq<Pair>, vallens: seq<nat>) {
    && |vallens| == |ps| <= MAX_COUNT && 8 <= |hs| && IsWord(hs, 4, |ps|)
    && 8 + 8 * |ps| <= |hs| && hs[8 + 8 * |ps|..] == Cells(Strs(ps))
    && (forall i :: 0 <= i < |ps| ==> OldWordsAt(hs, ps, vallens, i))
    && (forall i :: 0 < i < |ps| ==> Longer(ps, i))
  }

  lemma {:induction false} OldDecoded(hs: Mem, ps: seq<Pair>, vallens: seq<nat>, i: nat)
    requires OldPacked(hs, ps, vallens) && i < |ps|
    ensures OldEntries(hs, |ps|)[i] == OldEntry(|ps[i].key|, vallens[i], ps[i].val.Null?, PairStart(ps, i))
  {
    OldEntriesAre(hs, |ps|, i);
    assert OldWordsAt(hs, ps, vallens, i);
  }

  predicate UsedAt(es: seq<OldEntry>, ps: seq<Pair>, i: nat)
    requires i < |es| == |ps|
  {
    Used(es[i]) == |ps[i].key| + |ValBytes(ps[i])|
  }

  lemma {:induction false} EndsAt(es: seq<OldEntry>, ps: seq<Pair>, i: nat)
    requires i <= |es| == |ps| && forall j :: 0 <= j < |es| ==> UsedAt(es, ps, j)
    ensures End(es, i) == PairStart(ps, i)
  {
    if i > 0 {
      EndsAt(es, ps, i - 1);
      assert UsedAt(es, ps, i - 1);
    }
  }

  lemma {:induction false} OldUsed(hs: Mem, ps: seq<Pair>, vallens: seq<nat>, i: nat)
    requires OldPacked(hs, ps, vallens) && i < |ps|
    ensures UsedAt(OldEntries(hs, |ps|), ps, i)
  {
    OldDecoded(hs, ps, vallens, i);
    assert OldWordsAt(hs, ps, vallens, i);
  }

  lemma {:induction false} OldEnds(hs: Mem, ps: seq<Pair>, vallens: seq<nat>, i: nat)
    requires OldPacked(hs, ps, vallens) && i <= |ps|
    ensures End(OldEntries(hs, |ps|), i) == PairStart(ps, i)
  {
    forall j | 0 <= j < |ps|
      ensures UsedAt(OldEntries(hs, |ps|), ps, j)
    {
      OldUsed(hs, ps, vallens, j);
    }
    EndsAt(OldEntries(hs, |ps|), ps, i);
  }

  lemma {:induction false} OldPackedValid(hs: Mem, ps: seq<Pair>, vallens: seq<nat>)
    requires OldPacked(hs, ps, vallens)
    ensures OldValid(hs)
  {
    var es := OldEntries(hs, |ps|);
    forall i | 0 <= i < |ps|
      ensures PosAt(es, i)
    {
      OldDecoded(hs, ps, vallens, i);
      OldEnds(hs, ps, vallens, i);
    }
    forall i | 1 <= i < |ps|
      ensures GrowsAt(es, i)
    {
      OldDecoded(hs, ps, vallens, i - 1);
      OldDecoded(hs, ps, vallens, i);
      assert Longer(ps, i);
    }
    OldEnds(hs, ps, vallens, |ps|);
  }

  lemma {:induction false} SliceIs(hs: Mem, s: bytes, base: nat, i: nat, j: nat)
    requires base <= |hs| && hs[base..] == Cells(s) && i <= j <= |s|
    ensures Slice(hs, base + i, base + j) == s[i..j]
  {
    TextOfCells(hs, s, base, i, j);
  }

  /** The two strings of pair i, where the old entry says they are. */
  lemma {:induction false} PairText(hs: Mem, ps: seq<Pair>, base: nat, i: nat)
    requires i < |ps| && base <= |hs| && hs[base..] == Cells(Strs(ps))
    ensures Slice(hs, base + PairStart(ps, i), base + PairStart(ps, i) + |ps[i].key|) == ps[i].key
    ensures var b := base + PairStart(ps, i) + |ps[i].key|; Slice(hs, b, b + |ValBytes(ps[i])|) == ValBytes(ps[i])
  {
    var s, a, b, c := Strs(ps), PairStart(ps, i), KeyEnd(ps, i), PairStart(ps, i + 1);
    PairEnds(ps, i);
    SliceIs(hs, s, base, a, b);
    SliceIs(hs, s, base, b, c);
    assert base + b + |ValBytes(ps[i])| == base + c;
  }

  lemma {:induction false} OldPairIs(hs: Mem, ps: seq<Pair>, base: nat, i: nat, vallen: nat)
    requires i < |ps| && base <= |hs| && hs[base..] == Cells(Strs(ps)) && (ps[i].val.Text? ==> vallen == |ps[i].val.text|)
    ensures OldPair(hs, base, OldEntry(|ps[i].key|, vallen, ps[i].val.Null?, PairStart(ps, i))) == ps[i]
  {
    PairText(hs, ps, base, i);
  }

  lemma {:induction false} OldPairRead(hs: Mem, ps: seq<Pair>, vallens: seq<nat>, i: nat)
    requires OldPacked(hs, ps, vallens) && i < |ps|
    ensures OldPair(hs, 8 + 8 * |ps|, OldEntries(hs, |ps|)[i]) == ps[i]
  {
    OldDecoded(hs, ps, vallens, i);
    assert OldWordsAt(hs, ps, vallens, i);
    OldPairIs(hs, ps, 8 + 8 * |ps|, i, vallens[i]);
  }

  /** A value written in the old format is valid and reads back as its pairs. */
  lemma {:induction false} OldRoundTrip(hs: Mem, ps: seq<Pair>, vallens: seq<nat>)
    requires OldPacked(hs, ps, vallens)
    ensures OldValid(hs) && OldPairs(hs) == ps
  {
    OldPackedValid(hs, ps, vallens);
    var es := OldEntries(hs, |ps|);
    forall i | 0 <= i < |ps|
      ensures OldPairs(hs)[i] == ps[i]
    {
      PairsFromAt(hs, es, i);
      OldPairRead(hs, ps, vallens, i);
    }
  }

  // ------------------------------------------------------------ the fast path

  /** The test that lets a value through as new without validation. */
  predicate FastPath(hs: Mem)
    requires |hs| >= 12
  {
    VarSize(hs) < 32768 && IsFirst(WordAt(hs, 8))
  }

  lemma {:induction false} FirstVallen(w0: word, w1: word)
    ensures IsFirst(w0) <==> Decode(w0, w1).vallen >= 32768
  {
  }

  /**
    The fast path takes an old value exactly when its first value is null and
    carries a stale length of 32768 or more; a non-null first value never is.
   */
  lemma {:induction false} FastPathIff(hs: Mem)
    requires Stored(hs) && OldValid(hs) && OldCount(hs) > 0
    ensures FastPath(hs) <==> |hs| < 32768 && OldAt(hs, 0).isnull && OldAt(hs, 0).vallen >= 32768
  {
    var es := OldEntries(hs, OldCount(hs));
    OldEntriesAre(hs, OldCount(hs), 0);
    FirstVallen(WordAt(hs, 8), WordAt(hs, 12));
    EndMono(es, 1, |es|);
    assert End(es, 1) == End(es, 0) + Used(es[0]) && End(es, 0) == 0;
  }

  // ------------------------------------------------------- new-format validation

  /** Entry word e. */
  function Ent(hs: Mem, e: nat): word
    requires 12 + 4 * e <= |hs|
  {
    WordAt(hs, 8 + 4 * e)
  }

  /** The entries the count word names are within memory. */
  predicate EntriesInside(hs: Mem)
    requires |hs| >= 8
  {
    8 + 8 * Count(hs) <= |hs|
  }

  predicate PosGrows(hs: Mem, e: nat)
    requires 1 <= e && 12 + 4 * e <= |hs|
  {
    !IsFirst(Ent(hs, e)) && EndPos(Ent(hs, e - 1)) <= EndPos(Ent(hs, e))
  }

  /** HSTORE_KEYLEN on entries with nondecreasing positions. */
  function KeyLen(hs: Mem, i: nat): int
    requires 16 + 8 * i <= |hs|
  {
    EndPos(Ent(hs, 2 * i)) - (if i == 0 then 0 else EndPos(Ent(hs, 2 * i - 1)))
  }

  predicate KeyGrows(hs: Mem, i: nat)
    requires 1 <= i && 16 + 8 * i <= |hs|
  {
    KeyLen(hs, i - 1) <= KeyLen(hs, i) && !IsNull(Ent(hs, 2 * i))
  }

  /** The size the entries ask for. */
  function NewSize(hs: Mem): nat
    requires |hs| >= 8 && EntriesInside(hs)
  {
    var n := Count(hs);
    8 + 8 * n + if n == 0 then 0 else EndPos(Ent(hs, 2 * n - 1))
  }

  predicate PosGrowTo(hs: Mem, m: nat)
    requires 8 + 4 * m <= |hs|
  {
    forall e :: 1 <= e < m ==> PosGrows(hs, e)
  }

  predicate KeysGrowTo(hs: Mem, m: nat)
    requires 8 + 8 * m <= |hs|
  {
    forall i :: 1 <= i < m ==> KeyGrows(hs, i)
  }

  /** What the new format demands of a value without the version flag; memory may go on behind the value. */
  predicate NewValid(hs: Mem)
    requires |hs| >= 8 && EntriesInside(hs)
  {
    var n := Count(hs);
    n > 0 ==> IsFirst(Ent(hs, 0)) && NewSize(hs) <= VarSize(hs) && PosGrowTo(hs, 2 * n) && KeysGrowTo(hs, n)
  }

  method PositionsGrow(hs: Mem, m: nat) returns (ok: bool)
    requires 8 + 4 * m <= |hs|
    ensures ok <==> PosGrowTo(hs, m)
  {
    var e := 1;
    while e < m
      invariant 1 <= e && forall d :: 1 <= d < e && d < m ==> PosGrows(hs, d)
    {
      if IsFirst(Ent(hs, e)) || EndPos(Ent(hs, e)) < EndPos(Ent(hs, e - 1)) {
        assert !PosGrows(hs, e);
        return false;
      }
      e := e + 1;
    }
    return true;
  }

  method NewKeysGrow(hs: Mem, n: nat) returns (ok: bool)
    requires 8 + 8 * n <= |hs|
    ensures ok <==> KeysGrowTo(hs, n)
  {
    var i := 1;
    while i < n
      invariant 1 <= i && forall j :: 1 <= j < i && j < n ==> KeyGrows(hs, j)
    {
      if KeyLen(hs, i) < KeyLen(hs, i - 1) || IsNull(Ent(hs, 2 * i)) {
        assert !KeyGrows(hs, i);
        return false;
      }
      i := i + 1;
    }
    return true;
  }

  /**
    hstoreValidNewFormat on a value without the version flag.  The last entry is
    read before sizes are compared, so the count word may make it read memory
    behind the value; such a value is rejected whatever is there.
   */
  method ValidNew(hs: Mem) returns (r: nat)
    requires 8 <= |hs| <= MAX_ALLOC && 8 <= VarSize(hs) <= |hs| && EntriesInside(hs) && OldCount(hs) < NEWVERSION
    ensures r > 0 <==> NewValid(hs)
    ensures r > 0 ==> r == if Count(hs) == 0 || NewSize(hs) == VarSize(hs) then 2 else 1
    ensures 8 + 8 * Count(hs) > VarSize(hs) ==> r == 0
  {
    var count := Count(hs);
    if count == 0 {
      return 2;
    }
    var vsize := 8 + 8 * count + EndPos(Ent(hs, 2 * count - 1));
    if !IsFirst(Ent(hs, 0)) {
      return 0;
    }
    if vsize > VarSize(hs) {
      return 0;
    }
    var ok := PositionsGrow(hs, 2 * count);
    if !ok {
      return 0;
    }
    ok := NewKeysGrow(hs, count);
    if !ok {
      return 0;
    }
    return if vsize != VarSize(hs) then 1 else 2;
  }

  // ---------------------------------------------------------------- conversion

  /** m is hs with the version flag and a size word that fits the entries. */
  predicate Relabelled(hs: Mem, m: Mem)
    requires |hs| >= 8 && EntriesInside(hs)
  {
    && |m| == |hs| && m[8..] == hs[8..]
    && IsWord(m, 4, NEWVERSION + Count(hs))
    && IsWord(m, 0, NewSize(hs) % 0x4000_0000)
  }

  /** HS_SETCOUNT and HS_FIXSIZE on a value with the given memory behind it */
  method Relabel(mem: array<Cell>, far: Mem)
    requires 8 <= mem.Length && EntriesInside(mem[..] + far)
    modifies mem
    ensures Relabelled(old(mem[..]) + far, mem[..] + far)
  {
    ghost var hs := mem[..] + far;
    var size := NewSize(mem[..] + far) % 0x4000_0000;
    var count := Count(mem[..] + far);
    PutWord(mem, 4, NEWVERSION + count);
    PutWord(mem, 0, size);
    assert (mem[..] + far)[8..] == hs[8..];
  }

  /** The entries of the first i pairs are new, the others are still old. */
  ghost predicate Converting(m: Mem, hs: Mem, es: seq<OldEntry>, ps: seq<Pair>, i: nat)
    requires 8 + 8 * |es| <= |hs| && |es| == |ps| && i <= |es|
  {
    && |m| == |hs|
    && (forall j :: 0 <= j < i ==> EntriesOf(m, ps, j, false))
    && (forall j :: 0 <= j < |m| && !(8 <= j < 8 + 8 * i) ==> m[j] == hs[j])
  }

  /** What the conversion needs to know about the pairs. */
  predicate Matches(es: seq<OldEntry>, ps: seq<Pair>) {
    && |es| == |ps| && Fits(ps)
    && forall i :: 0 <= i < |es| ==> MatchesAt(es, ps, i)
  }

  predicate MatchesAt(es: seq<OldEntry>, ps: seq<Pair>, i: nat)
    requires i < |es| == |ps|
  {
    && es[i].pos == PairStart(ps, i) && es[i].keylen == |ps[i].key| && es[i].isnull == ps[i].val.Null?
    && es[i].pos + Used(es[i]) == PairStart(ps, i + 1) < ISNULL
  }

  /** Reads entry i, which has not been overwritten yet. */
  method ReadEntry(mem: array<Cell>, i: nat, ghost hs: Mem, ghost es: seq<OldEntry>) returns (e: OldEntry)
    requires i < |es| && Decodes(hs, es) && mem.Length == |hs|
    requires forall j :: 8 + 8 * i <= j < 16 + 8 * i ==> mem[j] == hs[j]
    ensures e == es[i]
  {
    assert DecodedAt(hs, es, i);
    e := OldAt(mem[..], i);
  }

  /** The two words of a new entry, with positions cut to 30 bits. */
  function KeyWord(e: OldEntry): word { MakeEntry((e.pos + e.keylen) % ISNULL, false, false) }
  function ValWord(e: OldEntry): word { MakeEntry((e.pos + Used(e)) % ISNULL, false, e.isnull) }

  lemma {:induction false} NewWords(e: OldEntry)
    requires e.pos + Used(e) < ISNULL
    ensures KeyWord(e) == MakeEntry(e.pos + e.keylen, false, false)
    ensures ValWord(e) == MakeEntry(e.pos + Used(e), false, e.isnull)
  {
  }

  lemma {:induction false} EntryConverted(m: Mem, es: seq<OldEntry>, ps: seq<Pair>, i: nat)
    requires i < |es| == |ps| && MatchesAt(es, ps, i) && 16 + 8 * i <= |m|
    requires IsWord(m, 8 + 8 * i, KeyWord(es[i])) && IsWord(m, 12 + 8 * i, ValWord(es[i]))
    ensures EntriesOf(m, ps, i, false)
  {
    NewWords(es[i]);
  }

  lemma {:induction false} KeepConverted(a: Mem, b: Mem, ps: seq<Pair>, i: nat)
    requires i <= |ps| && |a| == |b| && 8 + 8 * i <= |a|
    requires forall j :: 0 <= j < i ==> EntriesOf(a, ps, j, false)
    requires forall j :: 0 <= j < 8 + 8 * i ==> a[j] == b[j]
    ensures forall j :: 0 <= j < i ==> EntriesOf(b, ps, j, false)
  {
    forall j | 0 <= j < i
      ensures EntriesOf(b, ps, j, false)
    {
      EntriesKept(a, b, ps, j, false);
    }
  }

  method ConvertEntry(mem: array<Cell>, i: nat, ghost hs: Mem, ghost es: seq<OldEntry>, ghost ps: seq<Pair>)
    requires Decodes(hs, es) && Matches(es, ps) && i < |es| && Converting(mem[..], hs, es, ps, i)
    modifies mem
    ensures Converting(mem[..], hs, es, ps, i + 1)
  {
    ghost var m := mem[..];
    var e := ReadEntry(mem, i, hs, es);
    PutEntries(mem, i, KeyWord(e), ValWord(e));
    assert MatchesAt(es, ps, i);
    EntryConverted(mem[..], es, ps, i);
    KeepConverted(m, mem[..], ps, i);
  }

  lemma {:induction false} ConvertedEntries(m: Mem, hs: Mem, es: seq<OldEntry>, ps: seq<Pair>)
    requires 8 + 8 * |es| <= |hs| && |es| == |ps| && Converting(m, hs, es, ps, |es|)
    ensures AllEntries(m, ps, false)
  {
  }

  /** The loop that turns old entries into new ones. */
  method ConvertEntries(mem: array<Cell>, count: nat, ghost es: seq<OldEntry>, ghost ps: seq<Pair>)
    requires Decodes(mem[..], es) && Matches(es, ps) && count == |es|
    modifies mem
    ensures AllEntries(mem[..], ps, false)
    ensures forall j :: 0 <= j < mem.Length && !(8 <= j < 8 + 8 * count) ==> mem[j] == old(mem[j])
  {
    ghost var hs := mem[..];
    var i := 0;
    while i < count
      invariant 0 <= i <= count && Converting(mem[..], hs, es, ps, i)
    {
      ConvertEntry(mem, i, hs, es, ps);
      i := i + 1;
    }
    ConvertedEntries(mem[..], hs, es, ps);
  }

  predicate LensAt(es: seq<OldEntry>, ps: seq<Pair>, i: nat)
    requires i < |es| == |ps|
  {
    |ps[i].key| == es[i].keylen && ps[i].val.Null? == es[i].isnull
  }

  lemma {:induction false} PairRead(hs: Mem, es: seq<OldEntry>, ps: seq<Pair>, i: nat)
    requires EntriesValid(es, |hs|) && ps == PairsFrom(hs, es) && i < |es|
    ensures BytesAt(hs, 8 + 8 * |es|, es, ps, i) && LensAt(es, ps, i)
  {
    PairsFromAt(hs, es, i);
    PairInside(es, i);
    OldPairBytes(hs, 8 + 8 * |es|, es[i]);
  }

  lemma {:induction false} PairsFromAt(hs: Mem, es: seq<OldEntry>, i: nat)
    requires i < |es|
    ensures PairsFrom(hs, es)[i] == OldPair(hs, 8 + 8 * |es|, es[i])
  {
  }

  lemma {:induction false} PairInside(es: seq<OldEntry>, i: nat)
    requires i < |es| && Contiguous(es, |es|)
    ensures es[i].pos + Used(es[i]) <= End(es, |es|)
  {
    EndMono(es, i + 1, |es|);
    assert PosAt(es, i);
  }

  lemma {:induction false} EntryMatches(hs: Mem, base: nat, es: seq<OldEntry>, ps: seq<Pair>, i: nat)
    requires i < |es| == |ps| && Contiguous(es, |es|) && base + End(es, |es|) <= |hs| <= MAX_ALLOC
    requires forall j :: 0 <= j < |es| ==> BytesAt(hs, base, es, ps, j)
    requires LensAt(es, ps, i)
    ensures MatchesAt(es, ps, i)
  {
    EndMono(es, i, i + 1);
    EndMono(es, i + 1, |es|);
    assert PosAt(es, i);
    OldStrs(hs, base, es, ps, i);
    OldStrs(hs, base, es, ps, i + 1);
  }

  /** The entries and strings of a valid old value agree with its pairs. */
  lemma {:induction false} OldMatches(hs: Mem, es: seq<OldEntry>, ps: seq<Pair>)
    requires EntriesValid(es, |hs|) && |hs| <= MAX_ALLOC && ps == PairsFrom(hs, es)
    ensures Matches(es, ps) && DataSize(ps) == OldSize(es)
    ensures Strs(ps) == TextAt(hs, 8 + 8 * |es|, OldSize(es))
  {
    var base := 8 + 8 * |es|;
    forall i | 0 <= i < |es|
      ensures BytesAt(hs, base, es, ps, i) && LensAt(es, ps, i)
    {
      PairRead(hs, es, ps, i);
    }
    OldStrs(hs, base, es, ps, |es|);
    forall i | 0 <= i < |es|
      ensures MatchesAt(es, ps, i)
    {
      EntryMatches(hs, base, es, ps, i);
    }
  }

  lemma {:induction false} StringsKept(hs: Mem, m: Mem, base: nat, end: nat, s: bytes)
    requires base <= end <= |hs| == |m| && s == TextAt(hs, base, end)
    requires forall j :: base <= j < end ==> hs[j].Byte? && m[j] == hs[j]
    ensures m[base..end] == Cells(s)
  {
    CellsOfText(hs, base, end);
    assert m[base..end] == hs[base..end];
  }

  /** The last entry tells the size. */
  lemma {:induction false} LastEntry(m: Mem, ps: seq<Pair>)
    requires ps != [] && AllEntries(m, ps, true) && 8 + 8 * |ps| <= |m|
    ensures EndPos(Ent(m, 2 * |ps| - 1)) == |Strs(ps)|
  {
    var i := |ps| - 1;
    assert EntriesOf(m, ps, i, true);
    EntryFields(PairStart(ps, i + 1), false, ps[i].val.Null?);
  }

  lemma {:induction false} EntriesDecoded(hs: Mem, n: nat)
    requires 8 + 8 * n <= |hs|
    ensures Decodes(hs, OldEntries(hs, n))
  {
    forall i | 0 <= i < n
      ensures DecodedAt(hs, OldEntries(hs, n), i)
    {
      OldEntriesAre(hs, n, i);
    }
  }

  /** Overwrites a valid old value as a new one, in place. */
  method Convert(mem: array<Cell>, ghost es: seq<OldEntry>, ghost ps: seq<Pair>)
    requires Ready(mem[..], es, ps)
    modifies mem
    ensures WordAt(mem[..], 0) <= mem.Length && Packed(mem[..WordAt(mem[..], 0)], ps)
  {
    ghost var hs := mem[..];
    var count := WordAt(mem[..], 4);
    ConvertEntries(mem, count, es, ps);
    MarkFirst(mem, ps);
    LastEntry(mem[..], ps);
    var size := 8 + 8 * count + EndPos(Ent(mem[..], 2 * count - 1));
    SetHeader(mem, count, size, ps);
    StringsKept(hs, mem[..], 8 + 8 * count, size, Strs(ps));
    FinishPacked(mem[..], mem[..size], ps);
  }

  method MarkFirst(mem: array<Cell>, ghost ps: seq<Pair>)
    requires ps != [] && 8 + 8 * |ps| <= mem.Length && AllEntries(mem[..], ps, false)
    modifies mem
    ensures AllEntries(mem[..], ps, true)
    ensures forall j :: 0 <= j < mem.Length && !(8 <= j < 12) ==> mem[j] == old(mem[j])
  {
    ghost var m := mem[..];
    assert EntriesOf(m, ps, 0, false);
    SetFirst(mem, KeyEnd(ps, 0));
    AllEntriesMarked(m, mem[..], ps);
  }

  method SetHeader(mem: array<Cell>, count: nat, size: word, ghost ps: seq<Pair>)
    requires count == |ps| && count <= MAX_COUNT && 8 + 8 * count <= mem.Length && AllEntries(mem[..], ps, true)
    modifies mem
    ensures IsWord(mem[..], 0, size) && IsWord(mem[..], 4, NEWVERSION + count) && AllEntries(mem[..], ps, true)
    ensures forall j :: 8 <= j < mem.Length ==> mem[j] == old(mem[j])
  {
    ghost var m := mem[..];
    PutWord(mem, 4, NEWVERSION + count);
    PutWord(mem, 0, size);
    AllEntriesKept(m, mem[..], ps, true);
  }

  /** Everything the conversion relies on. */
  ghost predicate Ready(hs: Mem, es: seq<OldEntry>, ps: seq<Pair>) {
    && 8 <= |hs| && WordAt(hs, 4) == |es| && 0 < |es| <= MAX_COUNT
    && Decodes(hs, es) && Matches(es, ps) && 8 + 8 * |es| <= DataSize(ps) <= |hs|
    && Strs(ps) == TextAt(hs, 8 + 8 * |es|, DataSize(ps))
    && forall j :: 8 + 8 * |es| <= j < |hs| ==> hs[j].Byte?
  }

  lemma {:induction false} OldReady(hs: Mem, es: seq<OldEntry>, ps: seq<Pair>)
    requires Stored(hs) && OldValid(hs) && OldCount(hs) > 0 && es == OldEntries(hs, OldCount(hs)) && ps == OldPairs(hs)
    ensures Ready(hs, es, ps)
  {
    OldMatches(hs, es, ps);
    EntriesDecoded(hs, OldCount(hs));
  }

  method ConvertOld(mem: array<Cell>)
    requires Stored(mem[..]) && OldValid(mem[..]) && OldCount(mem[..]) > 0
    modifies mem
    ensures WordAt(mem[..], 0) <= mem.Length && Packed(mem[..WordAt(mem[..], 0)], OldPairs(old(mem[..])))
  {
    ghost var hs := mem[..];
    ghost var es, ps := OldEntries(hs, OldCount(hs)), OldPairs(hs);
    OldReady(hs, es, ps);
    Convert(mem, es, ps);
  }

  // ------------------------------------------------------------------- upgrade

  /** The reads of the upgrade stay within the value and the memory behind it. */
  predicate Reachable(hs: Mem, far: Mem) {
    && Stored(hs) && |hs| + |far| <= MAX_ALLOC && EntriesInside(hs + far)
    && (OldCount(hs) > 0 ==> |hs| + |far| >= 12)
  }

  /** What the upgrade makes of value hs, with memory `far` behind it. */
  ghost predicate Upgraded(hs: Mem, far: Mem, ok: bool, m: Mem)
    requires Reachable(hs, far)
  {
    if OldCount(hs) >= NEWVERSION then ok && m == hs
    else if OldCount(hs) == 0 || FastPath(hs + far) then ok && Relabelled(hs + far, m + far)
    else if OldValid(hs) then ok && |m| == |hs| && WordAt(m, 0) <= |m| && Packed(m[..WordAt(m, 0)], OldPairs(hs))
    else if NewValid(hs + far) then ok && Relabelled(hs + far, m + far)
    else !ok && m == hs
  }

  /**
    hstoreUpgrade on a value of either format.  Old values that do not go through
    the fast path come out packed for the same pairs, with exact size; ambiguous
    values count as old.
   */
  method Upgrade(mem: array<Cell>, far: Mem) returns (ok: bool)
    requires Reachable(mem[..], far)
    modifies mem
    ensures Upgraded(old(mem[..]), far, ok, mem[..])
  {
    ghost var hs := mem[..];
    assert hs <= hs + far;
    var size_ := WordAt(mem[..], 4);
    if size_ >= NEWVERSION {
      return true;
    }
    if size_ == 0 || (VarSize(mem[..]) < 32768 && IsFirst(WordAt(mem[..] + far, 8))) {
      Relabel(mem, far);
      return true;
    }
    var validNew := ValidNew(mem[..] + far);
    var validOld := ValidOld(mem[..]);
    if validOld == 0 {
      if validNew > 0 {
        Relabel(mem, far);
        return true;
      }
      return false;
    }
    ConvertOld(mem);
    return true;
  }

  lemma {:induction false} TruncatedNotOld(hs: Mem)
    requires |hs| >= 8 && !EntriesInside(hs)
    ensures !OldValid(hs)
  {
  }

  lemma {:induction false} TruncatedNotNew(hs: Mem, far: Mem)
    requires |hs| >= 8 && VarSize(hs) == |hs| && !EntriesInside(hs) && EntriesInside(hs + far)
    ensures !NewValid(hs + far)
  {
    var all := hs + far;
    assert Count(all) == Count(hs) && VarSize(all) == |hs|;
    assert NewSize(all) >= 8 + 8 * Count(all);
  }

  /** A value whose count word names more entries than it holds is rejected, unless the fast path takes it. */
  lemma {:induction false} TruncatedRejected(hs: Mem, far: Mem, ok: bool, m: Mem)
    requires Reachable(hs, far) && Upgraded(hs, far, ok, m)
    requires 0 < OldCount(hs) < NEWVERSION && !EntriesInside(hs) && !FastPath(hs + far)
    ensures !ok && m == hs
  {
    TruncatedNotOld(hs);
    TruncatedNotNew(hs, far);
  }

  /** The value in memory m reads as the pairs. */
  ghost predicate ReadsAs(m: Mem, ps: seq<Pair>) {
    && 8 <= |m| && 8 <= WordAt(m, 0) <= |m|
    && var out := m[..WordAt(m, 0)];
       Count(out) == |ps| && forall i :: 0 <= i < |ps| ==> Readable(out, i) && PairAt(out, i) == ps[i]
  }

  lemma {:induction false} PackedReadsAs(m: Mem, ps: seq<Pair>)
    requires 8 <= |m| && WordAt(m, 0) <= |m| && Packed(m[..WordAt(m, 0)], ps)
    ensures ReadsAs(m, ps)
  {
    var out := m[..WordAt(m, 0)];
    PackedCount(out, ps);
    forall i | 0 <= i < |ps|
      ensures Readable(out, i) && PairAt(out, i) == ps[i]
    {
      PackedReads(out, ps, i);
    }
  }

  /** A value the fast path captures loses the null of its first pair. */
  lemma {:induction false} CapturedLoses(hs: Mem, m: Mem)
    requires Stored(hs) && OldValid(hs) && OldCount(hs) > 0 && FastPath(hs) && Relabelled(hs, m)
    ensures OldPairs(hs)[0].val.Null? && !IsNull(ValEntry(m, 0)) && !ReadsAs(m, OldPairs(hs))
  {
    FastPathIff(hs);
    var es := OldEntries(hs, OldCount(hs));
    OldEntriesAre(hs, OldCount(hs), 0);
    assert PosAt(es, 0) && WordAt(hs, 12) == 1;
    assert m[12] == m[8..][4] == hs[8..][4] == hs[12];
  }

  /** What lies behind a value that holds its entries makes no difference. */
  lemma {:induction false} NearRelabelled(hs: Mem, far: Mem, m: Mem)
    requires |hs| >= 8 && EntriesInside(hs) && EntriesInside(hs + far) && Relabelled(hs + far, m + far)
    ensures Relabelled(hs, m)
  {
    var a, b := hs + far, m + far;
    assert Count(a) == Count(hs);
    if Count(hs) > 0 { assert Ent(a, 2 * Count(hs) - 1) == Ent(hs, 2 * Count(hs) - 1); }
    forall j | 8 <= j < |m|
      ensures m[j] == hs[j]
    {
      assert b[j] == b[8..][j - 8] == a[8..][j - 8] == a[j];
    }
    assert m[8..] == hs[8..];
  }

  /**
    An old value keeps its pairs if and only if it does not have less than 32768
    bytes and a null first value with a stale length of 32768 or more.
   */
  lemma {:induction false} UpgradeKeepsIff(hs: Mem, far: Mem, ok: bool, m: Mem)
    requires Reachable(hs, far) && OldValid(hs) && OldCount(hs) > 0 && Upgraded(hs, far, ok, m)
    ensures ok
    ensures ReadsAs(m, OldPairs(hs)) <==> !(|hs| < 32768 && OldAt(hs, 0).isnull && OldAt(hs, 0).vallen >= 32768)
  {
    FastPathIff(hs);
    assert FastPath(hs + far) <==> FastPath(hs);
    if FastPath(hs) {
      NearRelabelled(hs, far, m);
      CapturedLoses(hs, m);
    } else {
      PackedReadsAs(m, OldPairs(hs));
    }
  }

  /** One pair, a one-byte key with a null value whose length field still says 32768. */
  const CAPTURED: Mem :=
    [Word(17), More, More, More, Word(1), More, More, More,
     Word(0x8000_0001), More, More, More, Word(1), More, More, More, Byte(97)]

  lemma {:induction false} CapturedEntries()
    ensures OldEntries(CAPTURED, 1) == [OldEntry(1, 32768, true, 0)]
  {
    var hs := CAPTURED;
    assert OldAt(hs, 0) == OldEntry(1, 32768, true, 0);
    assert OldEntries(hs, 0) == [];
  }

  lemma {:induction false} CapturedValid(es: seq<OldEntry>)
    requires es == [OldEntry(1, 32768, true, 0)]
    ensures EntriesValid(es, 17)
  {
    assert End(es, 0) == 0 && End(es, 1) == 1 && PosAt(es, 0);
  }

  lemma {:induction false} CapturedPairs(es: seq<OldEntry>)
    requires es == [OldEntry(1, 32768, true, 0)]
    ensures PairsFrom(CAPTURED, es) == [Pair([97], Null)]
  {
    assert TextAt(CAPTURED, 16, 17) == [97];
    assert OldPair(CAPTURED, 16, es[0]) == Pair([97], Null);
  }

  lemma {:induction false} CapturedIsOld()
    ensures Stored(CAPTURED) && OldValid(CAPTURED) && FastPath(CAPTURED) && EntriesInside(CAPTURED)
    ensures OldPairs(CAPTURED) == [Pair([97], Null)]
  {
    var es := OldEntries(CAPTURED, 1);
    CapturedEntries();
    CapturedValid(es);
    CapturedPairs(es);
    assert WordAt(CAPTURED, 0) == 17 && WordAt(CAPTURED, 4) == 1 && WordAt(CAPTURED, 8) == 0x8000_0001;
  }

  /** The upgrade accepts it and turns the null into an empty string. */
  method CapturedValue() returns (ok: bool, mem: array<Cell>)
    ensures Stored(CAPTURED) && OldValid(CAPTURED) && OldPairs(CAPTURED) == [Pair([97], Null)]
    ensures ok && ReadsAs(mem[..], [Pair([97], Text([]))])
  {
    CapturedIsOld();
    mem := new Cell[17](i requires 0 <= i < 17 => CAPTURED[i]);
    assert mem[..] == CAPTURED && mem[..] + [] == CAPTURED;
    ok := Upgrade(mem, []);
    assert mem[..] + [] == mem[..];
    RelabelledReads(mem[..]);
  }

  lemma {:induction false} RelabelledReads(m: Mem)
    requires EntriesInside(CAPTURED) && Relabelled(CAPTURED, m)
    ensures ReadsAs(m, [Pair([97], Text([]))])
  {
    assert NewSize(CAPTURED) == 17;
    assert forall j :: 8 <= j < 17 ==> m[j] == m[8..][j - 8] == CAPTURED[8..][j - 8] == CAPTURED[j];
    assert m[8] == Word(0x8000_0001) && m[12] == Word(1) && m[16] == Byte(97);
    OnePairReads(m);
    assert m[..17] == m;
  }

  lemma {:induction false} OnePairReads(m: Mem)
    requires |m| == 17 && m[4] == Word(NEWVERSION + 1) && m[8] == Word(0x8000_0001) && m[12] == Word(1) && m[16] == Byte(97)
    ensures Count(m) == 1 && Readable(m, 0) && PairAt(m, 0) == Pair([97], Text([]))
  {
    assert KeyEntry(m, 0) == 0x8000_0001 && ValEntry(m, 0) == 1 && Count(m) == 1;
    assert TextAt(m, 16, 17) == [97] && TextAt(m, 17, 17) == [];
  }

  /** An empty old value becomes the empty new value. */
  lemma {:induction false} EmptyUpgrade(hs: Mem, m: Mem)
    requires Stored(hs) && OldCount(hs) == 0 && Relabelled(hs, m)
    ensures WordAt(m, 0) == 8 && Packed(m[..8], [])
  {
  }

  lemma {:induction false} PosBelowLast(hs: Mem, d: nat, e: nat)
    requires d <= e && 12 + 4 * e <= |hs| && PosGrowTo(hs, e + 1)
    ensures EndPos(Ent(hs, d)) <= EndPos(Ent(hs, e))
  {
    if d < e {
      assert PosGrows(hs, e);
      PosBelowLast(hs, d, e - 1);
    }
  }

  /** Pair i of a value that passed the new-format check can be read. */
  lemma {:induction false} NewValidReads(hs: Mem, i: nat)
    requires |hs| >= 8 && VarSize(hs) <= |hs| && EntriesInside(hs) && NewValid(hs) && i < Count(hs)
    ensures Readable(hs, i) && 8 + 8 * Count(hs) + EndPos(ValEntry(hs, i)) <= NewSize(hs)
  {
    assert 8 + 4 * (2 * i) == 8 + 8 * i && 8 + 4 * (2 * i + 1) == 12 + 8 * i;
    if i > 0 { assert PosGrows(hs, 2 * i); }
    assert PosGrows(hs, 2 * i + 1);
    PosBelowLast(hs, 2 * i + 1, 2 * Count(hs) - 1);
  }

  /** Relabelling a valid new value keeps its pairs and makes its size exact. */
  lemma {:induction false} RelabelKeeps(hs: Mem, m: Mem, i: nat)
    requires Stored(hs) && EntriesInside(hs) && NewValid(hs) && OldCount(hs) < NEWVERSION && Relabelled(hs, m)
    requires i < Count(hs)
    ensures WordAt(m, 0) == NewSize(hs) <= |m|
    ensures var out := m[..NewSize(hs)];
      && VarSize(out) == |out| && Count(out) == Count(hs)
      && Readable(hs, i) && Readable(out, i) && PairAt(out, i) == PairAt(hs, i)
  {
    NewValidReads(hs, i);
    var out := m[..NewSize(hs)];
    assert forall j :: 8 <= j < |out| ==> out[j] == m[8..][j - 8] == hs[8..][j - 8] == hs[j];
    assert KeyEntry(out, i) == KeyEntry(hs, i) && ValEntry(out, i) == ValEntry(hs, i);
    SameText(hs, out, 8 + 8 * Count(hs) + KeyOff(hs, i), 8 + 8 * Count(hs) + EndPos(KeyEntry(hs, i)));
    SameText(hs, out, 8 + 8 * Count(hs) + EndPos(KeyEntry(hs, i)), 8 + 8 * Count(hs) + EndPos(ValEntry(hs, i)));
  }

  lemma {:induction false} SameText(a: Mem, b: Mem, i: nat, j: nat)
    requires i <= j <= |a| && j <= |b| && forall k :: i <= k < j ==> a[k] == b[k]
    ensures TextAt(a, i, j) == TextAt(b, i, j)
  {
  }
}
