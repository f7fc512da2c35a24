/**
  hstore_in and hstore_out.  The parser works on a pointer into the text and a
  word buffer that doubles when it is full; the printer writes into one buffer
  whose size is computed beforehand.  Both are proved against the functions of
  HstoreText.
 */
module HstoreIO {
  import opened Bytes
  import opened HstoreLayout
  import opened HstoreOrder
  import opened HstoreUnique
  import opened HstoreOps
  import opened Machine
  import T = HstoreText
  import G = HstoreGrammar
  import S = HstoreSpelling

  // ------------------------------------------------------------ doubling buffers

  lemma {:induction false} Pow2Mono(j: nat, k: nat)
    requires j <= k
    ensures Pow2(j) <= Pow2(k)
  {
    if j < k { Pow2Mono(j, k - 1); }
  }

  lemma {:induction false} SixteenTimes(k: nat)
    ensures Pow2(k + 4) == 16 * Pow2(k)
  {
    assert Pow2(k + 4) == 2 * Pow2(k + 3) && Pow2(k + 3) == 2 * Pow2(k + 2);
    assert Pow2(k + 2) == 2 * Pow2(k + 1) && Pow2(k + 1) == 2 * Pow2(k);
  }

  lemma {:induction false} Powers()
    ensures Pow2(19) == 0x8_0000 && Pow2(20) == 0x10_0000 && Pow2(23) == 0x80_0000 && Pow2(24) == 0x100_0000
  {
    SixteenTimes(0);
    SixteenTimes(4);
    SixteenTimes(8);
    SixteenTimes(12);
    SixteenTimes(16);
    SixteenTimes(20);
  }

  /** n was reached from `first` by at most `most` doublings. */
  ghost predicate Grown(first: nat, most: nat, n: nat) {
    exists k: nat :: k <= most && n == first * Pow2(k)
  }

  lemma {:induction false} GrownStart(first: nat, most: nat)
    ensures Grown(first, most, first)
  {
    assert first == first * Pow2(0);
  }

  /** The next doubling stays in the range unless the last one was reached. */
  lemma {:induction false} WordGrows(n: nat)
    requires Grown(32, 24, n)
    ensures n <= T.MAX_WORD && (2 * n > MAX_ALLOC <==> n == T.MAX_WORD)
    ensures n < T.MAX_WORD ==> Grown(32, 24, 2 * n)
  {
    var k: nat :| k <= 24 && n == 32 * Pow2(k);
    Powers();
    if k < 24 {
      Pow2Mono(k, 23);
      assert 2 * n == 32 * Pow2(k + 1);
    }
  }

  lemma {:induction false} PairsGrow(n: nat)
    requires Grown(16, 20, n)
    ensures n <= T.MAX_ITEMS && (40 * (2 * n) > MAX_ALLOC <==> n == T.MAX_ITEMS)
    ensures n < T.MAX_ITEMS ==> Grown(16, 20, 2 * n)
  {
    var k: nat :| k <= 20 && n == 16 * Pow2(k);
    Powers();
    if k < 20 {
      Pow2Mono(k, 19);
      assert 2 * n == 16 * Pow2(k + 1);
    }
  }

  // -------------------------------------------------------------------- parser

  datatype Maybe<T> = None | Some(v: T)

  predicate NoNulBefore(s: bytes, p: nat) {
    p <= |s| && T.NulFree(s[..p])
  }

  class HSParser {
    const text: bytes
    var ptr: nat
    var word: array<byte>
    var cur: nat
    var pairs: seq<Item>
    var plen: nat

    constructor (s: bytes)
      ensures text == s && ptr == 0 && pairs == [] && plen == 16 && fresh(word)
    {
      text, ptr, cur, pairs, plen := s, 0, 0, [], 16;
      word := new byte[0];
    }

    /** Room for the next byte and a terminator. */
    ghost predicate HasBuffer()
      reads this
    {
      cur < word.Length && Grown(32, 24, word.Length)
    }

    /** RESIZEPRSBUF and the write that follows it. */
    method Put(c: byte) returns (ok: bool)
      requires HasBuffer()
      modifies this, word
      ensures ok <==> old(cur) + 1 < T.MAX_WORD
      ensures ok ==> HasBuffer() && cur == old(cur) + 1 && word[..cur] == old(word[..cur]) + [c]
      ensures word == old(word) || fresh(word)
      ensures ptr == old(ptr) && pairs == old(pairs) && plen == old(plen)
    {
      WordGrows(word.Length);
      if cur + 1 >= word.Length {
        if 2 * word.Length > MAX_ALLOC {
          return false;
        }
        var bigger := new byte[2 * word.Length](_ => 0);
        forall i | 0 <= i < cur { bigger[i] := word[i]; }
        word := bigger;
      }
      word[cur] := c;
      cur := cur + 1;
      ok := true;
    }

    /** Between two bytes of a word: what was collected, and that there is room to go on. */
    ghost predicate Reading(st: T.WordState, w: bytes)
      reads this, word
    {
      && NoNulBefore(text, ptr) && (st.InVal? ==> ptr > 0) && (st.WaitVal? ==> cur == 0)
      && HasBuffer() && word[..cur] == w
    }

    /** The word is complete; the pointer stands before the next byte to look at. */
    ghost predicate Complete(r: T.Got)
      reads this, word
    {
      r.GotWord? ==>
        && ptr == r.pos && cur < word.Length && word[..cur] == r.word
        && ptr + 1 <= |text| && NoNulBefore(text, ptr + 1)
    }

    /** One round of get_val outside quotes; `r` is set when the word is complete or wrong. */
    method StepPlain(ignoreeq: bool, st: T.WordState, escaped: bool, ghost w: bytes)
      returns (r: Maybe<T.Got>, st': T.WordState, escaped': bool, ghost w': bytes)
      requires Reading(st, w) && (st.WaitVal? || st.InVal? || st.WaitEscIn?)
      modifies this, word
      ensures pairs == old(pairs) && plen == old(plen) && (word == old(word) || fresh(word))
      ensures r.Some? ==> r.v == T.GetVal(text, old(ptr), ignoreeq, st, w, escaped) && Complete(r.v)
      ensures r.None? ==> Reading(st', w') && ptr == old(ptr) + 1
      ensures r.None? ==> T.GetVal(text, old(ptr), ignoreeq, st, w, escaped) == T.GetVal(text, ptr, ignoreeq, st', w', escaped')
    {
      r, st', escaped', w' := None, st, escaped, w;
      var c := T.At(text, ptr);
      if st.WaitVal? {
        if c == T.QUOTE {
          escaped', st' := true, T.InEscVal;
        } else if c == T.NUL {
          return Some(T.GotEnd), st', escaped', w';
        } else if c == T.EQUALS && !ignoreeq {
          return Some(T.BadSyntax(ptr)), st', escaped', w';
        } else if c == T.BACKSLASH {
          st' := T.WaitEscIn;
        } else if !T.IsSpace(c) {
          word[cur] := c;
          cur, w', st' := cur + 1, w + [c], T.InVal;
        }
      } else if st.InVal? && c == T.BACKSLASH {
        st' := T.WaitEscIn;
      } else if st.InVal? && ((c == T.EQUALS && !ignoreeq) || (c == T.COMMA && ignoreeq)) {
        ptr := ptr - 1;
        return Some(T.GotWord(ptr, word[..cur], escaped)), st', escaped', w';
      } else if st.InVal? && T.IsSpace(c) {
        return Some(T.GotWord(ptr, word[..cur], escaped)), st', escaped', w';
      } else if st.InVal? && c == T.NUL {
        ptr := ptr - 1;
        return Some(T.GotWord(ptr, word[..cur], escaped)), st', escaped', w';
      } else if c == T.NUL {
        return Some(T.BadEnd), st', escaped', w';
      } else {
        var ok := Put(c);
        if !ok {
          return Some(T.NoMemory), st', escaped', w';
        }
        w', st' := w + [c], T.InVal;
      }
      ptr := ptr + 1;
    }

    /** One round of get_val inside quotes. */
    method StepQuoted(ignoreeq: bool, st: T.WordState, escaped: bool, ghost w: bytes)
      returns (r: Maybe<T.Got>, st': T.WordState, ghost w': bytes)
      requires Reading(st, w) && (st.InEscVal? || st.WaitEscEscIn?)
      modifies this, word
      ensures pairs == old(pairs) && plen == old(plen) && (word == old(word) || fresh(word))
      ensures r.Some? ==> r.v == T.GetVal(text, old(ptr), ignoreeq, st, w, escaped) && Complete(r.v)
      ensures r.None? ==> Reading(st', w') && ptr == old(ptr) + 1
      ensures r.None? ==> T.GetVal(text, old(ptr), ignoreeq, st, w, escaped) == T.GetVal(text, ptr, ignoreeq, st', w', escaped)
    {
      r, st', w' := None, st, w;
      var c := T.At(text, ptr);
      if st.InEscVal? && c == T.BACKSLASH {
        st' := T.WaitEscEscIn;
      } else if st.InEscVal? && c == T.QUOTE {
        return Some(T.GotWord(ptr, word[..cur], escaped)), st', w';
      } else if c == T.NUL {
        return Some(T.BadEnd), st', w';
      } else {
        var ok := Put(c);
        if !ok {
          return Some(T.NoMemory), st', w';
        }
        w', st' := w + [c], T.InEscVal;
      }
      ptr := ptr + 1;
    }

    /** get_val */
    method ReadWord(ignoreeq: bool) returns (r: T.Got)
      requires NoNulBefore(text, ptr)
      modifies this
      ensures r == T.GetVal(text, old(ptr), ignoreeq, T.WaitVal, [], false) && Complete(r)
      ensures S.WordStands(text, old(ptr), ignoreeq, r)
      ensures pairs == old(pairs) && plen == old(plen) && fresh(word)
    {
      r := WordLoop(ignoreeq);
      S.WordIff(text, old(ptr), ignoreeq, r);
    }

    method WordLoop(ignoreeq: bool) returns (r: T.Got)
      requires NoNulBefore(text, ptr)
      modifies this
      ensures r == T.GetVal(text, old(ptr), ignoreeq, T.WaitVal, [], false) && Complete(r)
      ensures pairs == old(pairs) && plen == old(plen) && fresh(word)
    {
      word := new byte[32](_ => 0);
      cur := 0;
      GrownStart(32, 24);
      var st, escaped := T.WaitVal, false;
      ghost var w: bytes := [];
      while true
        invariant Reading(st, w) && fresh(word) && pairs == old(pairs) && plen == old(plen)
        invariant T.GetVal(text, old(ptr), ignoreeq, T.WaitVal, [], false)
               == T.GetVal(text, ptr, ignoreeq, st, w, escaped)
        decreases |text| - ptr
      {
        var got: Maybe<T.Got>;
        if st.InEscVal? || st.WaitEscEscIn? {
          got, st, w := StepQuoted(ignoreeq, st, escaped, w);
        } else {
          got, st, escaped, w := StepPlain(ignoreeq, st, escaped, w);
        }
        if got.Some? {
          return got.v;
        }
      }
    }

    /** RESIZE of the pair array before a new key is stored. */
    method Room() returns (ok: bool)
      requires |pairs| <= plen && Grown(16, 20, plen)
      modifies this`plen
      ensures ok <==> |pairs| < T.MAX_ITEMS
      ensures ok ==> |pairs| < plen && Grown(16, 20, plen)
    {
      PairsGrow(plen);
      if |pairs| >= plen {
        if 40 * (2 * plen) > MAX_ALLOC {
          return false;
        }
        plen := 2 * plen;
      }
      ok := true;
    }

    /** parse_hstore */
    method ReadPairs() returns (r: T.Parsed)
      requires ptr == 0 && pairs == [] && plen == 16
      modifies this
      ensures r == T.Parse(text, 0, T.WKey, [], []) && G.Stands(text, r)
    {
      r := PairLoop();
      S.ParseIff(text, r);
    }

    method PairLoop() returns (r: T.Parsed)
      requires ptr == 0 && pairs == [] && plen == 16
      modifies this
      ensures r == T.Parse(text, 0, T.WKey, [], [])
    {
      var st, key := T.WKey, [];
      GrownStart(16, 20);
      while true
        invariant NoNulBefore(text, ptr) && |pairs| <= plen && Grown(16, 20, plen)
        invariant st.WEq? || st.WGt? || st.WVal? ==> |pairs| < plen
        invariant T.Parse(text, 0, T.WKey, [], []) == T.Parse(text, ptr, st, key, pairs)
        decreases |text| - ptr
      {
        var c := T.At(text, ptr);
        match st {
          case WKey =>
            var g := WordLoop(false);
            if g.GotEnd? {
              return T.Parsed(pairs);
            } else if !g.GotWord? {
              return T.Failure(g);
            }
            var ok := Room();
            if !ok {
              return T.OutOfMemory;
            }
            if |g.word| > MAX_LEN {
              return T.KeyTooLong;
            }
            key, st := g.word, T.WEq;
          case WEq =>
            if c == T.EQUALS {
              st := T.WGt;
            } else if c == T.NUL {
              return T.UnexpectedEnd;
            } else if !T.IsSpace(c) {
              return T.SyntaxError(ptr);
            }
          case WGt =>
            if c == T.GREATER {
              st := T.WVal;
            } else if c == T.NUL {
              return T.UnexpectedEnd;
            } else {
              return T.SyntaxError(ptr);
            }
          case WVal =>
            var g := WordLoop(true);
            if g.GotEnd? {
              return T.UnexpectedEnd;
            } else if !g.GotWord? {
              return T.Failure(g);
            }
            if |g.word| > MAX_LEN {
              return T.ValueTooLong;
            }
            pairs := pairs + [T.ParsedItem(key, g.word, g.escaped)];
            key, st := [], T.WDel;
          case WDel =>
            if c == T.COMMA {
              st := T.WKey;
            } else if c == T.NUL {
              return T.Parsed(pairs);
            } else if !T.IsSpace(c) {
              return T.SyntaxError(ptr);
            }
        }
        ptr := ptr + 1;
      }
    }
  }

  // ----------------------------------------------------------------- hstore_in

  datatype InResult = Read(hs: Mem) | Rejected(why: T.Parsed) | InTooLarge

  /** The keys of hs are those of the items, and each value is one given with its key. */
  ghost predicate Represents(hs: Mem, items: seq<Item>) {
    && Canonical(hs)
    && (forall k :: k in MapOf(hs) <==> HasKey(items, |items|, k))
    && (forall k :: k in MapOf(hs) ==> Given(items, Pair(k, MapOf(hs)[k])))
  }

  ghost predicate Given(items: seq<Item>, p: Pair) {
    exists i :: 0 <= i < |items| && items[i].pair == p
  }

  lemma {:induction false} UniqueGiven(u: seq<Item>, items: seq<Item>, k: bytes)
    requires UniqueOf(u, items, |items|)
    ensures var m := ToMap(PairsIn(u));
            (k in m <==> HasKey(items, |items|, k)) && (k in m ==> Given(items, Pair(k, m[k])))
  {
    var ps := PairsIn(u);
    SortedPairs(u);
    ToMapKeys(ps, |ps|, k);
    assert SameKeyIn(u, items, |items|, k);
    if k in ToMap(ps) {
      var i :| 0 <= i < |ps| && ps[i].key == k;
      SortedLookup(ps, i);
      assert u[i].pair == ps[i] && KeptFrom(u, items, |items|, i);
    }
    if HasKey(u, |u|, k) {
      var i :| 0 <= i < |u| && u[i].pair.key == k;
      assert ps[i].key == k;
    }
  }

  /** What becomes of well-formed text: the pairs it lists, unless they do not fit. */
  ghost predicate Stored(items: seq<Item>, r: InResult) {
    && (r.InTooLarge? || (r.Read? && Represents(r.hs, items)))
    && exists u :: UniqueOf(u, items, |items|) && (r.InTooLarge? <==> !Fits(PairsIn(u)))
  }

  /** The second half of hstore_in: hstoreUniquePairs and hstorePairs. */
  method Store(items: seq<Item>) returns (r: InResult)
    ensures Stored(items, r)
  {
    var a := new Item[|items|](i requires 0 <= i < |items| => items[i]);
    assert a[..] == items;
    var n, buflen := UniquePairs(a);
    ghost var u := a[..n];
    SortedPairs(u);
    var packed := Pack(PairsIn(a[..n]), buflen);
    if packed.TooLarge? {
      return InTooLarge;
    }
    forall k
      ensures var m := MapOf(packed.hs);
        (k in m <==> HasKey(items, |items|, k)) && (k in m ==> Given(items, Pair(k, m[k])))
    {
      UniqueGiven(u, items, k);
    }
    return Read(packed.hs);
  }

  /** hstore_in: what the text stands for, or what is wrong with it. */
  method In(s: bytes) returns (r: InResult)
    ensures var parsed := T.Parse(s, 0, T.WKey, [], []);
      G.Stands(s, parsed) && if parsed.Parsed? then Stored(parsed.items, r) else r == Rejected(parsed)
  {
    var parser := new HSParser(s);
    var parsed := parser.ReadPairs();
    if !parsed.Parsed? {
      return Rejected(parsed);
    }
    r := Store(parsed.items);
  }

  // ---------------------------------------------------------------- hstore_out

  /** The space hstore_out sets aside for one pair. */
  function Estimate(p: Pair): nat {
    6 + 2 * |p.key| + 2 + (if p.val.Null? then 2 else 2 * |p.val.text|)
  }

  function BufLen(ps: seq<Pair>, n: nat): nat
    requires n <= |ps|
  {
    if n == 0 then 0 else BufLen(ps, n - 1) + Estimate(ps[n - 1])
  }

  /** Null values among the first n pairs. */
  function Nulls(ps: seq<Pair>, n: nat): nat
    requires n <= |ps|
  {
    if n == 0 then 0 else Nulls(ps, n - 1) + if ps[n - 1].val.Null? then 1 else 0
  }

  /** Eight bytes for each pair, two for each null, and twice the string area. */
  lemma {:induction false} BufLenIs(ps: seq<Pair>, n: nat)
    requires n <= |ps|
    ensures BufLen(ps, n) == 8 * n + 2 * Nulls(ps, n) + 2 * PairStart(ps, n)
  {
    if n > 0 { BufLenIs(ps, n - 1); }
  }

  /** The estimate cannot overflow a 32-bit int. */
  lemma {:induction false} BufLenBound(ps: seq<Pair>, n: nat)
    requires n <= |ps|
    ensures BufLen(ps, n) <= 2 * (8 * n + PairStart(ps, n))
  {
    if n > 0 { BufLenBound(ps, n - 1); }
  }

  lemma {:induction false} BufLenPrefix(ps: seq<Pair>, i: nat, n: nat)
    requires i <= n <= |ps|
    ensures BufLen(ps, i) <= BufLen(ps, n)
  {
    if i < n { BufLenPrefix(ps, i, n - 1); }
  }

  /** One pair and the separator after it stay within the estimate. */
  lemma {:induction false} PairFits(p: Pair)
    ensures |T.PairText(p)| + 2 <= Estimate(p)
  {
  }

  method Emit(out: array<byte>, ptr: nat, bs: bytes) returns (ptr': nat)
    requires ptr + |bs| <= out.Length
    modifies out
    ensures ptr' == ptr + |bs| && out[..ptr'] == old(out[..ptr]) + bs
  {
    forall i | 0 <= i < |bs| { out[ptr + i] := bs[i]; }
    ptr' := ptr + |bs|;
  }

  /** cpw: appends src with quotes and backslashes escaped. */
  method CopyWord(out: array<byte>, ptr: nat, src: bytes) returns (ptr': nat)
    requires ptr + 2 * |src| <= out.Length
    modifies out
    ensures ptr <= ptr' <= ptr + 2 * |src| && out[..ptr'] == old(out[..ptr]) + T.Esc(src, 0)
  {
    ptr' := ptr;
    ghost var was := out[..ptr];
    var i := 0;
    while i < |src|
      invariant 0 <= i <= |src| && ptr <= ptr' <= ptr + 2 * i
      invariant out[..ptr'] + T.Esc(src, i) == was + T.Esc(src, 0)
    {
      ghost var done, rest := out[..ptr'], T.Esc(src, i + 1);
      if T.Special(src[i]) {
        ptr' := Emit(out, ptr', [T.BACKSLASH, src[i]]);
        assert done + ([T.BACKSLASH, src[i]] + rest) == (done + [T.BACKSLASH, src[i]]) + rest;
      } else {
        ptr' := Emit(out, ptr', [src[i]]);
        assert done + ([src[i]] + rest) == (done + [src[i]]) + rest;
      }
      i := i + 1;
    }
    assert out[..ptr'] + [] == out[..ptr'];
  }

  /** A quoted string. */
  method EmitQuoted(out: array<byte>, ptr: nat, src: bytes) returns (ptr': nat)
    requires ptr + 2 + 2 * |src| <= out.Length
    modifies out
    ensures ptr' == ptr + |T.Esc(src, 0)| + 2
    ensures out[..ptr'] == old(out[..ptr]) + ([T.QUOTE] + (T.Esc(src, 0) + [T.QUOTE]))
  {
    ghost var was := out[..ptr];
    ptr' := Emit(out, ptr, [T.QUOTE]);
    ptr' := CopyWord(out, ptr', src);
    ptr' := Emit(out, ptr', [T.QUOTE]);
    Regroup(was, [T.QUOTE], T.Esc(src, 0), [T.QUOTE]);
  }

  method EmitPair(out: array<byte>, ptr: nat, p: Pair) returns (ptr': nat)
    requires ptr + Estimate(p) <= out.Length
    modifies out
    ensures ptr' == ptr + |T.PairText(p)| && ptr' + 2 <= ptr + Estimate(p)
    ensures out[..ptr'] == old(out[..ptr]) + T.PairText(p)
  {
    ghost var was := out[..ptr];
    PairFits(p);
    ghost var k := [T.QUOTE] + (T.Esc(p.key, 0) + [T.QUOTE]);
    ptr' := EmitQuoted(out, ptr, p.key);
    ptr' := Emit(out, ptr', [T.EQUALS, T.GREATER]);
    if p.val.Null? {
      ptr' := Emit(out, ptr', T.NULL_TEXT);
    } else {
      ptr' := EmitQuoted(out, ptr', p.val.text);
    }
    Regroup(was, k, [T.EQUALS, T.GREATER], T.ValText(p.val));
  }

  datatype OutResult = Printed(text: bytes) | OutTooLarge

  method SumEstimates(hs: Mem, count: nat, ghost ps: seq<Pair>) returns (buflen: nat)
    requires Packed(hs, ps) && count == |ps|
    ensures buflen == BufLen(ps, count) <= 0x7FFF_FFFF
  {
    buflen := 0;
    for i := 0 to count
      invariant buflen == BufLen(ps, i)
    {
      var p := ReadPair(hs, i, ps);
      buflen := buflen + Estimate(p);
    }
    BufLenBound(ps, count);
  }

  method EmitNext(out: array<byte>, ptr: nat, hs: Mem, i: nat, count: nat, ghost ps: seq<Pair>) returns (ptr': nat)
    requires Packed(hs, ps) && i < count == |ps| && ptr <= BufLen(ps, i) <= out.Length == BufLen(ps, count)
    modifies out
    ensures ptr' + (if i + 1 == count then 2 else 0) <= BufLen(ps, i + 1) <= out.Length
    ensures out[..ptr'] + T.Print(ps, i + 1) == old(out[..ptr]) + T.Print(ps, i)
  {
    ghost var was := out[..ptr];
    BufLenPrefix(ps, i + 1, count);
    var p := ReadPair(hs, i, ps);
    ptr' := EmitPair(out, ptr, p);
    if i + 1 != count {
      ptr' := Emit(out, ptr', [T.COMMA, T.SPACE]);
    }
    Regroup(was, T.PairText(p), T.Separator(ps, i), T.Print(ps, i + 1));
  }

  lemma {:induction false} Regroup(a: bytes, b: bytes, c: bytes, d: bytes)
    ensures a + b + c + d == a + (b + (c + d))
  {
  }

  method EmitAll(out: array<byte>, hs: Mem, count: nat, ghost ps: seq<Pair>) returns (ptr: nat)
    requires Packed(hs, ps) && 0 < count == |ps| && out.Length == BufLen(ps, count)
    modifies out
    ensures ptr + 2 <= out.Length && out[..ptr] == T.Print(ps, 0)
  {
    ghost var whole := T.Print(ps, 0);
    ptr := 0;
    var i := 0;
    assert out[..0] == [];
    while i < count
      invariant 0 <= i <= count && ptr + (if i == count then 2 else 0) <= BufLen(ps, i) <= out.Length
      invariant out[..ptr] + T.Print(ps, i) == whole
    {
      ptr := EmitNext(out, ptr, hs, i, count, ps);
      i := i + 1;
    }
    assert out[..ptr] + [] == out[..ptr];
  }

  /** hstore_out: the text and its terminator fit in the buffer computed beforehand. */
  method Out(hs: Mem) returns (r: OutResult)
    requires Canonical(hs)
    ensures var ps := PairsOf(hs);
            r == if BufLen(ps, |ps|) > MAX_ALLOC then OutTooLarge else Printed(T.Print(ps, 0))
  {
    r := OutPacked(hs, PairsOf(hs));
  }

  method OutPacked(hs: Mem, ghost ps: seq<Pair>) returns (r: OutResult)
    requires Packed(hs, ps)
    ensures r == if BufLen(ps, |ps|) > MAX_ALLOC then OutTooLarge else Printed(T.Print(ps, 0))
  {
    var count := ReadCount(hs, ps);
    if count == 0 {
      return Printed([]);
    }
    var buflen := SumEstimates(hs, count, ps);
    if buflen > MAX_ALLOC {
      return OutTooLarge;
    }
    var out := new byte[buflen];
    var ptr := EmitAll(out, hs, count, ps);
    out[ptr] := T.NUL;
    return Printed(out[..ptr]);
  }

  // ---------------------------------------------------------------- round trip

  /** Removing duplicates from a strictly sorted list changes nothing. */
  lemma {:induction false} UniqueSorted(u: seq<Item>, ps: seq<Pair>)
    requires Sorted(ps) && UniqueOf(u, T.ItemsOf(ps, |ps|), |ps|)
    ensures PairsIn(u) == ps
  {
    SortedPairs(u);
    SameMaps(u, ps);
    SortedUnique(PairsIn(u), ps);
  }

  lemma {:induction false} SameMaps(u: seq<Item>, ps: seq<Pair>)
    requires Sorted(ps) && UniqueOf(u, T.ItemsOf(ps, |ps|), |ps|)
    ensures ToMap(PairsIn(u)) == ToMap(ps)
  {
    var m, n := ToMap(PairsIn(u)), ToMap(ps);
    forall k
      ensures (k in m <==> k in n) && (k in m ==> m[k] == n[k])
    {
      SameAssociation(u, ps, k);
    }
  }

  lemma {:induction false} SameAssociation(u: seq<Item>, ps: seq<Pair>, k: bytes)
    requires Sorted(ps) && UniqueOf(u, T.ItemsOf(ps, |ps|), |ps|)
    ensures var m, n := ToMap(PairsIn(u)), ToMap(ps); (k in m <==> k in n) && (k in m ==> m[k] == n[k])
  {
    UniqueGiven(u, T.ItemsOf(ps, |ps|), k);
    ItemsMap(ps, k);
  }

  lemma {:induction false} ItemsMap(ps: seq<Pair>, k: bytes)
    requires Sorted(ps)
    ensures var items := T.ItemsOf(ps, |ps|);
      && (HasKey(items, |items|, k) <==> k in ToMap(ps))
      && (forall v :: Given(items, Pair(k, v)) ==> k in ToMap(ps) && ToMap(ps)[k] == v)
  {
    var items := T.ItemsOf(ps, |ps|);
    forall i | 0 <= i < |ps|
      ensures items[i] == Item(ps[i], true) && ps[i].key in ToMap(ps) && ToMap(ps)[ps[i].key] == ps[i].val
    {
      T.ItemsAre(ps, |ps|, i);
      SortedLookup(ps, i);
    }
    ToMapKeys(ps, |ps|, k);
    if k in ToMap(ps) {
      var i :| 0 <= i < |ps| && ps[i].key == k;
      assert items[i].pair.key == k;
    }
  }

  /** No string contains a NUL. */
  ghost predicate TextOnly(ps: seq<Pair>) {
    forall i :: 0 <= i < |ps| ==> T.NulFree(ps[i].key) && (ps[i].val.Text? ==> T.NulFree(ps[i].val.text))
  }

  /** A string that was printed fits the word buffer that reads it. */
  lemma {:induction false} PrintedFits(ps: seq<Pair>, i: nat)
    requires i < |ps| && BufLen(ps, |ps|) <= MAX_ALLOC && TextOnly(ps)
    ensures T.Printable(ps[i])
  {
    BufLenPrefix(ps, i + 1, |ps|);
  }

  /**
    Printing and reading back.  When the text can be printed at all, reading it
    returns the same value, if and only if it has at most MAX_ITEMS pairs; with
    more the parser cannot enlarge its pair array.
   */
  method RoundTrip(hs: Mem) returns (text: OutResult, r: InResult)
    requires Canonical(hs) && TextOnly(PairsOf(hs))
    ensures text.Printed? <==> BufLen(PairsOf(hs), |PairsOf(hs)|) <= MAX_ALLOC
    ensures text.Printed? && |PairsOf(hs)| <= T.MAX_ITEMS ==> r == Read(hs)
    ensures text.Printed? && |PairsOf(hs)| > T.MAX_ITEMS ==> r == Rejected(T.OutOfMemory)
  {
    ghost var ps := PairsOf(hs);
    text := Out(hs);
    r := InTooLarge;
    if text.Printed? {
      forall i | 0 <= i < |ps|
        ensures T.Printable(ps[i])
      {
        PrintedFits(ps, i);
      }
      T.PrintParse(ps);
      r := In(text.text);
      if |ps| <= T.MAX_ITEMS {
        SameValue(hs, ps, r);
      }
    }
  }

  lemma {:induction false} SameValue(hs: Mem, ps: seq<Pair>, r: InResult)
    requires CanonicalFor(hs, ps) && |ps| <= T.MAX_ITEMS && Stored(T.ItemsOf(ps, |ps|), r)
    ensures r == Read(hs)
  {
    var items := T.ItemsOf(ps, |ps|);
    var u :| UniqueOf(u, items, |items|) && (r.InTooLarge? <==> !Fits(PairsIn(u)));
    UniqueSorted(u, ps);
    PairsOfUnique(hs, ps);
    var m := MapOf(r.hs);
    forall k
      ensures (k in m <==> k in ToMap(ps)) && (k in m ==> m[k] == ToMap(ps)[k])
    {
      ItemsMap(ps, k);
    }
    assert m == ToMap(ps);
    CanonicalUnique(r.hs, hs);
  }
}
