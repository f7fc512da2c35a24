/**
  The text form of hstore as functions: the two-level automaton that reads it
  (get_val inside parse_hstore) and the printer, with the round trip between
  them.  A C string is its bytes followed by a NUL, which is what reading
  position |s| returns; nothing may be read beyond.
 */
module HstoreText {
  import opened Bytes
  import opened HstoreLayout
  import opened HstoreUnique

  const QUOTE: byte := 34
  const BACKSLASH: byte := 92
  const EQUALS: byte := 61
  const GREATER: byte := 62
  const COMMA: byte := 44
  const SPACE: byte := 32
  const NUL: byte := 0

  /** A word buffer or pair array that would have to grow past these is an allocation error. */
  const MAX_WORD: nat := 0x2000_0000
  const MAX_ITEMS: nat := 0x100_0000

  function At(s: bytes, p: nat): byte
    requires p <= |s|
  {
    if p < |s| then s[p] else NUL
  }

  /** scanner_isspace */
  predicate IsSpace(c: byte) { c == 32 || c == 9 || c == 10 || c == 13 || c == 11 || c == 12 }

  // --------------------------------------------------------------------- words

  datatype WordState = WaitVal | InVal | InEscVal | WaitEscIn | WaitEscEscIn

  /** Word: the pointer where get_val left it, the bytes, and whether they were quoted. */
  datatype Got = GotWord(pos: nat, word: bytes, escaped: bool) | GotEnd | BadSyntax(at: nat) | BadEnd | NoMemory

  /** get_val from pointer p, in state st, with the bytes collected so far. */
  function GetVal(s: bytes, p: nat, ignoreeq: bool, st: WordState, word: bytes, escaped: bool): (r: Got)
    requires p <= |s| && (st == InVal ==> p > 0)
    ensures r.GotWord? ==> r.pos < |s| && r.pos + 1 >= p && (st != InVal ==> r.pos >= p)
    decreases |s| - p, s, word
  {
    var c := At(s, p);
    match st
    case WaitVal =>
      if c == QUOTE then GetVal(s, p + 1, ignoreeq, InEscVal, word, true)
      else if c == NUL then GotEnd
      else if c == EQUALS && !ignoreeq then BadSyntax(p)
      else if c == BACKSLASH then GetVal(s, p + 1, ignoreeq, WaitEscIn, word, escaped)
      else if !IsSpace(c) then GetVal(s, p + 1, ignoreeq, InVal, word + [c], escaped)
      else GetVal(s, p + 1, ignoreeq, WaitVal, word, escaped)
    case InVal =>
      if c == BACKSLASH then GetVal(s, p + 1, ignoreeq, WaitEscIn, word, escaped)
      else if (c == EQUALS && !ignoreeq) || (c == COMMA && ignoreeq) then GotWord(p - 1, word, escaped)
      else if IsSpace(c) then GotWord(p, word, escaped)
      else if c == NUL then GotWord(p - 1, word, escaped)
      else if |word| + 1 >= MAX_WORD then NoMemory
      else GetVal(s, p + 1, ignoreeq, InVal, word + [c], escaped)
    case InEscVal =>
      if c == BACKSLASH then GetVal(s, p + 1, ignoreeq, WaitEscEscIn, word, escaped)
      else if c == QUOTE then GotWord(p, word, escaped)
      else if c == NUL then BadEnd
      else if |word| + 1 >= MAX_WORD then NoMemory
      else GetVal(s, p + 1, ignoreeq, InEscVal, word + [c], escaped)
    case WaitEscIn =>
      if c == NUL then BadEnd
      else if |word| + 1 >= MAX_WORD then NoMemory
      else GetVal(s, p + 1, ignoreeq, InVal, word + [c], escaped)
    case WaitEscEscIn =>
      if c == NUL then BadEnd
      else if |word| + 1 >= MAX_WORD then NoMemory
      else GetVal(s, p + 1, ignoreeq, InEscVal, word + [c], escaped)
  }

  // --------------------------------------------------------------------- pairs

  datatype PairState = WKey | WEq | WGt | WVal | WDel

  datatype Parsed =
    | Parsed(items: seq<Item>)
    | SyntaxError(at: nat)
    | UnexpectedEnd
    | KeyTooLong
    | ValueTooLong
    | OutOfMemory

  function Lower(c: byte): byte { if 65 <= c <= 90 then c + 32 else c }

  /** An unquoted four-byte word that spells null in any case. */
  predicate IsNullWord(w: bytes) {
    |w| == 4 && Lower(w[0]) == 110 && Lower(w[1]) == 117 && Lower(w[2]) == 108 && Lower(w[3]) == 108
  }

  function Failure(g: Got): Parsed
    requires g.BadSyntax? || g.BadEnd? || g.NoMemory?
  {
    match g
    case BadSyntax(at) => SyntaxError(at)
    case BadEnd => UnexpectedEnd
    case NoMemory => OutOfMemory
  }

  /** parse_hstore from pointer p in state st, with the pairs and the key collected so far. */
  function Parse(s: bytes, p: nat, st: PairState, key: bytes, items: seq<Item>): Parsed
    requires p <= |s|
    decreases |s| - p, s, items
  {
    var c := At(s, p);
    match st
    case WKey =>
      var g := GetVal(s, p, false, WaitVal, [], false);
      if g.GotEnd? then Parsed(items)
      else if !g.GotWord? then Failure(g)
      else if |items| >= MAX_ITEMS then OutOfMemory
      else if |g.word| > MAX_LEN then KeyTooLong
      else Parse(s, g.pos + 1, WEq, g.word, items)
    case WEq =>
      if c == EQUALS then Parse(s, p + 1, WGt, key, items)
      else if c == NUL then UnexpectedEnd
      else if !IsSpace(c) then SyntaxError(p)
      else Parse(s, p + 1, WEq, key, items)
    case WGt =>
      if c == GREATER then Parse(s, p + 1, WVal, key, items)
      else if c == NUL then UnexpectedEnd
      else SyntaxError(p)
    case WVal =>
      var g := GetVal(s, p, true, WaitVal, [], false);
      if g.GotEnd? then UnexpectedEnd
      else if !g.GotWord? then Failure(g)
      else if |g.word| > MAX_LEN then ValueTooLong
      else Parse(s, g.pos + 1, WDel, [], items + [ParsedItem(key, g.word, g.escaped)])
    case WDel =>
      if c == COMMA then Parse(s, p + 1, WKey, [], items)
      else if c == NUL then Parsed(items)
      else if !IsSpace(c) then SyntaxError(p)
      else Parse(s, p + 1, WDel, [], items)
  }

  function ParsedItem(key: bytes, word: bytes, escaped: bool): Item {
    Item(Pair(key, if !escaped && IsNullWord(word) then Null else Text(word)), true)
  }

  // ------------------------------------------------------------------- printer

  predicate Special(c: byte) { c == QUOTE || c == BACKSLASH }

  /** cpw: the bytes of w from i on, with quotes and backslashes escaped. */
  function Esc(w: bytes, i: nat): (e: bytes)
    requires i <= |w|
    ensures |w| - i <= |e| <= 2 * (|w| - i)
    decreases |w| - i
  {
    if i == |w| then []
    else (if Special(w[i]) then [BACKSLASH, w[i]] else [w[i]]) + Esc(w, i + 1)
  }

  const NULL_TEXT: bytes := [78, 85, 76, 76]

  function ValText(v: Value): bytes {
    if v.Null? then NULL_TEXT else [QUOTE] + (Esc(v.text, 0) + [QUOTE])
  }

  function Separator(ps: seq<Pair>, i: nat): bytes {
    if i + 1 < |ps| then [COMMA, SPACE] else []
  }

  /** The text of one pair. */
  function PairText(p: Pair): bytes {
    [QUOTE] + (Esc(p.key, 0) + [QUOTE]) + ([EQUALS, GREATER] + ValText(p.val))
  }

  /** hstore_out from pair i on. */
  function Print(ps: seq<Pair>, i: nat): bytes
    requires i <= |ps|
    decreases |ps| - i, ps
  {
    if i == |ps| then [] else PairText(ps[i]) + (Separator(ps, i) + Print(ps, i + 1))
  }

  // ---------------------------------------------------------------- round trip

  predicate NulFree(w: bytes) { forall i :: 0 <= i < |w| ==> w[i] != NUL }

  predicate Printable(p: Pair) {
    && NulFree(p.key) && |p.key| < MAX_WORD
    && (p.val.Text? ==> NulFree(p.val.text) && |p.val.text| < MAX_WORD)
  }

  /** What follows position p is t and then u. */
  predicate Reads(s: bytes, p: nat, t: bytes, u: bytes) { p <= |s| && s[p..] == t + u }

  lemma {:induction false} ReadsNext(s: bytes, p: nat, t: bytes, t': bytes, u: bytes)
    requires Reads(s, p, t + t', u)
    ensures Reads(s, p, t, t' + u) && p + |t| <= |s| && Reads(s, p + |t|, t', u)
    ensures forall i :: 0 <= i < |t| ==> At(s, p + i) == t[i]
  {
    assert t + t' + u == t + (t' + u);
    assert s[p + |t|..] == s[p..][|t|..];
    forall i | 0 <= i < |t|
      ensures At(s, p + i) == t[i]
    {
      assert s[p + i] == s[p..][i];
    }
  }

  /** Reading back an escaped word up to its closing quote. */
  lemma {:induction false} ReadEsc(s: bytes, p: nat, eq: bool, w: bytes, i: nat, u: bytes)
    requires i <= |w| && NulFree(w) && |w| < MAX_WORD && Reads(s, p, Esc(w, i), [QUOTE] + u)
    ensures p + |Esc(w, i)| < |s| && Reads(s, p + |Esc(w, i)| + 1, u, [])
    ensures GetVal(s, p, eq, InEscVal, w[..i], true) == GotWord(p + |Esc(w, i)|, w, true)
    decreases |w| - i
  {
    if i == |w| {
      ReadsNext(s, p, [QUOTE], u, []);
      assert w[..i] == w;
    } else {
      var h := if Special(w[i]) then [BACKSLASH, w[i]] else [w[i]];
      ReadsNext(s, p, h, Esc(w, i + 1), [QUOTE] + u);
      ReadEsc(s, p + |h|, eq, w, i + 1, u);
      assert w[..i] + [w[i]] == w[..i + 1];
      if Special(w[i]) {
        assert At(s, p + 0) == BACKSLASH && At(s, p + 1) == w[i];
      } else {
        assert At(s, p + 0) == w[i];
      }
    }
  }

  lemma {:induction false} ReadQuoted(s: bytes, p: nat, eq: bool, w: bytes, u: bytes)
    requires NulFree(w) && |w| < MAX_WORD && Reads(s, p, [QUOTE] + (Esc(w, 0) + [QUOTE]), u)
    ensures p + |Esc(w, 0)| + 2 <= |s| && Reads(s, p + |Esc(w, 0)| + 2, u, [])
    ensures GetVal(s, p, eq, WaitVal, [], false) == GotWord(p + |Esc(w, 0)| + 1, w, true)
  {
    ReadsNext(s, p, [QUOTE], Esc(w, 0) + [QUOTE], u);
    ReadsNext(s, p + 1, Esc(w, 0), [QUOTE], u);
    ReadEsc(s, p + 1, eq, w, 0, u);
    assert At(s, p + 0) == QUOTE && w[..0] == [];
  }

  /** The word NULL ends before a comma or at the end of the text. */
  lemma {:induction false} ReadNull(s: bytes, p: nat, u: bytes)
    requires Reads(s, p, NULL_TEXT, u) && (u == [] || u[0] == COMMA)
    ensures p + 4 <= |s| && Reads(s, p + 4, u, [])
    ensures GetVal(s, p, true, WaitVal, [], false) == GotWord(p + 3, NULL_TEXT, false)
  {
    var t := NULL_TEXT;
    assert t == t + [];
    ReadsNext(s, p, t, [], u);
    assert At(s, p + 0) == t[0] && At(s, p + 1) == t[1] && At(s, p + 2) == t[2] && At(s, p + 3) == t[3];
    assert s[p + 4..] == u;
    assert At(s, p + 4) == if u == [] then NUL else COMMA;
    assert GetVal(s, p + 4, true, InVal, t[..4], false) == GotWord(p + 3, t, false);
    assert t[..3] + [t[3]] == t[..4] && t[..2] + [t[2]] == t[..3] && t[..1] + [t[1]] == t[..2] && [] + [t[0]] == t[..1];
    assert GetVal(s, p + 3, true, InVal, t[..3], false) == GotWord(p + 3, t, false);
    assert GetVal(s, p + 2, true, InVal, t[..2], false) == GotWord(p + 3, t, false);
    assert GetVal(s, p + 1, true, InVal, t[..1], false) == GotWord(p + 3, t, false);
  }

  lemma {:induction false} ReadVal(s: bytes, p: nat, key: bytes, v: Value, u: bytes)
    requires v.Text? ==> NulFree(v.text) && |v.text| < MAX_WORD
    requires Reads(s, p, ValText(v), u) && (u == [] || u[0] == COMMA)
    ensures var q := p + |ValText(v)|; q <= |s| && Reads(s, q, u, [])
    ensures var g := GetVal(s, p, true, WaitVal, [], false);
      && g.GotWord? && g.pos + 1 == p + |ValText(v)|
      && |g.word| <= MAX_LEN && ParsedItem(key, g.word, g.escaped) == Item(Pair(key, v), true)
  {
    if v.Null? {
      ReadNull(s, p, u);
    } else {
      ReadQuoted(s, p, true, v.text, u);
    }
  }

  lemma {:induction false} ParseKey(s: bytes, p: nat, k: bytes, u: bytes, items: seq<Item>) returns (q: nat)
    requires NulFree(k) && |k| < MAX_WORD && Reads(s, p, [QUOTE] + (Esc(k, 0) + [QUOTE]), u)
    ensures q <= |s| && Reads(s, q, u, [])
    ensures Parse(s, p, WKey, [], items) == if |items| < MAX_ITEMS then Parse(s, q, WEq, k, items) else OutOfMemory
  {
    ReadQuoted(s, p, false, k, u);
    q := p + |Esc(k, 0)| + 2;
  }

  lemma {:induction false} ParseArrow(s: bytes, p: nat, u: bytes, key: bytes, items: seq<Item>)
    requires Reads(s, p, [EQUALS, GREATER], u)
    ensures p + 2 <= |s| && Reads(s, p + 2, u, [])
    ensures Parse(s, p, WEq, key, items) == Parse(s, p + 2, WVal, key, items)
  {
    var t := [EQUALS, GREATER];
    assert t == t + [];
    ReadsNext(s, p, t, [], u);
    assert At(s, p + 0) == EQUALS && At(s, p + 1) == GREATER;
    assert s[p + 2..] == u;
    assert Parse(s, p + 1, WGt, key, items) == Parse(s, p + 2, WVal, key, items);
  }

  lemma {:induction false} ParseVal(s: bytes, p: nat, x: Pair, u: bytes, items: seq<Item>) returns (q: nat)
    requires Printable(x) && Reads(s, p, ValText(x.val), u) && (u == [] || u[0] == COMMA)
    ensures q <= |s| && Reads(s, q, u, [])
    ensures Parse(s, p, WVal, x.key, items) == Parse(s, q, WDel, [], items + [Item(x, true)])
  {
    ReadVal(s, p, x.key, x.val, u);
    q := p + |ValText(x.val)|;
  }

  lemma {:induction false} ReadsSplit(s: bytes, p: nat, t: bytes, t': bytes)
    requires Reads(s, p, t + t', [])
    ensures Reads(s, p, t, t')
  {
  }

  lemma {:induction false} ParseKeyArrow(s: bytes, p: nat, k: bytes, u: bytes, items: seq<Item>) returns (q: nat)
    requires NulFree(k) && |k| < MAX_WORD
    requires Reads(s, p, [QUOTE] + (Esc(k, 0) + [QUOTE]), [EQUALS, GREATER] + u)
    ensures q <= |s| && Reads(s, q, u, [])
    ensures Parse(s, p, WKey, [], items) == if |items| < MAX_ITEMS then Parse(s, q, WVal, k, items) else OutOfMemory
  {
    q := ParseKey(s, p, k, [EQUALS, GREATER] + u, items);
    ReadsSplit(s, q, [EQUALS, GREATER], u);
    ParseArrow(s, q, u, k, items);
    q := q + 2;
  }

  lemma {:induction false} PairReads(s: bytes, p: nat, x: Pair, u: bytes)
    requires Reads(s, p, PairText(x), u)
    ensures Reads(s, p, [QUOTE] + (Esc(x.key, 0) + [QUOTE]), [EQUALS, GREATER] + (ValText(x.val) + u))
  {
    var k, a, v := [QUOTE] + (Esc(x.key, 0) + [QUOTE]), [EQUALS, GREATER], ValText(x.val);
    assert k + (a + v) + u == k + (a + (v + u));
  }

  /** Parsing one printed pair: one more than the pair array can hold is an error. */
  lemma {:induction false} ParsePair(s: bytes, p: nat, x: Pair, u: bytes, items: seq<Item>) returns (q: nat)
    requires Printable(x) && Reads(s, p, PairText(x), u) && (u == [] || u[0] == COMMA)
    ensures q <= |s| && Reads(s, q, u, [])
    ensures Parse(s, p, WKey, [], items) ==
            if |items| < MAX_ITEMS then Parse(s, q, WDel, [], items + [Item(x, true)]) else OutOfMemory
  {
    PairReads(s, p, x, u);
    var v := ValText(x.val);
    q := ParseKeyArrow(s, p, x.key, v + u, items);
    ReadsSplit(s, q, v, u);
    q := ParseVal(s, q, x, u, items);
  }

  lemma {:induction false} SkipSpace(s: bytes, p: nat, items: seq<Item>)
    requires p < |s| && s[p] == SPACE
    ensures Parse(s, p, WKey, [], items) == Parse(s, p + 1, WKey, [], items)
  {
  }

  /** Comma and space after a pair. */
  lemma {:induction false} ParseSeparator(s: bytes, p: nat, u: bytes, items: seq<Item>)
    requires Reads(s, p, [COMMA, SPACE], u)
    ensures p + 2 <= |s| && Reads(s, p + 2, u, [])
    ensures Parse(s, p, WDel, [], items) == Parse(s, p + 2, WKey, [], items)
  {
    var t := [COMMA, SPACE];
    assert t == t + [];
    ReadsNext(s, p, t, [], u);
    assert At(s, p + 0) == COMMA && At(s, p + 1) == SPACE;
    assert s[p + 2..] == u;
    SkipSpace(s, p + 1, items);
  }

  /** What is left to read when the text from pair i on is read. */
  predicate PairReadable(s: bytes, p: nat, ps: seq<Pair>, i: nat)
    requires i < |ps|
  {
    Reads(s, p, PairText(ps[i]), if i + 1 < |ps| then [COMMA, SPACE] + Print(ps, i + 1) else [])
  }

  lemma {:induction false} PrintReadable(s: bytes, p: nat, ps: seq<Pair>, i: nat)
    requires i < |ps| && Reads(s, p, Print(ps, i), [])
    ensures PairReadable(s, p, ps, i)
  {
    var t, u := PairText(ps[i]), Separator(ps, i) + Print(ps, i + 1);
    assert i + 1 == |ps| ==> u == [];
    ReadsSplit(s, p, t, u);
  }

  /** A pair that is followed by another one. */
  lemma {:induction false} ParseFirst(s: bytes, p: nat, ps: seq<Pair>, i: nat, items: seq<Item>) returns (q: nat)
    requires i + 1 < |ps| && Printable(ps[i]) && PairReadable(s, p, ps, i)
    ensures q <= |s| && Reads(s, q, Print(ps, i + 1), [])
    ensures Parse(s, p, WKey, [], items) ==
            if |items| < MAX_ITEMS then Parse(s, q, WKey, [], items + [Item(ps[i], true)]) else OutOfMemory
  {
    var x, t := ps[i], Print(ps, i + 1);
    q := ParsePair(s, p, x, [COMMA, SPACE] + t, items);
    ReadsSplit(s, q, [COMMA, SPACE], t);
    ParseSeparator(s, q, t, items + [Item(x, true)]);
    q := q + 2;
  }

  lemma {:induction false} ParseLast(s: bytes, p: nat, ps: seq<Pair>, i: nat, items: seq<Item>)
    requires i + 1 == |ps| && Printable(ps[i]) && PairReadable(s, p, ps, i)
    ensures Parse(s, p, WKey, [], items) == if |items| < MAX_ITEMS then Parsed(items + [Item(ps[i], true)]) else OutOfMemory
  {
    var q := ParsePair(s, p, ps[i], [], items);
    assert q == |s|;
  }

  /** The items the parser makes of the pairs before position n. */
  function ItemsOf(ps: seq<Pair>, n: nat): (u: seq<Item>)
    requires n <= |ps|
    ensures |u| == n
  {
    if n == 0 then [] else ItemsOf(ps, n - 1) + [Item(ps[n - 1], true)]
  }

  lemma {:induction false} ItemsAre(ps: seq<Pair>, n: nat, i: nat)
    requires i < n <= |ps|
    ensures ItemsOf(ps, n)[i] == Item(ps[i], true)
  {
    if i < n - 1 { ItemsAre(ps, n - 1, i); }
  }

  /** What the parser makes of printed pairs. */
  function Reparsed(ps: seq<Pair>): Parsed {
    if |ps| <= MAX_ITEMS then Parsed(ItemsOf(ps, |ps|)) else OutOfMemory
  }

  lemma {:induction false} ParsePrint(s: bytes, p: nat, ps: seq<Pair>, i: nat)
    requires i < |ps| && i <= MAX_ITEMS && Reads(s, p, Print(ps, i), [])
    requires forall j :: 0 <= j < |ps| ==> Printable(ps[j])
    ensures Parse(s, p, WKey, [], ItemsOf(ps, i)) == Reparsed(ps)
    decreases |ps| - i
  {
    PrintReadable(s, p, ps, i);
    if i + 1 < |ps| {
      var q := ParseFirst(s, p, ps, i, ItemsOf(ps, i));
      if i < MAX_ITEMS { ParsePrint(s, q, ps, i + 1); }
    } else {
      ParseLast(s, p, ps, i, ItemsOf(ps, i));
    }
  }

  /**
    Reading what was printed gives back the pairs, exactly when there are no more
    of them than the parser's pair array can grow to.
   */
  lemma {:induction false} PrintParse(ps: seq<Pair>)
    requires forall j :: 0 <= j < |ps| ==> Printable(ps[j])
    ensures Parse(Print(ps, 0), 0, WKey, [], []) == Reparsed(ps)
  {
    var s := Print(ps, 0);
    if |ps| > 0 {
      assert s[0..] == s + [];
      ParsePrint(s, 0, ps, 0);
    }
  }
}
