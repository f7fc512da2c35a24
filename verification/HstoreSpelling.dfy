/**
  Every text is spelled in some way, so the grammar decides every outcome of
  the parser.
 */
module HstoreSpelling {
  import opened Bytes
  import opened HstoreLayout
  import opened HstoreText
  import opened HstoreGrammar

  // ------------------------------------------------------- every text is spelled

  lemma {:induction false} FindBlanks(t: bytes) returns (b: bytes, u: bytes)
    ensures t == b + u && AllSpace(b) && !IsSpace(First(u))
    decreases |t|
  {
    b, u := [], t;
    if t != [] && IsSpace(t[0]) {
      b, u := FindBlanks(t[1..]);
      b := [t[0]] + b;
    }
  }

  /** A unit begins the text. */
  predicate HasUnit(t: bytes, quoted: bool, value: bool, first: bool) {
    if First(t) == BACKSLASH then |t| > 1 && t[1] != NUL else PlainOk(First(t), quoted, value, first)
  }

  function NextUnit(t: bytes): Unit
    requires t != [] && (t[0] == BACKSLASH ==> |t| > 1)
  {
    if t[0] == BACKSLASH then Escaped(t[1]) else Plain(t[0])
  }

  lemma {:induction false} TakeUnit(t: bytes, quoted: bool, value: bool, first: bool) returns (v: Unit, u: bytes)
    requires HasUnit(t, quoted, value, first)
    ensures t == UnitText(v) + u && UnitOk(v, quoted, value, first)
  {
    v := NextUnit(t);
    u := t[|UnitText(v)|..];
  }

  /** As many units as there are, but no more than the word buffer holds. */
  lemma {:induction false} FindUnits(us: seq<Unit>, t: bytes, quoted: bool, value: bool) returns (us': seq<Unit>, u: bytes)
    requires UnitsOk(us, quoted, value) && |us| < MAX_WORD
    ensures UnitsText(us) + t == UnitsText(us') + u && UnitsOk(us', quoted, value) && |us'| < MAX_WORD
    ensures HasUnit(u, quoted, value, us' == []) ==> |us'| + 1 == MAX_WORD
    decreases |t|
  {
    us', u := us, t;
    if HasUnit(t, quoted, value, us == []) && |us| + 1 < MAX_WORD {
      var v, rest := TakeUnit(t, quoted, value, us == []);
      Snoc(us, v);
      us', u := FindUnits(us + [v], rest, quoted, value);
      assert UnitsText(us) + (UnitText(v) + rest) == UnitsText(us) + UnitText(v) + rest;
    }
  }

  lemma {:induction false} Snoc(us: seq<Unit>, v: Unit)
    ensures UnitsText(us + [v]) == UnitsText(us) + UnitText(v)
  {
    assert (us + [v])[..|us|] == us;
  }

  datatype Found = Whole(quoted: bool, units: seq<Unit>) | Failed(w: Broken) | Missing

  function FoundText(f: Found): bytes {
    match f
    case Whole(quoted, us) => WordText(quoted, us)
    case Failed(w) => BrokenText(w)
    case Missing => []
  }

  /** What a word is, given the byte after it. */
  predicate FoundOk(f: Found, value: bool, next: byte) {
    match f
    case Whole(quoted, us) =>
      UnitsOk(us, quoted, value) && |us| < MAX_WORD && (quoted || (us != [] && Stops(next, value)))
    case Failed(w) => BrokenOk(w, value, next)
    case Missing => next == NUL || (!value && next == EQUALS)
  }

  /** How the units u1 after us go on, once there are no more of them. */
  lemma {:induction false} FindEnd(quoted: bool, us: seq<Unit>, u1: bytes, value: bool) returns (f: Found, u: bytes, e: bytes)
    requires UnitsOk(us, quoted, value) && |us| < MAX_WORD
    requires HasUnit(u1, quoted, value, us == []) ==> |us| + 1 == MAX_WORD
    requires us == [] && !quoted ==> !IsSpace(First(u1)) && First(u1) != QUOTE
    ensures u1 == e + u && FoundText(f) == if f.Missing? then [] else Quotes(quoted) + (UnitsText(us) + e)
    ensures f.Missing? ==> !quoted && us == [] && e == []
    ensures FoundOk(f, value, First(u))
  {
    if HasUnit(u1, quoted, value, us == []) {
      var v, rest := TakeUnit(u1, quoted, value, us == []);
      f, e, u := Failed(Long(quoted, us, v)), UnitText(v), rest;
    } else if First(u1) == BACKSLASH {
      f, e, u := Failed(Cut(quoted, us, true)), [BACKSLASH], u1[1..];
    } else if quoted && First(u1) == NUL {
      f, e, u := Failed(Cut(quoted, us, false)), [], u1;
    } else if quoted {
      f, e, u := Whole(quoted, us), [QUOTE], u1[1..];
    } else if us == [] {
      f, e, u := Missing, [], u1;
    } else {
      f, e, u := Whole(quoted, us), [], u1;
    }
  }

  lemma {:induction false} FindQuote(t: bytes) returns (quoted: bool, t1: bytes)
    ensures t == Quotes(quoted) + t1 && (!quoted ==> t1 == t && First(t) != QUOTE)
  {
    quoted := First(t) == QUOTE;
    t1 := if quoted then t[1..] else t;
  }

  lemma {:induction false} FindAllUnits(t: bytes, quoted: bool, value: bool) returns (us: seq<Unit>, u: bytes)
    ensures t == UnitsText(us) + u && UnitsOk(us, quoted, value) && |us| < MAX_WORD && (us == [] ==> u == t)
    ensures HasUnit(u, quoted, value, us == []) ==> |us| + 1 == MAX_WORD
  {
    us, u := FindUnits([], t, quoted, value);
    assert UnitsText([]) + t == t;
    if us == [] { assert UnitsText(us) + u == u; }
  }

  lemma {:induction false} FindWord(t: bytes, value: bool) returns (f: Found, u: bytes)
    requires !IsSpace(First(t))
    ensures t == FoundText(f) + u && FoundOk(f, value, First(u))
  {
    var quoted, t1 := FindQuote(t);
    var us, u1 := FindAllUnits(t1, quoted, value);
    var e;
    f, u, e := FindEnd(quoted, us, u1, value);
    Regroup(Quotes(quoted), UnitsText(us), e, u);
    if f.Missing? { assert t == u; }
  }

  /** A token, or no word after the spaces b, or a word that fails after them. */
  datatype Lead = Leads(t: Token) | None(b: bytes) | Fails(b: bytes, w: Broken)

  function LeadText(l: Lead): bytes {
    match l
    case Leads(t) => TokenText(t)
    case None(b) => b
    case Fails(b, w) => b + BrokenText(w)
  }

  predicate LeadOk(l: Lead, value: bool, next: byte) {
    match l
    case Leads(t) => TokenOk(t, value) && Closed(t, value, next) && !IsSpace(next)
    case None(b) => AllSpace(b) && (next == NUL || (!value && next == EQUALS))
    case Fails(b, w) => AllSpace(b) && BrokenOk(w, value, next)
  }

  lemma {:induction false} FindLead(t: bytes, value: bool) returns (l: Lead, u: bytes)
    ensures t == LeadText(l) + u && LeadOk(l, value, First(u))
  {
    var b, t1 := FindBlanks(t);
    var f, u1 := FindWord(t1, value);
    match f
    case Missing =>
      l, u := None(b), u1;
    case Failed(w) =>
      l, u := Fails(b, w), u1;
      assert b + (BrokenText(w) + u1) == b + BrokenText(w) + u1;
    case Whole(quoted, us) =>
      var after, u2 := FindBlanks(u1);
      l, u := Leads(Token(b, quoted, us, after)), u2;
      Regroup(b, WordText(quoted, us), after, u2);
  }

  lemma {:induction false} Regroup(a: bytes, b: bytes, c: bytes, d: bytes)
    ensures a + (b + (c + d)) == a + (b + c) + d
  {
  }

  /** What follows the arrow. */
  lemma {:induction false} FindValue(key: Token, t: bytes, n: nat) returns (more: bool, e: Entry, r: Rest, u: bytes)
    requires TokenOk(key, false) && n < MAX_ITEMS
    ensures more ==> TokenText(key) + (ARROW + t) == EntryText(e) + ([COMMA] + u) && EntryOk(e)
    ensures !more ==> TokenText(key) + (ARROW + t) == RestText(r) + u && RestOk(r, n, First(u))
  {
    var l, u1 := FindLead(t, true);
    more, e, r, u := false, Entry(key, key), NoValue(key, []), u1;
    Regroup(TokenText(key), ARROW, LeadText(l), u1);
    match l
    case None(b) => r := NoValue(key, b);
    case Fails(b, w) => r := BrokenValue(key, b, w);
    case Leads(val) =>
      e := Entry(key, val);
      more, r := First(u1) == COMMA, if First(u1) == NUL then Last(e) else Junk(e);
      if more {
        u := u1[1..];
        assert u1 == [COMMA] + u;
      }
  }

  /** What comes next: an entry with its comma, or the rest. */
  lemma {:induction false} FindEntry(t: bytes, n: nat) returns (more: bool, e: Entry, r: Rest, u: bytes)
    ensures more ==> n < MAX_ITEMS && t == EntryText(e) + ([COMMA] + u) && EntryOk(e)
    ensures !more ==> t == RestText(r) + u && RestOk(r, n, First(u))
  {
    var l, u1 := FindLead(t, false);
    var k := Token([], true, [], []);
    more, e, r, u := false, Entry(k, k), Blank([]), u1;
    match l
    case None(b) => r := if First(u) == NUL then Blank(b) else StrayEquals(b);
    case Fails(b, w) => r := BrokenKey(b, w);
    case Leads(key) =>
      if n >= MAX_ITEMS {
        r := TooMany(key);
      } else if First(u1) != EQUALS {
        r := NoArrow(key);
      } else if First(u1[1..]) != GREATER {
        r, u := HalfArrow(key), u1[1..];
        assert TokenText(key) + u1 == TokenText(key) + [EQUALS] + u;
      } else {
        assert u1 == ARROW + u1[2..];
        more, e, r, u := FindValue(key, u1[2..], n);
      }
  }

  lemma {:induction false} FindSpelling(t: bytes, n: nat) returns (es: seq<Entry>, r: Rest, u: bytes)
    requires n <= MAX_ITEMS
    ensures t == EntriesText(es) + (RestText(r) + u) && EntriesOk(es) && n + |es| <= MAX_ITEMS
    ensures RestOk(r, n + |es|, First(u))
    decreases |t|
  {
    var more, e, r1, u1 := FindEntry(t, n);
    if more {
      es, r, u := FindSpelling(u1, n + 1);
      Prepend(e, es, RestText(r) + u);
      es := [e] + es;
    } else {
      es, r, u := [], r1, u1;
    }
  }

  lemma {:induction false} Prepend(e: Entry, es: seq<Entry>, u: bytes)
    requires EntryOk(e) && EntriesOk(es)
    ensures EntriesOk([e] + es) && EntriesText([e] + es) + u == EntryText(e) + ([COMMA] + (EntriesText(es) + u))
  {
    assert ([e] + es)[1..] == es;
    Regroup(EntryText(e), [COMMA], EntriesText(es), u);
  }

  /**
    The parser and the grammar agree on every text: it has exactly one outcome
    as spelled, and that is what the parser returns.
   */
  lemma {:induction false} ParseIff(s: bytes, parsed: Parsed)
    ensures Stands(s, parsed) <==> parsed == Parse(s, 0, WKey, [], [])
  {
    forall es, r, u | SpelledAs(s, es, r, u, parsed)
      ensures parsed == Parse(s, 0, WKey, [], [])
    {
      SpellingDecides(s, es, r, u);
    }
    var es, r, u := FindSpelling(s, 0);
    assert Spelled(s, es, r, u);
    SpellingDecides(s, es, r, u);
    assert SpelledAs(s, es, r, u, Parse(s, 0, WKey, [], []));
  }

  // ------------------------------------------------------------------ one word

  /** What get_val returns for a word that ends at e. */
  predicate WordIs(f: Found, e: nat, next: byte, r: Got) {
    match f
    case Whole(quoted, us) =>
      && r.GotWord? && r.word == Meant(us) && r.escaped == quoted
      && r.pos + (if !quoted && IsSpace(next) then 0 else 1) == e
    case Failed(w) => r == if w.Long? then NoMemory else BadEnd
    case Missing => r == if next == NUL then GotEnd else BadSyntax(e)
  }

  predicate WordAt(s: bytes, p: nat, b: bytes, f: Found, value: bool, r: Got) {
    var e := p + |b + FoundText(f)|;
    Holds(s, p, b + FoundText(f)) && AllSpace(b) && FoundOk(f, value, At(s, e)) && WordIs(f, e, At(s, e), r)
  }

  /** After spaces from p on there is a word, or what keeps it from being one, with this result. */
  ghost predicate WordStands(s: bytes, p: nat, value: bool, r: Got) { exists b, f :: WordAt(s, p, b, f, value, r) }

  lemma {:induction false} WordDecides(s: bytes, p: nat, b: bytes, f: Found, value: bool, r: Got)
    requires WordAt(s, p, b, f, value, r)
    ensures GetVal(s, p, value, WaitVal, [], false) == r
  {
    Split(s, p, b, FoundText(f));
    match f
    case Whole(quoted, us) =>
      SkipBlanks(s, p, b, value);
      ReadSpelled(s, p + |b|, quoted, us, value);
    case Failed(w) => ReadBroken(s, p, b, w, value);
    case Missing => SkipBlanks(s, p, b, value);
  }

  function ResultOf(f: Found, e: nat, next: byte): (r: Got)
    requires f.Whole? && !(!f.quoted && IsSpace(next)) ==> e > 0
    ensures WordIs(f, e, next, r)
  {
    match f
    case Whole(quoted, us) => GotWord(if !quoted && IsSpace(next) then e else e - 1, Meant(us), quoted)
    case Failed(w) => if w.Long? then NoMemory else BadEnd
    case Missing => if next == NUL then GotEnd else BadSyntax(e)
  }

  lemma {:induction false} WordFills(f: Found, value: bool, next: byte)
    requires FoundOk(f, value, next) && f.Whole?
    ensures |FoundText(f)| > 0
  {
    if !f.quoted { assert UnitsText(f.units) != []; }
  }

  lemma {:induction false} FindAt(s: bytes, p: nat, value: bool) returns (b: bytes, f: Found, r: Got)
    requires p <= |s|
    ensures WordAt(s, p, b, f, value, r)
  {
    var u, t;
    b, u := FindBlanks(s[p..]);
    f, t := FindWord(u, value);
    assert s == s[..p] + ((b + FoundText(f)) + t);
    TwoPieces(s, s[..p], b + FoundText(f), t);
    if f.Whole? { WordFills(f, value, First(t)); }
    r := ResultOf(f, p + |b + FoundText(f)|, First(t));
  }

  /** get_val at any position returns what the grammar says, and only that. */
  lemma {:induction false} WordIff(s: bytes, p: nat, value: bool, r: Got)
    requires p <= |s|
    ensures WordStands(s, p, value, r) <==> r == GetVal(s, p, value, WaitVal, [], false)
  {
    forall b, f | WordAt(s, p, b, f, value, r)
      ensures r == GetVal(s, p, value, WaitVal, [], false)
    {
      WordDecides(s, p, b, f, value, r);
    }
    var b, f, found := FindAt(s, p, value);
    WordDecides(s, p, b, f, value, found);
  }

  // --------------------------------------------------------------- printed text

  /** A backslash before every quote and backslash, and nowhere else. */
  function Escape(c: byte): Unit { if c == QUOTE || c == BACKSLASH then Escaped(c) else Plain(c) }

  function Escapes(w: bytes): (us: seq<Unit>)
    ensures |us| == |w| && forall i :: 0 <= i < |w| ==> us[i] == Escape(w[i])
  {
    if w == [] then [] else Escapes(w[..|w| - 1]) + [Escape(w[|w| - 1])]
  }

  lemma {:induction false} EscSnoc(w: bytes, i: nat, c: byte)
    requires i <= |w|
    ensures Esc(w + [c], i) == Esc(w, i) + UnitText(Escape(c))
    decreases |w| - i
  {
    if i < |w| { EscSnoc(w, i + 1, c); } else { assert Esc(w + [c], i + 1) == []; }
  }

  lemma {:induction false} EscIs(w: bytes)
    ensures Esc(w, 0) == UnitsText(Escapes(w))
    decreases |w|
  {
    if w != [] {
      var n := |w| - 1;
      EscIs(w[..n]);
      EscSnoc(w[..n], 0, w[n]);
      Snoc(Escapes(w[..n]), Escape(w[n]));
      assert w == w[..n] + [w[n]];
    }
  }

  function Quoted(w: bytes): Token { Token([], true, Escapes(w), []) }

  /** How a pair is printed: key and value in quotes, without spaces, and NULL without quotes. */
  function PrintedEntry(p: Pair): Entry {
    var nul := Token([], false, [Plain(78), Plain(85), Plain(76), Plain(76)], []);
    Entry(Quoted(p.key), if p.val.Null? then nul else Quoted(p.val.text))
  }

  lemma {:induction false} QuotedText(w: bytes)
    ensures TokenText(Quoted(w)) == [QUOTE] + (Esc(w, 0) + [QUOTE])
  {
    EscIs(w);
  }

  lemma {:induction false} NullTokenText()
    ensures UnitsText([Plain(78), Plain(85), Plain(76), Plain(76)]) == NULL_TEXT
  {
    var us := [Plain(78), Plain(85), Plain(76), Plain(76)];
    assert us[..1] == [] + [us[0]] && us[..2] == us[..1] + [us[1]] && us[..3] == us[..2] + [us[2]] && us == us[..3] + [us[3]];
    Snoc([], us[0]);
    Snoc(us[..1], us[1]);
    Snoc(us[..2], us[2]);
    Snoc(us[..3], us[3]);
  }

  lemma {:induction false} PairTextIs(p: Pair)
    ensures PairText(p) == EntryText(PrintedEntry(p))
  {
    QuotedText(p.key);
    if p.val.Text? { QuotedText(p.val.text); } else { NullTokenText(); }
  }

  function Comma(ps: seq<Pair>, i: nat): bytes { if i < |ps| then [44, 32] else [] }

  lemma {:induction false} PrintMore(ps: seq<Pair>, i: nat, x: Pair, t: bytes)
    requires i <= |ps| && t == PairText(x)
    ensures Print(ps + [x], i) == Print(ps, i) + (Comma(ps, i) + t)
    decreases |ps| - i
  {
    var qs := ps + [x];
    if i == |ps| {
      assert Print(qs, i + 1) == [];
    } else {
      PrintMore(ps, i + 1, x, t);
      assert qs[i] == ps[i];
      Spread(PairText(ps[i]), Print(ps, i + 1), Comma(ps, i + 1), t);
    }
  }

  lemma {:induction false} Spread(a: bytes, p: bytes, c: bytes, t: bytes)
    ensures a + ([44, 32] + (p + (c + t))) == a + ([44, 32] + p) + (c + t)
    ensures p == c == [] ==> a + ([44, 32] + (p + (c + t))) == a + ([] + p) + ([44, 32] + t)
  {
  }

  /** Printed pairs are separated by a comma and one space. */
  lemma {:induction false} PrintSnoc(ps: seq<Pair>, x: Pair)
    ensures Print(ps + [x], 0) == Print(ps, 0) + ((if ps == [] then [] else [44, 32]) + EntryText(PrintedEntry(x)))
  {
    PairTextIs(x);
    PrintMore(ps, 0, x, PairText(x));
  }
}
