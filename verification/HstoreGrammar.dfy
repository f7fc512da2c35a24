/**
  The text form of hstore as a grammar: how words, pairs and lists are spelled
  and, for a text that is no list, what is wrong with it.  The automaton of
  HstoreText gives every text exactly the outcome of its spelling.
 */
module HstoreGrammar {
  import opened Bytes
  import opened HstoreLayout
  import opened HstoreUnique
  import opened HstoreText

  // ------------------------------------------------------------------ spelling

  /** A byte written as itself, or after a backslash. */
  datatype Unit = Plain(c: byte) | Escaped(c: byte)

  function UnitText(v: Unit): bytes { if v.Plain? then [v.c] else [BACKSLASH, v.c] }

  function UnitsText(us: seq<Unit>): bytes {
    if us == [] then [] else UnitsText(us[..|us| - 1]) + UnitText(us[|us| - 1])
  }

  /** The bytes the units stand for. */
  function Meant(us: seq<Unit>): (w: bytes)
    ensures |w| == |us|
  {
    if us == [] then [] else Meant(us[..|us| - 1]) + [us[|us| - 1].c]
  }

  /**
    The bytes that stand for themselves: in quotes all but the quote; outside
    all but spaces and the byte that ends the word, which is an equals sign after
    a key and a comma after a value.  A word outside quotes does not begin with a
    quote, and a value may begin with a comma.
   */
  predicate PlainOk(c: byte, quoted: bool, value: bool, first: bool) {
    && c != NUL && c != BACKSLASH
    && (if quoted then c != QUOTE
        else !IsSpace(c) && (first ==> c != QUOTE) && (if value then first || c != COMMA else c != EQUALS))
  }

  predicate UnitOk(v: Unit, quoted: bool, value: bool, first: bool) {
    if v.Escaped? then v.c != NUL else PlainOk(v.c, quoted, value, first)
  }

  predicate UnitsOk(us: seq<Unit>, quoted: bool, value: bool) {
    forall i :: 0 <= i < |us| ==> UnitOk(us[i], quoted, value, i == 0)
  }

  predicate AllSpace(b: bytes) { forall i :: 0 <= i < |b| ==> IsSpace(b[i]) }

  /** The byte that follows, where a text ends with a NUL. */
  function First(u: bytes): byte { if u == [] then NUL else u[0] }

  /** A byte that ends a word outside quotes. */
  predicate Stops(c: byte, value: bool) { c == NUL || IsSpace(c) || c == if value then COMMA else EQUALS }

  /** A word with the spaces around it. */
  datatype Token = Token(before: bytes, quoted: bool, units: seq<Unit>, after: bytes)

  function Quotes(quoted: bool): bytes { if quoted then [QUOTE] else [] }

  function WordText(quoted: bool, us: seq<Unit>): bytes { Quotes(quoted) + (UnitsText(us) + Quotes(quoted)) }

  function TokenText(t: Token): bytes { t.before + (WordText(t.quoted, t.units) + t.after) }

  /** Only a word in quotes can be empty. */
  predicate TokenOk(t: Token, value: bool) {
    && AllSpace(t.before) && AllSpace(t.after)
    && UnitsOk(t.units, t.quoted, value) && |t.units| < MAX_WORD && (t.quoted || t.units != [])
  }

  /** The word ends where the token says, given the byte after it. */
  predicate Closed(t: Token, value: bool, next: byte) { t.quoted || t.after != [] || Stops(next, value) }

  datatype Entry = Entry(key: Token, val: Token)

  predicate EntryOk(e: Entry) { TokenOk(e.key, false) && TokenOk(e.val, true) }

  const ARROW: bytes := [EQUALS, GREATER]

  function EntryText(e: Entry): bytes { TokenText(e.key) + (ARROW + TokenText(e.val)) }

  /** The four letters of null, each in either case. */
  predicate SpellsNull(w: bytes) {
    && |w| == 4 && (w[0] == 78 || w[0] == 110) && (w[1] == 85 || w[1] == 117)
    && (w[2] == 76 || w[2] == 108) && (w[3] == 76 || w[3] == 108)
  }

  function EntryItem(e: Entry): Item {
    Item(Pair(Meant(e.key.units), if !e.val.quoted && SpellsNull(Meant(e.val.units)) then Null else Text(Meant(e.val.units))), true)
  }

  /** Entries, each with the comma after it. */
  function EntriesText(es: seq<Entry>): bytes {
    if es == [] then [] else EntryText(es[0]) + ([COMMA] + EntriesText(es[1..]))
  }

  function EntriesItems(es: seq<Entry>): (r: seq<Item>)
    ensures |r| == |es|
  {
    if es == [] then [] else [EntryItem(es[0])] + EntriesItems(es[1..])
  }

  predicate EntriesOk(es: seq<Entry>) { forall i :: 0 <= i < |es| ==> EntryOk(es[i]) }

  // ------------------------------------------------------------- how it goes on

  /** A word that the text ends in, maybe after a backslash, or one that outgrows the word buffer with unit v. */
  datatype Broken = Cut(quoted: bool, units: seq<Unit>, slash: bool) | Long(quoted: bool, units: seq<Unit>, v: Unit)

  function BrokenText(w: Broken): bytes {
    Quotes(w.quoted) + (UnitsText(w.units) + if w.Long? then UnitText(w.v) else if w.slash then [BACKSLASH] else [])
  }

  predicate BrokenOk(w: Broken, value: bool, next: byte) {
    && UnitsOk(w.units, w.quoted, value) && |w.units| < MAX_WORD
    && match w
       case Cut(quoted, _, slash) => (quoted || slash) && next == NUL
       case Long(quoted, us, v) => |us| + 1 == MAX_WORD && UnitOk(v, quoted, value, false)
  }

  /** What follows the entries that are followed by a comma. */
  datatype Rest =
    | Blank(b: bytes)
    | Last(e: Entry)
    | StrayEquals(b: bytes)
    | BrokenKey(b: bytes, w: Broken)
    | TooMany(key: Token)
    | NoArrow(key: Token)
    | HalfArrow(key: Token)
    | NoValue(key: Token, b: bytes)
    | BrokenValue(key: Token, b: bytes, w: Broken)
    | Junk(e: Entry)

  function RestText(r: Rest): bytes {
    match r
    case Blank(b) => b
    case StrayEquals(b) => b
    case BrokenKey(b, w) => b + BrokenText(w)
    case TooMany(key) => TokenText(key)
    case NoArrow(key) => TokenText(key)
    case HalfArrow(key) => TokenText(key) + [EQUALS]
    case NoValue(key, b) => TokenText(key) + (ARROW + b)
    case BrokenValue(key, b, w) => TokenText(key) + (ARROW + (b + BrokenText(w)))
    case Last(e) => EntryText(e)
    case Junk(e) => EntryText(e)
  }

  /** When n entries came before and `next` comes after. */
  predicate RestOk(r: Rest, n: nat, next: byte) {
    match r
    case Blank(b) => AllSpace(b) && next == NUL
    case StrayEquals(b) => AllSpace(b) && next == EQUALS
    case BrokenKey(b, w) => AllSpace(b) && BrokenOk(w, false, next)
    case TooMany(key) => n >= MAX_ITEMS && TokenOk(key, false) && Closed(key, false, next)
    case NoArrow(key) =>
      n < MAX_ITEMS && TokenOk(key, false) && Closed(key, false, next) && next != EQUALS && !IsSpace(next)
    case HalfArrow(key) => n < MAX_ITEMS && TokenOk(key, false) && next != GREATER
    case NoValue(key, b) => n < MAX_ITEMS && TokenOk(key, false) && AllSpace(b) && next == NUL
    case BrokenValue(key, b, w) => n < MAX_ITEMS && TokenOk(key, false) && AllSpace(b) && BrokenOk(w, true, next)
    case Last(e) => n < MAX_ITEMS && EntryOk(e) && next == NUL
    case Junk(e) =>
      n < MAX_ITEMS && EntryOk(e) && Closed(e.val, true, next) && next != NUL && next != COMMA && !IsSpace(next)
  }

  /** Syntax errors name the position of the byte that is wrong, which is where the spelled text ends. */
  function Outcome(r: Rest, items: seq<Item>, at: nat, next: byte): Parsed {
    match r
    case Blank(_) => Parsed(items)
    case Last(e) => Parsed(items + [EntryItem(e)])
    case StrayEquals(_) => SyntaxError(at)
    case BrokenKey(_, w) => if w.Long? then OutOfMemory else UnexpectedEnd
    case TooMany(_) => OutOfMemory
    case NoArrow(_) => if next == NUL then UnexpectedEnd else SyntaxError(at)
    case HalfArrow(_) => if next == NUL then UnexpectedEnd else SyntaxError(at)
    case NoValue(_, _) => UnexpectedEnd
    case BrokenValue(_, _, w) => if w.Long? then OutOfMemory else UnexpectedEnd
    case Junk(_) => SyntaxError(at)
  }

  predicate Spelled(s: bytes, es: seq<Entry>, r: Rest, u: bytes) {
    s == EntriesText(es) + (RestText(r) + u) && EntriesOk(es) && |es| <= MAX_ITEMS && RestOk(r, |es|, First(u))
  }

  predicate SpelledAs(s: bytes, es: seq<Entry>, r: Rest, u: bytes, parsed: Parsed) {
    Spelled(s, es, r, u) && parsed == Outcome(r, EntriesItems(es), |s| - |u|, First(u))
  }

  /** The text is spelled in a way that has this outcome. */
  ghost predicate Stands(s: bytes, parsed: Parsed) { exists es, r, u :: SpelledAs(s, es, r, u, parsed) }

  // ------------------------------------------------------------- reading a word

  /** The text has t at position p. */
  predicate Holds(s: bytes, p: nat, t: bytes) {
    p + |t| <= |s| && forall i {:trigger t[i]} :: 0 <= i < |t| ==> s[p + i] == t[i]
  }

  lemma {:induction false} Split(s: bytes, p: nat, t: bytes, t': bytes)
    requires Holds(s, p, t + t')
    ensures Holds(s, p, t) && Holds(s, p + |t|, t')
  {
    forall i | 0 <= i < |t|
      ensures s[p + i] == t[i]
    {
      assert (t + t')[i] == t[i];
    }
    forall i | 0 <= i < |t'|
      ensures s[p + |t| + i] == t'[i]
    {
      assert (t + t')[|t| + i] == t'[i];
    }
  }

  lemma {:induction false} SplitThree(s: bytes, p: nat, a: bytes, b: bytes, c: bytes)
    requires Holds(s, p, a + (b + c))
    ensures Holds(s, p, a) && Holds(s, p + |a|, b) && Holds(s, p + |a| + |b|, c)
  {
    Split(s, p, a, b + c);
    Split(s, p + |a|, b, c);
  }

  lemma {:induction false} ByteAt(s: bytes, p: nat, t: bytes, i: nat)
    requires Holds(s, p, t) && i < |t|
    ensures p + i < |s| && s[p + i] == t[i]
  {
  }

  lemma {:induction false} SkipBlanks(s: bytes, p: nat, b: bytes, value: bool)
    requires Holds(s, p, b) && AllSpace(b)
    ensures GetVal(s, p, value, WaitVal, [], false) == GetVal(s, p + |b|, value, WaitVal, [], false)
    decreases |b|
  {
    if b != [] {
      ByteAt(s, p, b, 0);
      assert b == [b[0]] + b[1..];
      Split(s, p, [b[0]], b[1..]);
      SkipBlanks(s, p + 1, b[1..], value);
    }
  }

  /** The state of the automaton between units. */
  function StateAfter(n: nat, quoted: bool): WordState {
    if quoted then InEscVal else if n == 0 then WaitVal else InVal
  }

  lemma {:induction false} ReadUnit(s: bytes, p: nat, v: Unit, quoted: bool, value: bool, w: bytes)
    requires Holds(s, p, UnitText(v)) && UnitOk(v, quoted, value, w == []) && (w == [] || p > 0)
    ensures var q := p + |UnitText(v)|;
      GetVal(s, p, value, StateAfter(|w|, quoted), w, quoted)
      == if |w| + 1 < MAX_WORD then GetVal(s, q, value, StateAfter(|w| + 1, quoted), w + [v.c], quoted) else NoMemory
  {
    ByteAt(s, p, UnitText(v), 0);
    if v.Escaped? { ByteAt(s, p, UnitText(v), 1); }
  }

  /** The units before the last one, and the last one. */
  lemma {:induction false} LastUnit(s: bytes, p: nat, us: seq<Unit>, quoted: bool, value: bool)
    requires us != [] && Holds(s, p, UnitsText(us)) && UnitsOk(us, quoted, value)
    ensures var init, v := us[..|us| - 1], us[|us| - 1];
      && UnitsOk(init, quoted, value) && UnitOk(v, quoted, value, init == [])
      && Holds(s, p, UnitsText(init)) && Holds(s, p + |UnitsText(init)|, UnitText(v))
  {
    var n := |us| - 1;
    Split(s, p, UnitsText(us[..n]), UnitText(us[n]));
    assert forall i :: 0 <= i < n ==> us[..n][i] == us[i];
  }

  lemma {:induction false} ReadLastUnit(s: bytes, p: nat, us: seq<Unit>, quoted: bool, value: bool) returns (q: nat)
    requires us != [] && Holds(s, p, UnitsText(us)) && UnitsOk(us, quoted, value) && |us| < MAX_WORD
    ensures var init := us[..|us| - 1];
      && UnitsOk(init, quoted, value) && Holds(s, p, UnitsText(init)) && q == p + |UnitsText(init)| < p + |UnitsText(us)|
      && (init == [] || q > 0 ==>
          GetVal(s, q, value, StateAfter(|init|, quoted), Meant(init), quoted)
          == GetVal(s, p + |UnitsText(us)|, value, StateAfter(|us|, quoted), Meant(us), quoted))
  {
    var init, v := us[..|us| - 1], us[|us| - 1];
    LastUnit(s, p, us, quoted, value);
    q := p + |UnitsText(init)|;
    if init == [] || q > 0 { ReadUnit(s, q, v, quoted, value, Meant(init)); }
    assert q + |UnitText(v)| == p + |UnitsText(us)| && Meant(init) + [v.c] == Meant(us) && |Meant(init)| + 1 == |us|;
  }

  lemma {:induction false} ReadUnits(s: bytes, p: nat, us: seq<Unit>, quoted: bool, value: bool)
    requires Holds(s, p, UnitsText(us)) && UnitsOk(us, quoted, value) && |us| < MAX_WORD
    ensures us != [] ==> p + |UnitsText(us)| > 0
    ensures GetVal(s, p, value, StateAfter(0, quoted), [], quoted)
         == GetVal(s, p + |UnitsText(us)|, value, StateAfter(|us|, quoted), Meant(us), quoted)
    decreases |us|
  {
    if us != [] {
      var q := ReadLastUnit(s, p, us, quoted, value);
      ReadUnits(s, p, us[..|us| - 1], quoted, value);
    }
  }

  lemma {:induction false} OpenQuote(s: bytes, p: nat, quoted: bool, value: bool)
    requires Holds(s, p, Quotes(quoted))
    ensures GetVal(s, p, value, WaitVal, [], false)
         == GetVal(s, p + |Quotes(quoted)|, value, StateAfter(0, quoted), [], quoted)
  {
    if quoted { ByteAt(s, p, Quotes(quoted), 0); }
  }

  /** From the start of a word to the end of its units, where e follows. */
  lemma {:induction false} ReadToEnd(s: bytes, p: nat, quoted: bool, us: seq<Unit>, e: bytes, value: bool) returns (q: nat)
    requires Holds(s, p, Quotes(quoted) + (UnitsText(us) + e)) && UnitsOk(us, quoted, value) && |us| < MAX_WORD
    ensures q == p + |Quotes(quoted)| + |UnitsText(us)| && Holds(s, q, e) && (us != [] ==> q > 0)
    ensures GetVal(s, p, value, WaitVal, [], false) == GetVal(s, q, value, StateAfter(|us|, quoted), Meant(us), quoted)
  {
    SplitThree(s, p, Quotes(quoted), UnitsText(us), e);
    OpenQuote(s, p, quoted, value);
    q := p + |Quotes(quoted)|;
    ReadUnits(s, q, us, quoted, value);
    q := q + |UnitsText(us)|;
  }

  /** A whole word: get_val returns what its units stand for. */
  lemma {:induction false} ReadSpelled(s: bytes, p: nat, quoted: bool, us: seq<Unit>, value: bool)
    requires Holds(s, p, WordText(quoted, us)) && UnitsOk(us, quoted, value) && |us| < MAX_WORD
    requires quoted || (us != [] && Stops(At(s, p + |WordText(quoted, us)|), value))
    ensures var q := p + |WordText(quoted, us)|;
      && q > 0
      && GetVal(s, p, value, WaitVal, [], false)
         == GotWord(if !quoted && IsSpace(At(s, q)) then q else q - 1, Meant(us), quoted)
  {
    var q := ReadToEnd(s, p, quoted, us, Quotes(quoted), value);
    if quoted { ByteAt(s, q, Quotes(quoted), 0); }
  }

  /** A word that outgrows the buffer. */
  lemma {:induction false} ReadLong(s: bytes, p: nat, w: Broken, value: bool)
    requires w.Long? && Holds(s, p, BrokenText(w)) && BrokenOk(w, value, At(s, p + |BrokenText(w)|))
    ensures GetVal(s, p, value, WaitVal, [], false) == NoMemory
  {
    var q := ReadToEnd(s, p, w.quoted, w.units, UnitText(w.v), value);
    ReadUnit(s, q, w.v, w.quoted, value, Meant(w.units));
  }

  lemma {:induction false} ReadSlash(s: bytes, p: nat, quoted: bool, value: bool, w: bytes)
    requires p < |s| && (w != [] ==> p > 0) && s[p] == BACKSLASH && At(s, p + 1) == NUL
    ensures GetVal(s, p, value, StateAfter(|w|, quoted), w, quoted) == BadEnd
  {
  }

  /** A word that the text ends in. */
  lemma {:induction false} ReadCut(s: bytes, p: nat, w: Broken, value: bool)
    requires w.Cut? && Holds(s, p, BrokenText(w)) && BrokenOk(w, value, At(s, p + |BrokenText(w)|))
    ensures GetVal(s, p, value, WaitVal, [], false) == BadEnd
  {
    var e := if w.slash then [BACKSLASH] else [];
    var q := ReadToEnd(s, p, w.quoted, w.units, e, value);
    if w.slash {
      ByteAt(s, q, e, 0);
      ReadSlash(s, q, w.quoted, value, Meant(w.units));
    }
  }

  lemma {:induction false} ReadBroken(s: bytes, p: nat, b: bytes, w: Broken, value: bool)
    requires Holds(s, p, b + BrokenText(w)) && AllSpace(b) && BrokenOk(w, value, At(s, p + |b + BrokenText(w)|))
    ensures GetVal(s, p, value, WaitVal, [], false) == if w.Long? then NoMemory else BadEnd
  {
    Split(s, p, b, BrokenText(w));
    SkipBlanks(s, p, b, value);
    if w.Long? { ReadLong(s, p + |b|, w, value); } else { ReadCut(s, p + |b|, w, value); }
  }

  // ------------------------------------------------------------- reading pairs

  /** After a key or after a value. */
  predicate Between(st: PairState, key: bytes) { st.WEq? || (st.WDel? && key == []) }

  lemma {:induction false} SkipOne(s: bytes, p: nat, st: PairState, key: bytes, items: seq<Item>)
    requires p < |s| && IsSpace(s[p]) && Between(st, key)
    ensures Parse(s, p, st, key, items) == Parse(s, p + 1, st, key, items)
  {
  }

  lemma {:induction false} SkipAll(s: bytes, p: nat, b: bytes, st: PairState, key: bytes, items: seq<Item>)
    requires Holds(s, p, b) && AllSpace(b) && Between(st, key)
    ensures Parse(s, p, st, key, items) == Parse(s, p + |b|, st, key, items)
    decreases |b|
  {
    if b != [] {
      ByteAt(s, p, b, 0);
      assert b == [b[0]] + b[1..];
      Split(s, p, [b[0]], b[1..]);
      SkipOne(s, p, st, key, items);
      SkipAll(s, p + 1, b[1..], st, key, items);
    }
  }

  /** Where get_val stands after a token's word: at its end, or one space further. */
  predicate StandsAfter(s: bytes, pos: nat, e: nat) { pos < |s| && (pos + 1 == e || (pos == e && IsSpace(s[e]))) }

  /** The blanks, the word and the blanks of a token. */
  lemma {:induction false} TokenParts(s: bytes, p: nat, t: Token)
    requires Holds(s, p, TokenText(t))
    ensures Holds(s, p, t.before)
    ensures var q := p + |t.before|; var w := WordText(t.quoted, t.units);
      Holds(s, q, w) && Holds(s, q + |w|, t.after) && q + |w| + |t.after| == p + |TokenText(t)|
  {
    SplitThree(s, p, t.before, WordText(t.quoted, t.units), t.after);
  }

  /** The byte after a token's word. */
  lemma {:induction false} WordEnds(s: bytes, e: nat, t: Token, value: bool)
    requires Holds(s, e, t.after) && AllSpace(t.after) && Closed(t, value, At(s, e + |t.after|))
    ensures t.quoted || Stops(At(s, e), value)
  {
    if t.after != [] { ByteAt(s, e, t.after, 0); }
  }

  lemma {:induction false} ReadToken(s: bytes, p: nat, t: Token, value: bool) returns (pos: nat, e: nat)
    requires Holds(s, p, TokenText(t)) && TokenOk(t, value) && Closed(t, value, At(s, p + |TokenText(t)|))
    ensures StandsAfter(s, pos, e) && Holds(s, e, t.after) && e + |t.after| == p + |TokenText(t)|
    ensures GetVal(s, p, value, WaitVal, [], false) == GotWord(pos, Meant(t.units), t.quoted)
  {
    TokenParts(s, p, t);
    SkipBlanks(s, p, t.before, value);
    var q := p + |t.before|;
    e := q + |WordText(t.quoted, t.units)|;
    WordEnds(s, e, t, value);
    ReadSpelled(s, q, t.quoted, t.units, value);
    pos := if !t.quoted && IsSpace(At(s, e)) then e else e - 1;
  }

  /** The spaces after a word. */
  lemma {:induction false} SkipAfter(s: bytes, pos: nat, e: nat, b: bytes, st: PairState, key: bytes, items: seq<Item>)
    requires StandsAfter(s, pos, e) && Holds(s, e, b) && AllSpace(b) && Between(st, key)
    ensures Parse(s, pos + 1, st, key, items) == Parse(s, e + |b|, st, key, items)
  {
    if pos == e { SkipOne(s, e, st, key, items); }
    SkipAll(s, e, b, st, key, items);
  }

  lemma {:induction false} GotKey(s: bytes, p: nat, pos: nat, w: bytes, quoted: bool, items: seq<Item>)
    requires p <= |s| && pos < |s| && |w| < MAX_WORD && GetVal(s, p, false, WaitVal, [], false) == GotWord(pos, w, quoted)
    ensures Parse(s, p, WKey, [], items) == if |items| < MAX_ITEMS then Parse(s, pos + 1, WEq, w, items) else OutOfMemory
  {
  }

  lemma {:induction false} GotValue(s: bytes, p: nat, pos: nat, key: bytes, w: bytes, quoted: bool, items: seq<Item>)
    requires p <= |s| && pos < |s| && |w| < MAX_WORD && GetVal(s, p, true, WaitVal, [], false) == GotWord(pos, w, quoted)
    ensures Parse(s, p, WVal, key, items) == Parse(s, pos + 1, WDel, [], items + [ParsedItem(key, w, quoted)])
  {
  }

  lemma {:induction false} ReadKey(s: bytes, p: nat, t: Token, items: seq<Item>)
    requires Holds(s, p, TokenText(t)) && TokenOk(t, false) && Closed(t, false, At(s, p + |TokenText(t)|))
    ensures Parse(s, p, WKey, [], items)
         == if |items| < MAX_ITEMS then Parse(s, p + |TokenText(t)|, WEq, Meant(t.units), items) else OutOfMemory
  {
    var pos, e := ReadToken(s, p, t, false);
    SkipAfter(s, pos, e, t.after, WEq, Meant(t.units), items);
    GotKey(s, p, pos, Meant(t.units), t.quoted, items);
  }

  lemma {:induction false} NullSpelling(w: bytes)
    ensures IsNullWord(w) <==> SpellsNull(w)
  {
  }

  lemma {:induction false} ReadValue(s: bytes, p: nat, e: Entry, items: seq<Item>)
    requires Holds(s, p, TokenText(e.val)) && TokenOk(e.val, true) && Closed(e.val, true, At(s, p + |TokenText(e.val)|))
    ensures Parse(s, p, WVal, Meant(e.key.units), items)
         == Parse(s, p + |TokenText(e.val)|, WDel, [], items + [EntryItem(e)])
  {
    var t, k := e.val, Meant(e.key.units);
    var pos, end := ReadToken(s, p, t, true);
    NullSpelling(Meant(t.units));
    assert ParsedItem(k, Meant(t.units), t.quoted) == EntryItem(e);
    SkipAfter(s, pos, end, t.after, WDel, [], items + [EntryItem(e)]);
    GotValue(s, p, pos, k, Meant(t.units), t.quoted, items);
  }

  lemma {:induction false} StepArrow(s: bytes, p: nat, key: bytes, items: seq<Item>)
    requires Holds(s, p, ARROW)
    ensures s[p] == EQUALS && Parse(s, p, WEq, key, items) == Parse(s, p + 2, WVal, key, items)
  {
    ByteAt(s, p, ARROW, 0);
    ByteAt(s, p, ARROW, 1);
    assert Parse(s, p + 1, WGt, key, items) == Parse(s, p + 2, WVal, key, items);
  }

  /** A key and its arrow. */
  lemma {:induction false} ReadArrow(s: bytes, p: nat, key: Token, t: bytes, items: seq<Item>) returns (q: nat)
    requires Holds(s, p, TokenText(key) + (ARROW + t)) && TokenOk(key, false) && |items| < MAX_ITEMS
    ensures q == p + |TokenText(key)| + 2 && Holds(s, q, t)
    ensures Parse(s, p, WKey, [], items) == Parse(s, q, WVal, Meant(key.units), items)
  {
    SplitThree(s, p, TokenText(key), ARROW, t);
    q := p + |TokenText(key)|;
    StepArrow(s, q, Meant(key.units), items);
    ReadKey(s, p, key, items);
    q := q + 2;
  }

  /** One entry. */
  lemma {:induction false} ReadEntry(s: bytes, p: nat, e: Entry, items: seq<Item>)
    requires Holds(s, p, EntryText(e)) && EntryOk(e) && Closed(e.val, true, At(s, p + |EntryText(e)|)) && |items| < MAX_ITEMS
    ensures Parse(s, p, WKey, [], items) == Parse(s, p + |EntryText(e)|, WDel, [], items + [EntryItem(e)])
  {
    var q := ReadArrow(s, p, e.key, TokenText(e.val), items);
    ReadValue(s, q, e, items);
  }

  /** An entry and its comma stand at p. */
  predicate CommaAt(s: bytes, p: nat, e: Entry) {
    Holds(s, p, EntryText(e)) && Holds(s, p + |EntryText(e)|, [COMMA]) && EntryOk(e)
  }

  lemma {:induction false} ReadComma(s: bytes, p: nat, e: Entry, items: seq<Item>)
    requires CommaAt(s, p, e) && |items| < MAX_ITEMS
    ensures Parse(s, p, WKey, [], items) == Parse(s, p + |EntryText(e)| + 1, WKey, [], items + [EntryItem(e)])
  {
    ByteAt(s, p + |EntryText(e)|, [COMMA], 0);
    ReadEntry(s, p, e, items);
  }

  lemma {:induction false} EntriesParts(s: bytes, p: nat, es: seq<Entry>)
    requires es != [] && Holds(s, p, EntriesText(es)) && EntriesOk(es)
    ensures CommaAt(s, p, es[0]) && Holds(s, p + |EntryText(es[0])| + 1, EntriesText(es[1..])) && EntriesOk(es[1..])
  {
    SplitThree(s, p, EntryText(es[0]), [COMMA], EntriesText(es[1..]));
  }

  /** f passes over an entry and its comma. */
  ghost predicate Passes(f: (nat, seq<Item>) -> Parsed, s: bytes) {
    forall p: nat, e: Entry, items: seq<Item> {:trigger CommaAt(s, p, e), f(p, items)} ::
      CommaAt(s, p, e) && |items| < MAX_ITEMS ==> f(p, items) == f(p + |EntryText(e)| + 1, items + [EntryItem(e)])
  }

  lemma {:induction false} PassFirst(f: (nat, seq<Item>) -> Parsed, s: bytes, p: nat, es: seq<Entry>, items: seq<Item>) returns (q: nat)
    requires es != [] && Passes(f, s) && Holds(s, p, EntriesText(es)) && EntriesOk(es) && |items| < MAX_ITEMS
    ensures f(p, items) == f(q, items + [EntryItem(es[0])])
    ensures Holds(s, q, EntriesText(es[1..])) && EntriesOk(es[1..]) && q + |EntriesText(es[1..])| == p + |EntriesText(es)|
  {
    EntriesParts(s, p, es);
    q := p + |EntryText(es[0])| + 1;
  }

  lemma {:induction false} ItemsFirst(items: seq<Item>, es: seq<Entry>)
    ensures items + EntriesItems(es) == if es == [] then items else items + [EntryItem(es[0])] + EntriesItems(es[1..])
  {
  }

  lemma {:induction false} PassEntries(f: (nat, seq<Item>) -> Parsed, s: bytes, p: nat, es: seq<Entry>, items: seq<Item>)
    requires Passes(f, s) && Holds(s, p, EntriesText(es)) && EntriesOk(es) && |items| + |es| <= MAX_ITEMS
    ensures f(p, items) == f(p + |EntriesText(es)|, items + EntriesItems(es))
    decreases |es|
  {
    ItemsFirst(items, es);
    if es != [] {
      var q := PassFirst(f, s, p, es, items);
      PassEntries(f, s, q, es[1..], items + [EntryItem(es[0])]);
    }
  }

  /** The parser before a key, anywhere in the text. */
  function ParseKeys(s: bytes): (nat, seq<Item>) -> Parsed {
    (p: nat, items: seq<Item>) => if p <= |s| then Parse(s, p, WKey, [], items) else OutOfMemory
  }

  lemma {:induction false} ParserPasses(s: bytes)
    ensures Passes(ParseKeys(s), s)
  {
    var f := ParseKeys(s);
    forall p: nat, e: Entry, items: seq<Item> {:trigger CommaAt(s, p, e), f(p, items)} | CommaAt(s, p, e) && |items| < MAX_ITEMS
      ensures f(p, items) == f(p + |EntryText(e)| + 1, items + [EntryItem(e)])
    {
      ReadComma(s, p, e, items);
    }
  }

  // ------------------------------------------------------------ reading the rest

  /** Nothing but spaces, or an equals sign instead of a key. */
  lemma {:induction false} NoKey(s: bytes, p: nat, b: bytes, items: seq<Item>)
    requires Holds(s, p, b) && AllSpace(b) && (At(s, p + |b|) == NUL || At(s, p + |b|) == EQUALS)
    ensures Parse(s, p, WKey, [], items) == if At(s, p + |b|) == NUL then Parsed(items) else SyntaxError(p + |b|)
  {
    SkipBlanks(s, p, b, false);
  }

  lemma {:induction false} KeyBreaks(s: bytes, p: nat, b: bytes, w: Broken, items: seq<Item>)
    requires Holds(s, p, b + BrokenText(w)) && AllSpace(b) && BrokenOk(w, false, At(s, p + |b + BrokenText(w)|))
    ensures Parse(s, p, WKey, [], items) == if w.Long? then OutOfMemory else UnexpectedEnd
  {
    ReadBroken(s, p, b, w, false);
  }

  lemma {:induction false} NoEquals(s: bytes, p: nat, key: bytes, items: seq<Item>)
    requires p <= |s| && At(s, p) != EQUALS && !IsSpace(At(s, p))
    ensures Parse(s, p, WEq, key, items) == if At(s, p) == NUL then UnexpectedEnd else SyntaxError(p)
  {
  }

  lemma {:induction false} KeyAlone(s: bytes, p: nat, key: Token, items: seq<Item>)
    requires Holds(s, p, TokenText(key)) && TokenOk(key, false) && |items| < MAX_ITEMS
    requires var c := At(s, p + |TokenText(key)|); Closed(key, false, c) && c != EQUALS && !IsSpace(c)
    ensures var q := p + |TokenText(key)|;
      Parse(s, p, WKey, [], items) == if At(s, q) == NUL then UnexpectedEnd else SyntaxError(q)
  {
    ReadKey(s, p, key, items);
    NoEquals(s, p + |TokenText(key)|, Meant(key.units), items);
  }

  lemma {:induction false} EqualsAlone(s: bytes, p: nat, key: bytes, items: seq<Item>)
    requires p < |s| && s[p] == EQUALS && At(s, p + 1) != GREATER
    ensures Parse(s, p, WEq, key, items) == if At(s, p + 1) == NUL then UnexpectedEnd else SyntaxError(p + 1)
  {
    assert Parse(s, p, WEq, key, items) == Parse(s, p + 1, WGt, key, items);
  }

  lemma {:induction false} KeyHalf(s: bytes, p: nat, key: Token, items: seq<Item>)
    requires Holds(s, p, TokenText(key) + [EQUALS]) && TokenOk(key, false) && |items| < MAX_ITEMS
    requires At(s, p + |TokenText(key)| + 1) != GREATER
    ensures var q := p + |TokenText(key)| + 1;
      Parse(s, p, WKey, [], items) == if At(s, q) == NUL then UnexpectedEnd else SyntaxError(q)
  {
    var q := p + |TokenText(key)|;
    Split(s, p, TokenText(key), [EQUALS]);
    ByteAt(s, q, [EQUALS], 0);
    ReadKey(s, p, key, items);
    EqualsAlone(s, q, Meant(key.units), items);
  }

  lemma {:induction false} ValueMissing(s: bytes, p: nat, key: Token, b: bytes, items: seq<Item>)
    requires Holds(s, p, TokenText(key) + (ARROW + b)) && TokenOk(key, false) && |items| < MAX_ITEMS
    requires AllSpace(b) && At(s, p + |TokenText(key) + (ARROW + b)|) == NUL
    ensures Parse(s, p, WKey, [], items) == UnexpectedEnd
  {
    var q := ReadArrow(s, p, key, b, items);
    SkipBlanks(s, q, b, true);
    assert Parse(s, q, WVal, Meant(key.units), items) == UnexpectedEnd;
  }

  lemma {:induction false} ValueBreaks(s: bytes, p: nat, key: Token, b: bytes, w: Broken, items: seq<Item>)
    requires Holds(s, p, TokenText(key) + (ARROW + (b + BrokenText(w)))) && TokenOk(key, false) && |items| < MAX_ITEMS
    requires AllSpace(b) && BrokenOk(w, true, At(s, p + |TokenText(key) + (ARROW + (b + BrokenText(w)))|))
    ensures Parse(s, p, WKey, [], items) == if w.Long? then OutOfMemory else UnexpectedEnd
  {
    var q := ReadArrow(s, p, key, b + BrokenText(w), items);
    ReadBroken(s, q, b, w, true);
    assert Parse(s, q, WVal, Meant(key.units), items) == if w.Long? then OutOfMemory else UnexpectedEnd;
  }

  lemma {:induction false} AfterLast(s: bytes, p: nat, items: seq<Item>)
    requires p <= |s| && At(s, p) != COMMA && !IsSpace(At(s, p))
    ensures Parse(s, p, WDel, [], items) == if At(s, p) == NUL then Parsed(items) else SyntaxError(p)
  {
  }

  lemma {:induction false} EntryEnds(s: bytes, p: nat, e: Entry, items: seq<Item>)
    requires Holds(s, p, EntryText(e)) && EntryOk(e) && |items| < MAX_ITEMS
    requires var c := At(s, p + |EntryText(e)|); Closed(e.val, true, c) && c != COMMA && !IsSpace(c)
    ensures var q := p + |EntryText(e)|;
      Parse(s, p, WKey, [], items) == if At(s, q) == NUL then Parsed(items + [EntryItem(e)]) else SyntaxError(q)
  {
    ReadEntry(s, p, e, items);
    AfterLast(s, p + |EntryText(e)|, items + [EntryItem(e)]);
  }

  lemma {:induction false} ReadRest(s: bytes, p: nat, r: Rest, items: seq<Item>)
    requires Holds(s, p, RestText(r)) && RestOk(r, |items|, At(s, p + |RestText(r)|))
    ensures Parse(s, p, WKey, [], items) == Outcome(r, items, p + |RestText(r)|, At(s, p + |RestText(r)|))
  {
    match r
    case Blank(b) => NoKey(s, p, b, items);
    case StrayEquals(b) => NoKey(s, p, b, items);
    case BrokenKey(b, w) => KeyBreaks(s, p, b, w, items);
    case TooMany(key) => ReadKey(s, p, key, items);
    case NoArrow(key) => KeyAlone(s, p, key, items);
    case HalfArrow(key) => KeyHalf(s, p, key, items);
    case NoValue(key, b) => ValueMissing(s, p, key, b, items);
    case BrokenValue(key, b, w) => ValueBreaks(s, p, key, b, w, items);
    case Last(e) => EntryEnds(s, p, e, items);
    case Junk(e) => EntryEnds(s, p, e, items);
  }

  lemma {:induction false} TwoPieces(s: bytes, t: bytes, t': bytes, u: bytes)
    requires s == t + (t' + u)
    ensures Holds(s, 0, t) && Holds(s, |t|, t') && |t| + |t'| == |s| - |u| && At(s, |t| + |t'|) == First(u)
  {
  }

  lemma {:induction false} RestDecides(f: (nat, seq<Item>) -> Parsed, s: bytes, p: nat, r: Rest, items: seq<Item>)
    requires f == ParseKeys(s) && Holds(s, p, RestText(r)) && RestOk(r, |items|, At(s, p + |RestText(r)|))
    ensures f(p, items) == Outcome(r, items, p + |RestText(r)|, At(s, p + |RestText(r)|))
  {
    ReadRest(s, p, r, items);
  }

  lemma {:induction false} SpelledRest(f: (nat, seq<Item>) -> Parsed, s: bytes, es: seq<Entry>, r: Rest, u: bytes)
    requires Spelled(s, es, r, u) && Passes(f, s)
    ensures f(0, []) == f(|EntriesText(es)|, EntriesItems(es))
  {
    TwoPieces(s, EntriesText(es), RestText(r), u);
    PassEntries(f, s, 0, es, []);
    assert [] + EntriesItems(es) == EntriesItems(es);
  }

  lemma {:induction false} SpelledOutcome(f: (nat, seq<Item>) -> Parsed, s: bytes, es: seq<Entry>, r: Rest, u: bytes)
    requires Spelled(s, es, r, u) && f == ParseKeys(s) && Passes(f, s)
    ensures f(0, []) == Outcome(r, EntriesItems(es), |s| - |u|, First(u))
  {
    SpelledRest(f, s, es, r, u);
    TwoPieces(s, EntriesText(es), RestText(r), u);
    RestDecides(f, s, |EntriesText(es)|, r, EntriesItems(es));
  }

  /** The parser gives a text the outcome of its spelling. */
  lemma {:induction false} SpellingDecides(s: bytes, es: seq<Entry>, r: Rest, u: bytes)
    requires Spelled(s, es, r, u)
    ensures Parse(s, 0, WKey, [], []) == Outcome(r, EntriesItems(es), |s| - |u|, First(u))
  {
    ParserPasses(s);
    SpelledOutcome(ParseKeys(s), s, es, r, u);
  }
}
