/**
  Signatures of the bloom access method: arrays of 16-bit words in which each
  indexed value sets pseudo-random bits, and the mask test a scan applies.
 */
module BloomSignature {
  import opened BloomRand
  import opened Machine

  const WORD_BITS: nat := 16
  const MAX_WORDS: nat := 256
  const MAX_COLUMNS: nat := 32

  /** A uint16, least significant bit first. */
  type Word = w: seq<bool> | |w| == 16 witness [false, false, false, false, false, false, false, false,
                                                false, false, false, false, false, false, false, false]
  type Words = seq<Word>

  const ZERO: Word := [false, false, false, false, false, false, false, false,
                      false, false, false, false, false, false, false, false]

  function And(a: Word, b: Word): Word { seq(16, i requires 0 <= i < 16 => a[i] && b[i]) }

  function OrWord(a: Word, b: Word): Word { seq(16, i requires 0 <= i < 16 => a[i] || b[i]) }

  /** 0x01 << k */
  function Bit(k: nat): Word { seq(16, i => i == k) }

  predicate HasBit(ws: Words, n: nat) {
    n < WORD_BITS * |ws| && ws[n / 16][n % 16]
  }

  function SetBit(ws: Words, n: nat): Words
    requires n < WORD_BITS * |ws|
  {
    ws[n / 16 := OrWord(ws[n / 16], Bit(n % 16))]
  }

  /** Setting bit n adds that bit and no other. */
  lemma {:induction false} SetBitHas(ws: Words, n: nat, m: nat)
    requires n < WORD_BITS * |ws|
    ensures HasBit(SetBit(ws, n), m) <==> m == n || HasBit(ws, m)
  {
    if m / 16 == n / 16 && m < WORD_BITS * |ws| { assert m % 16 == n % 16 <==> m == n; }
  }

  /** k draws from the generator, each setting one bit. */
  function Draw(ws: Words, state: int, k: nat): (r: Words)
    requires |ws| > 0
    ensures |r| == |ws|
    decreases k
  {
    if k == 0 then ws
    else
      var s := Park(state);
      Draw(SetBit(ws, (s - 1) % (WORD_BITS * |ws|)), s, k - 1)
  }

  /** One of the first k draws from the state selects bit m of a signature of len words. */
  predicate Drawn(state: int, k: nat, len: nat, m: nat)
    requires len > 0
  {
    exists j :: 1 <= j <= k && Selects(StateAfter(state, j), len, m)
  }

  predicate Selects(state: int, len: nat, m: nat)
    requires len > 0
  {
    m == (state - 1) % (WORD_BITS * len)
  }

  /** The first draw, and then the others from the next state. */
  lemma {:induction false} DrawnFirst(state: int, k: nat, len: nat, m: nat)
    requires len > 0 && k > 0
    ensures Drawn(state, k, len, m) <==> Selects(Park(state), len, m) || Drawn(Park(state), k - 1, len, m)
  {
    assert StateAfter(state, 0) == state && StateAfter(state, 1) == Park(state);
    if Drawn(state, k, len, m) {
      var j :| 1 <= j <= k && Selects(StateAfter(state, j), len, m);
      StateShift(state, j - 1);
      if j > 1 { assert Selects(StateAfter(Park(state), j - 1), len, m); }
    }
    if Drawn(Park(state), k - 1, len, m) {
      var j :| 1 <= j <= k - 1 && Selects(StateAfter(Park(state), j), len, m);
      StateShift(state, j);
      assert Selects(StateAfter(state, j + 1), len, m);
    }
  }

  /** Drawing adds exactly the bits the draws select. */
  lemma {:induction false} DrawHas(ws: Words, state: int, k: nat, m: nat)
    requires |ws| > 0
    ensures HasBit(Draw(ws, state, k), m) <==> HasBit(ws, m) || Drawn(state, k, |ws|, m)
    decreases k
  {
    if k > 0 {
      var s := Park(state);
      var n := (s - 1) % (WORD_BITS * |ws|);
      DrawnFirst(state, k, |ws|, m);
      SetBitHas(ws, n, m);
      DrawHas(SetBit(ws, n), s, k - 1, m);
    }
  }

  /** Bitwise exclusive or of the n lowest bits. */
  function Xor(a: nat, b: nat, n: nat): (r: nat)
    ensures r < Pow2(n)
    decreases n, a, b
  {
    if n == 0 then 0 else 2 * Xor(a / 2, b / 2, n - 1) + (if a % 2 == b % 2 then 0 else 1)
  }

  function Xor32(a: nat, b: nat): (r: nat)
    ensures r < 0x1_0000_0000
  {
    TwoTo32();
    Xor(a, b, 32)
  }

  lemma {:induction false} TwoTo32()
    ensures Pow2(32) == 0x1_0000_0000
  {
    assert Pow2(3) == 8 && Pow2(6) == 64 && Pow2(9) == 512 && Pow2(12) == 0x1000;
    assert Pow2(15) == 0x8000 && Pow2(18) == 0x4_0000 && Pow2(21) == 0x20_0000 && Pow2(24) == 0x100_0000;
    assert Pow2(27) == 0x800_0000 && Pow2(30) == 0x4000_0000;
  }

  /** Bit i of a number. */
  function BitOf(x: nat, i: nat): nat {
    if i == 0 then x % 2 else BitOf(x / 2, i - 1)
  }

  /** A bit of the exclusive or is set exactly where the operands differ. */
  lemma {:induction false} XorBits(a: nat, b: nat, n: nat, i: nat)
    requires i < n
    ensures BitOf(Xor(a, b, n), i) == if BitOf(a, i) == BitOf(b, i) then 0 else 1
    decreases n
  {
    var x := Xor(a, b, n);
    assert x / 2 == Xor(a / 2, b / 2, n - 1) && x % 2 == if a % 2 == b % 2 then 0 else 1;
    if i > 0 { XorBits(a / 2, b / 2, n - 1, i - 1); }
  }

  lemma {:induction false} XorTwice(a: nat, b: nat, n: nat)
    requires a < Pow2(n)
    ensures Xor(Xor(a, b, n), b, n) == a
    decreases n
  {
    if n > 0 {
      var x := Xor(a, b, n);
      assert x / 2 == Xor(a / 2, b / 2, n - 1) && (x % 2 == 0 <==> a % 2 == b % 2);
      XorTwice(a / 2, b / 2, n - 1);
    }
  }

  /** The seed signValue ends up with: the hash mixed with the first draw of the column. */
  function ValueSeed(att: nat, hash: nat): nat
    requires att < MAX_COLUMNS && hash < 0x1_0000_0000
  {
    ColumnState(att);
    Xor32(hash, Park(SeedState(att) as int) - 1)
  }

  lemma {:induction false} ColumnState(att: nat)
    requires att < MAX_COLUMNS
    ensures 1 <= Park(SeedState(att) as int) < MODULUS
  {
    SeedStateRange(att);
    ParkNonzero(SeedState(att) as int);
  }

  /** The seed of a value differs from its hash exactly in the bits of 16807 * (column + 1) - 1. */
  lemma {:induction false} ValueSeedBits(att: nat, hash: nat, i: nat)
    requires att < MAX_COLUMNS && hash < 0x1_0000_0000 && i < 32
    ensures BitOf(ValueSeed(att, hash), i) == if BitOf(hash, i) == BitOf(16807 * (att + 1) - 1, i) then 0 else 1
  {
    SeedStateIs(att);
    assert Park(att + 1) == 16807 * (att + 1);
    XorBits(hash, 16807 * (att + 1) - 1, 32, i);
  }

  /** signValue: the words after adding one value of one column. */
  function Signed(ws: Words, att: nat, hash: nat, bits: nat): (r: Words)
    requires |ws| > 0 && att < MAX_COLUMNS && hash < 0x1_0000_0000
    ensures |r| == |ws|
  {
    Draw(ws, SeedState(ValueSeed(att, hash)) as int, bits)
  }

  /** Signing adds exactly the bits that the value's draws select. */
  lemma {:induction false} SignedHas(ws: Words, att: nat, hash: nat, bits: nat, m: nat)
    requires |ws| > 0 && att < MAX_COLUMNS && hash < 0x1_0000_0000
    ensures HasBit(Signed(ws, att, hash, bits), m) <==>
              HasBit(ws, m) || Drawn(SeedState(ValueSeed(att, hash)) as int, bits, |ws|, m)
  {
    DrawHas(ws, SeedState(ValueSeed(att, hash)) as int, bits, m);
  }

  /** The C code has a defined result: no bit index is negative. */
  predicate Signable(att: nat, hash: nat, bits: nat)
    requires att < MAX_COLUMNS && hash < 0x1_0000_0000
  {
    bits == 0 || !DegenerateSeed(ValueSeed(att, hash))
  }

  /** One draw: a nonzero state gives a bit of the signature, state 0 a negative index. */
  method DrawBit(gen: Generator, sign: array<Word>) returns (ok: bool)
    requires 0 < sign.Length <= MAX_WORDS && -MODULUS < gen.next as int < MODULUS
    modifies gen, sign
    ensures gen.next as int == Park(old(gen.next) as int)
    ensures ok <==> old(gen.next) != 0
    ensures ok ==> 0 <= gen.next && sign[..] == SetBit(old(sign[..]), (gen.next as int - 1) % (WORD_BITS * sign.Length))
    ensures ok ==> forall m :: HasBit(sign[..], m) <==> HasBit(old(sign[..]), m) || Selects(gen.next as int, sign.Length, m)
  {
    ok := DrawOne(gen, sign);
    if ok {
      forall m: nat
        ensures HasBit(sign[..], m) <==> HasBit(old(sign[..]), m) || Selects(gen.next as int, sign.Length, m)
      {
        SetBitHas(old(sign[..]), (gen.next as int - 1) % (WORD_BITS * sign.Length), m);
      }
    }
  }

  method DrawOne(gen: Generator, sign: array<Word>) returns (ok: bool)
    requires 0 < sign.Length <= MAX_WORDS && -MODULUS < gen.next as int < MODULUS
    modifies gen, sign
    ensures gen.next as int == Park(old(gen.next) as int)
    ensures ok <==> old(gen.next) != 0
    ensures ok ==> 0 <= gen.next && sign[..] == SetBit(old(sign[..]), (gen.next as int - 1) % (WORD_BITS * sign.Length))
  {
    ParkNonzero(gen.next as int);
    var r := gen.Rand();
    var nBit := TruncMod(r, (sign.Length * 16) as int32) as int;
    if nBit < 0 {
      return false;
    }
    sign[nBit / 16] := OrWord(sign[nBit / 16], Bit(nBit % 16));
    return true;
  }

  /**
    The result depends on the column number and the hash, never on the state the
    generator was left in.  The code is undefined exactly when the value's seed
    is degenerate; then the first bit index is -1 and the method gives up.
   */
  method SignValue(gen: Generator, sign: array<Word>, att: nat, hash: nat, bits: nat) returns (ok: bool)
    requires 0 < sign.Length <= MAX_WORDS && att < MAX_COLUMNS && hash < 0x1_0000_0000
    modifies gen, sign
    ensures ok <==> Signable(att, hash, bits)
    ensures ok ==> sign[..] == Signed(old(sign[..]), att, hash, bits)
    ensures ok ==> forall m: nat :: HasBit(sign[..], m) <==>
              HasBit(old(sign[..]), m) || Drawn(SeedState(ValueSeed(att, hash)) as int, bits, sign.Length, m)
  {
    ok := SignLoop(gen, sign, att, hash, bits);
    if ok {
      forall m: nat
        ensures HasBit(sign[..], m) <==> HasBit(old(sign[..]), m) || Drawn(SeedState(ValueSeed(att, hash)) as int, bits, sign.Length, m)
      {
        SignedHas(old(sign[..]), att, hash, bits, m);
      }
    }
  }

  method SignLoop(gen: Generator, sign: array<Word>, att: nat, hash: nat, bits: nat) returns (ok: bool)
    requires 0 < sign.Length <= MAX_WORDS && att < MAX_COLUMNS && hash < 0x1_0000_0000
    modifies gen, sign
    ensures ok <==> Signable(att, hash, bits)
    ensures ok ==> sign[..] == Signed(old(sign[..]), att, hash, bits)
  {
    gen.Srand(att);
    ColumnState(att);
    var r := gen.Rand();
    var seed := Xor32(hash, r as nat);
    gen.Srand(seed);
    SeedStateRange(seed);
    ghost var start := gen.next as int;
    var j := 0;
    while j < bits
      invariant j <= bits
      invariant j > 0 ==> start != 0
      invariant -MODULUS < gen.next as int < MODULUS
      invariant gen.next == 0 <==> start == 0
      invariant Draw(old(sign[..]), start, bits) == Draw(sign[..], gen.next as int, bits - j)
    {
      ParkNonzero(gen.next as int);
      ok := DrawOne(gen, sign);
      if !ok { return; }
      j := j + 1;
    }
    return true;
  }

  /** Each column has exactly two hashes that the generator cannot sign. */
  lemma {:induction false} UnsignableHashes(att: nat, hash: nat, bits: nat)
    requires att < MAX_COLUMNS && hash < 0x1_0000_0000 && bits > 0
    ensures var first := Park(SeedState(att) as int) - 1;
            !Signable(att, hash, bits) <==>
              first >= 0 && (hash == Xor32(0xFFFF_FFFF, first) || hash == Xor32(0x8000_0001, first))
  {
    ColumnState(att);
    var first := Park(SeedState(att) as int) - 1;
    TwoTo32();
    XorTwice(hash, first, 32);
    XorTwice(0xFFFF_FFFF, first, 32);
    XorTwice(0x8000_0001, first, 32);
  }

  // --------------------------------------------------------------- rows, keys

  datatype Column = Null | Hashed(hash: nat)

  /** A scan key on one column; its argument may be null. */
  datatype ScanKey = ScanKey(att: nat, arg: Column)

  predicate ValidColumns(cols: seq<Column>, bitSize: seq<nat>) {
    && |cols| <= MAX_COLUMNS && |cols| <= |bitSize|
    && forall i :: 0 <= i < |cols| && cols[i].Hashed? ==> cols[i].hash < 0x1_0000_0000
  }

  predicate ValidKeys(keys: seq<ScanKey>, bitSize: seq<nat>) {
    forall i :: 0 <= i < |keys| ==>
      && keys[i].att < MAX_COLUMNS && keys[i].att < |bitSize|
      && (keys[i].arg.Hashed? ==> keys[i].arg.hash < 0x1_0000_0000)
  }

  function Zeros(len: nat): (z: Words)
    ensures |z| == len && forall i :: 0 <= i < len ==> z[i] == ZERO
  {
    seq(len, i => ZERO)
  }

  lemma {:induction false} ZerosHaveNone(len: nat, m: nat)
    ensures !HasBit(Zeros(len), m)
  {
    if m < WORD_BITS * len { assert Zeros(len)[m / 16] == ZERO; }
  }

  /** Signature after the first n columns. */
  function RowSign(cols: seq<Column>, bitSize: seq<nat>, len: nat, n: nat): (r: Words)
    requires ValidColumns(cols, bitSize) && n <= |cols| && len > 0
    ensures |r| == len
  {
    if n == 0 then Zeros(len)
    else
      var r := RowSign(cols, bitSize, len, n - 1);
      if cols[n - 1].Null? then r else Signed(r, n - 1, cols[n - 1].hash, bitSize[n - 1])
  }

  /** Column c of the row selects bit m. */
  predicate ColumnSelects(cols: seq<Column>, bitSize: seq<nat>, len: nat, c: nat, m: nat)
    requires ValidColumns(cols, bitSize) && c < |cols| && len > 0
  {
    cols[c].Hashed? && Drawn(SeedState(ValueSeed(c, cols[c].hash)) as int, bitSize[c], len, m)
  }

  /** One of the first n columns selects bit m. */
  predicate RowSelects(cols: seq<Column>, bitSize: seq<nat>, len: nat, n: nat, m: nat)
    requires ValidColumns(cols, bitSize) && n <= |cols| && len > 0
  {
    exists c :: 0 <= c < n && ColumnSelects(cols, bitSize, len, c, m)
  }

  lemma {:induction false} RowSelectsNext(cols: seq<Column>, bitSize: seq<nat>, len: nat, n: nat, m: nat)
    requires ValidColumns(cols, bitSize) && n < |cols| && len > 0
    ensures RowSelects(cols, bitSize, len, n + 1, m) <==>
              RowSelects(cols, bitSize, len, n, m) || ColumnSelects(cols, bitSize, len, n, m)
  {
  }

  /** A row signature has exactly the bits its non-null columns select. */
  lemma {:induction false} RowHas(cols: seq<Column>, bitSize: seq<nat>, len: nat, n: nat, m: nat)
    requires ValidColumns(cols, bitSize) && n <= |cols| && len > 0
    ensures HasBit(RowSign(cols, bitSize, len, n), m) <==> RowSelects(cols, bitSize, len, n, m)
  {
    if n == 0 {
      ZerosHaveNone(len, m);
    } else {
      RowHas(cols, bitSize, len, n - 1, m);
      RowSelectsNext(cols, bitSize, len, n - 1, m);
      if cols[n - 1].Hashed? {
        SignedHas(RowSign(cols, bitSize, len, n - 1), n - 1, cols[n - 1].hash, bitSize[n - 1], m);
      }
    }
  }

  predicate RowSignable(cols: seq<Column>, bitSize: seq<nat>, n: nat)
    requires ValidColumns(cols, bitSize) && n <= |cols|
  {
    forall i :: 0 <= i < n && cols[i].Hashed? ==> Signable(i, cols[i].hash, bitSize[i])
  }

  /** BloomFormTuple */
  method FormSignature(gen: Generator, cols: seq<Column>, bitSize: seq<nat>, len: nat)
    returns (ok: bool, sign: array<Word>)
    requires ValidColumns(cols, bitSize) && 0 < len <= MAX_WORDS
    modifies gen
    ensures fresh(sign)
    ensures ok <==> RowSignable(cols, bitSize, |cols|)
    ensures ok ==> sign[..] == RowSign(cols, bitSize, len, |cols|)
    ensures ok ==> forall m: nat :: HasBit(sign[..], m) <==> RowSelects(cols, bitSize, len, |cols|, m)
  {
    ok, sign := FormLoop(gen, cols, bitSize, len);
    if ok {
      forall m: nat
        ensures HasBit(sign[..], m) <==> RowSelects(cols, bitSize, len, |cols|, m)
      {
        RowHas(cols, bitSize, len, |cols|, m);
      }
    }
  }

  method FormLoop(gen: Generator, cols: seq<Column>, bitSize: seq<nat>, len: nat)
    returns (ok: bool, sign: array<Word>)
    requires ValidColumns(cols, bitSize) && 0 < len <= MAX_WORDS
    modifies gen
    ensures fresh(sign)
    ensures ok <==> RowSignable(cols, bitSize, |cols|)
    ensures ok ==> sign[..] == RowSign(cols, bitSize, len, |cols|)
  {
    sign := new Word[len](_ => ZERO);
    assert sign[..] == Zeros(len);
    for i := 0 to |cols|
      invariant sign.Length == len && fresh(sign)
      invariant RowSignable(cols, bitSize, i)
      invariant sign[..] == RowSign(cols, bitSize, len, i)
    {
      if cols[i].Hashed? {
        ok := SignValue(gen, sign, i, cols[i].hash, bitSize[i]);
        if !ok { return; }
      }
    }
    ok := true;
  }

  function ScanSign(keys: seq<ScanKey>, bitSize: seq<nat>, len: nat, n: nat): (r: Words)
    requires ValidKeys(keys, bitSize) && n <= |keys| && len > 0
    requires forall i :: 0 <= i < n ==> keys[i].arg.Hashed?
    ensures |r| == len
  {
    if n == 0 then Zeros(len)
    else
      Signed(ScanSign(keys, bitSize, len, n - 1), keys[n - 1].att, keys[n - 1].arg.hash, bitSize[keys[n - 1].att])
  }

  /** Scan key k selects bit m. */
  predicate KeySelects(keys: seq<ScanKey>, bitSize: seq<nat>, len: nat, k: nat, m: nat)
    requires ValidKeys(keys, bitSize) && k < |keys| && keys[k].arg.Hashed? && len > 0
  {
    Drawn(SeedState(ValueSeed(keys[k].att, keys[k].arg.hash)) as int, bitSize[keys[k].att], len, m)
  }

  /** A scan signature has exactly the bits its keys select. */
  lemma {:induction false} ScanHas(keys: seq<ScanKey>, bitSize: seq<nat>, len: nat, n: nat, m: nat)
    requires ValidKeys(keys, bitSize) && n <= |keys| && len > 0
    requires forall i :: 0 <= i < n ==> keys[i].arg.Hashed?
    ensures HasBit(ScanSign(keys, bitSize, len, n), m) <==> exists k :: 0 <= k < n && KeySelects(keys, bitSize, len, k, m)
  {
    if n > 0 {
      var k := keys[n - 1];
      ScanHas(keys, bitSize, len, n - 1, m);
      SignedHas(ScanSign(keys, bitSize, len, n - 1), k.att, k.arg.hash, bitSize[k.att], m);
      if HasBit(ScanSign(keys, bitSize, len, n), m) && !HasBit(ScanSign(keys, bitSize, len, n - 1), m) {
        assert KeySelects(keys, bitSize, len, n - 1, m);
      }
    } else {
      ZerosHaveNone(len, m);
    }
  }

  /** The mask test of blgetbitmap. */
  predicate MaskTest(tuple: Words, scan: Words) {
    |scan| <= |tuple| && forall i :: 0 <= i < |scan| ==> And(tuple[i], scan[i]) == scan[i]
  }

  method Test(tuple: Words, scan: Words) returns (res: bool)
    requires |tuple| == |scan|
    ensures res <==> MaskTest(tuple, scan)
  {
    var i := 0;
    while i < |scan|
      invariant i <= |scan|
      invariant forall j :: 0 <= j < i ==> And(tuple[j], scan[j]) == scan[j]
    {
      if And(tuple[i], scan[i]) != scan[i] {
        return false;
      }
      i := i + 1;
    }
    return true;
  }

  // ------------------------------------------------------ no false negatives

  function Or(a: Words, b: Words): (r: Words)
    requires |a| == |b|
    ensures |r| == |a|
  {
    seq(|a|, i requires 0 <= i < |a| => OrWord(a[i], b[i]))
  }

  lemma {:induction false} SetBitOr(a: Words, b: Words, n: nat)
    requires |a| == |b| && n < WORD_BITS * |a|
    ensures SetBit(Or(a, b), n) == Or(a, SetBit(b, n))
  {
    var k := n / 16;
    assert OrWord(OrWord(a[k], b[k]), Bit(n % 16)) == OrWord(a[k], OrWord(b[k], Bit(n % 16)));
  }

  lemma {:induction false} DrawOr(a: Words, b: Words, state: int, k: nat)
    requires |a| == |b| > 0
    ensures Draw(Or(a, b), state, k) == Or(a, Draw(b, state, k))
    decreases k
  {
    if k > 0 {
      var s := Park(state);
      var n := (s - 1) % (WORD_BITS * |a|);
      SetBitOr(a, b, n);
      DrawOr(a, SetBit(b, n), s, k - 1);
    }
  }

  /** Signing a value into words is or-ing in that value's own signature. */
  lemma {:induction false} SignedIsOr(ws: Words, att: nat, hash: nat, bits: nat)
    requires |ws| > 0 && att < MAX_COLUMNS && hash < 0x1_0000_0000
    ensures Signed(ws, att, hash, bits) == Or(ws, Signed(Zeros(|ws|), att, hash, bits))
  {
    assert forall w :: OrWord(w, ZERO) == w;
    assert Or(ws, Zeros(|ws|)) == ws;
    DrawOr(ws, Zeros(|ws|), SeedState(ValueSeed(att, hash)) as int, bits);
  }

  lemma {:induction false} OrTests(t: Words, a: Words, b: Words)
    requires |t| == |a| == |b| && MaskTest(t, a) && MaskTest(t, b)
    ensures MaskTest(t, Or(a, b))
  {
    forall i | 0 <= i < |t|
      ensures And(t[i], Or(a, b)[i]) == Or(a, b)[i]
    {
      assert And(t[i], OrWord(a[i], b[i])) == OrWord(And(t[i], a[i]), And(t[i], b[i]));
    }
  }

  lemma {:induction false} OrGrows(a: Words, b: Words, s: Words)
    requires |a| == |b| == |s| && (MaskTest(a, s) || MaskTest(b, s))
    ensures MaskTest(Or(a, b), s)
  {
    forall i | 0 <= i < |a|
      ensures And(Or(a, b)[i], s[i]) == s[i]
    {
      assert And(OrWord(a[i], b[i]), s[i]) == OrWord(And(a[i], s[i]), And(b[i], s[i]));
      assert forall w :: OrWord(And(w, s[i]), s[i]) == s[i] == OrWord(s[i], And(w, s[i]));
    }
  }

  lemma {:induction false} SignedContains(ws: Words, att: nat, hash: nat, bits: nat, s: Words)
    requires |ws| == |s| > 0 && att < MAX_COLUMNS && hash < 0x1_0000_0000
    requires MaskTest(ws, s) || s == Signed(Zeros(|ws|), att, hash, bits)
    ensures MaskTest(Signed(ws, att, hash, bits), s)
  {
    var own := Signed(Zeros(|ws|), att, hash, bits);
    SignedIsOr(ws, att, hash, bits);
    assert forall w :: And(w, w) == w;
    OrGrows(ws, own, s);
  }

  lemma {:induction false} SignedWithin(t: Words, ws: Words, att: nat, hash: nat, bits: nat)
    requires |t| == |ws| > 0 && att < MAX_COLUMNS && hash < 0x1_0000_0000
    requires MaskTest(t, ws) && MaskTest(t, Signed(Zeros(|ws|), att, hash, bits))
    ensures MaskTest(t, Signed(ws, att, hash, bits))
  {
    SignedIsOr(ws, att, hash, bits);
    OrTests(t, ws, Signed(Zeros(|ws|), att, hash, bits));
  }

  /** A row's signature contains the signature of each of its values. */
  lemma {:induction false} RowContains(cols: seq<Column>, bitSize: seq<nat>, len: nat, n: nat, c: nat)
    requires ValidColumns(cols, bitSize) && c < n <= |cols| && len > 0 && cols[c].Hashed?
    ensures MaskTest(RowSign(cols, bitSize, len, n), Signed(Zeros(len), c, cols[c].hash, bitSize[c]))
  {
    if c < n - 1 {
      RowContains(cols, bitSize, len, n - 1, c);
    }
    if cols[n - 1].Hashed? {
      SignedContains(RowSign(cols, bitSize, len, n - 1), n - 1, cols[n - 1].hash, bitSize[n - 1],
                     Signed(Zeros(len), c, cols[c].hash, bitSize[c]));
    }
  }

  /**
    A scan whose keys hash like the row's own columns always accepts the row,
    for any set of keys, in any order and with repetitions.
   */
  lemma {:induction false} NoFalseNegative(cols: seq<Column>, bitSize: seq<nat>, len: nat,
                                           keys: seq<ScanKey>, n: nat)
    requires ValidColumns(cols, bitSize) && ValidKeys(keys, bitSize) && n <= |keys| && len > 0
    requires forall i :: 0 <= i < n ==>
      keys[i].att < |cols| && keys[i].arg.Hashed? && cols[keys[i].att] == keys[i].arg
    ensures MaskTest(RowSign(cols, bitSize, len, |cols|), ScanSign(keys, bitSize, len, n))
  {
    if n > 0 {
      var k := keys[n - 1];
      NoFalseNegative(cols, bitSize, len, keys, n - 1);
      RowContains(cols, bitSize, len, |cols|, k.att);
      SignedWithin(RowSign(cols, bitSize, len, |cols|), ScanSign(keys, bitSize, len, n - 1),
                   k.att, k.arg.hash, bitSize[k.att]);
    }
  }

  // ------------------------------------------------------------- bits as sets

  lemma {:induction false} WordSubset(t: Word, s: Word)
    ensures And(t, s) == s <==> forall k :: 0 <= k < 16 ==> (s[k] ==> t[k])
  {
    if And(t, s) == s {
      forall k | 0 <= k < 16
        ensures s[k] ==> t[k]
      {
        assert And(t, s)[k] == s[k];
      }
    }
  }

  /** The word-wise test is inclusion of the sets of bits. */
  lemma {:induction false} MaskTestIffSubset(t: Words, s: Words)
    requires |t| == |s|
    ensures MaskTest(t, s) <==> forall n :: HasBit(s, n) ==> HasBit(t, n)
  {
    if MaskTest(t, s) {
      forall n | HasBit(s, n)
        ensures HasBit(t, n)
      {
        WordSubset(t[n / 16], s[n / 16]);
      }
    }
    if forall n :: HasBit(s, n) ==> HasBit(t, n) {
      forall i | 0 <= i < |s|
        ensures And(t[i], s[i]) == s[i]
      {
        forall k | 0 <= k < 16
          ensures s[i][k] ==> t[i][k]
        {
          var n := 16 * i + k;
          assert n / 16 == i && n % 16 == k;
          assert HasBit(s, n) ==> HasBit(t, n);
        }
        WordSubset(t[i], s[i]);
      }
    }
  }
}
