/**
  The Park-Miller generator of the bloom access method.  Every 32-bit operation
  is done in `int32`, whose arithmetic Dafny checks for overflow; `/` and `%`
  of C truncate toward zero.
 */
module BloomRand {
  import opened Machine

  const MODULUS: int := 0x7fff_ffff

  function Size(a: int32): nat { if a >= 0 then a as int else -(a as int) }

  /** C division: the quotient with the sign of a and the greatest size that does not exceed a's. */
  function TruncDiv(a: int32, b: int32): (q: int32)
    requires b > 1
    ensures (a >= 0 ==> q >= 0) && (a <= 0 ==> q <= 0)
    ensures Size(q) * b as int <= Size(a) < (Size(q) + 1) * b as int
  {
    var m := Size(a);
    QuotientBound(m, b as int);
    (if a >= 0 then m / b as int else -(m / b as int)) as int32
  }

  lemma {:induction false} QuotientBound(n: int, b: int)
    requires n >= 0 && b > 1
    ensures 0 <= n / b && 2 * (n / b) <= n
  {
    var q := n / b;
    assert b * (-q - 1) == -(b * q) - b;
    if q < 0 { ProductNonnegative(b, -q - 1); }
    assert (b - 2) * q == b * q - 2 * q;
    ProductNonnegative(b - 2, q);
  }

  lemma {:induction false} ProductNonnegative(x: int, y: int)
    requires x >= 0 && y >= 0
    ensures x * y >= 0
  {
  }

  function TruncMod(a: int32, b: int32): (r: int32)
    requires b > 1
    ensures a as int == b as int * TruncDiv(a, b) as int + r as int
    ensures -b < r < b && (a <= 0 ==> r <= 0)
    ensures a >= 0 ==> r as int == a as int % b as int
  {
    var m := if a >= 0 then a as int else -(a as int);
    DivisionIdentity(m, b as int);
    (if a >= 0 then m % b as int else -(m % b as int)) as int32
  }

  lemma {:induction false} DivisionIdentity(m: int, b: int)
    requires b > 1
    ensures m == b * (m / b) + m % b && 0 <= m % b < b
    ensures -m == b * (-(m / b)) + -(m % b)
  {
    assert b * (-(m / b)) == -(b * (m / b));
  }

  /** One step of the multiplicative generator, as mathematics. */
  function Park(n: int): int {
    (16807 * n) % MODULUS
  }

  /** The C conversion of a uint32 to int32. */
  function ToInt32(seed: nat): int32
    requires seed < 0x1_0000_0000
  {
    (if seed >= 0x8000_0000 then seed - 0x1_0000_0000 else seed) as int32
  }

  function SeedState(seed: nat): int32
    requires seed < 0x1_0000_0000
  {
    TruncMod(ToInt32(seed), 0x7fff_fffe) + 1
  }

  /** The state a seed gives: one more than its remainder as a signed number. */
  lemma {:induction false} SeedStateIs(seed: nat)
    requires seed < 0x1_0000_0000
    ensures SeedState(seed) as int == if seed < 0x8000_0000 then 1 + seed % 0x7fff_fffe else 1 - (0x1_0000_0000 - seed) % 0x7fff_fffe
  {
  }

  /** The static variable `next` with mySrand and myRand. */
  class Generator {
    var next: int32

    constructor ()
      ensures next == 0
    {
      next := 0;
    }

    method Srand(seed: nat)
      requires seed < 0x1_0000_0000
      modifies this
      ensures next == SeedState(seed)
      ensures next as int == if seed < 0x8000_0000 then 1 + seed % 0x7fff_fffe else 1 - (0x1_0000_0000 - seed) % 0x7fff_fffe
    {
      SeedStateIs(seed);
      next := ToInt32(seed);
      next := TruncMod(next, 0x7fff_fffe) + 1;
    }

    /** The split multiplication stays in 32 bits and is exact for every state. */
    method Rand() returns (r: int32)
      modifies this
      ensures next as int == Park(old(next) as int)
      ensures r as int == next as int - 1
    {
      SplitBounds(next);
      var hi := TruncDiv(next, 127773);
      var lo := TruncMod(next, 127773);
      var x := 16807 * lo - 2836 * hi;
      SplitExact(next as int, hi as int, lo as int);
      if x < 0 {
        x := x + 0x7fff_ffff;
      }
      next := x;
      r := x - 1;
    }
  }

  lemma {:induction false} SplitBounds(n: int32)
    ensures -16807 <= TruncDiv(n, 127773) <= 16807
  {
  }

  lemma {:induction false} SplitExact(n: int, hi: int, lo: int)
    requires n == 127773 * hi + lo && -127773 < lo < 127773
    requires (0 <= hi <= 16807 && 0 <= lo) || (-16807 <= hi <= 0 && lo <= 0)
    ensures var x := 16807 * lo - 2836 * hi;
            Park(n) == if x < 0 then x + MODULUS else x
  {
    var x := 16807 * lo - 2836 * hi;
    assert 16807 * n == MODULUS * hi + x;
    var r, q := if x < 0 then x + MODULUS else x, if x < 0 then hi - 1 else hi;
    ModUnique(16807 * n, q, r);
  }

  lemma {:induction false} ModUnique(a: int, q: int, r: int)
    requires a == MODULUS * q + r && 0 <= r < MODULUS
    ensures a % MODULUS == r
  {
  }

  // ------------------------------------------------------------- whole runs

  function StateAfter(start: int, k: nat): int {
    if k == 0 then start else Park(StateAfter(start, k - 1))
  }

  function Pow(b: int, k: nat): int {
    if k == 0 then 1 else b * Pow(b, k - 1)
  }

  lemma {:induction false} ParkOfMod(a: int)
    ensures Park(a % MODULUS) == Park(a)
  {
    var q, r := a / MODULUS, a % MODULUS;
    assert a == MODULUS * q + r;
    var s := (16807 * r) % MODULUS;
    assert 16807 * a == MODULUS * (16807 * q + (16807 * r) / MODULUS) + s;
    ModUnique(16807 * a, 16807 * q + (16807 * r) / MODULUS, s);
  }

  /** After k calls the state is 16807^k times the start, modulo 2^31 - 1. */
  lemma {:induction false} StateIsPower(start: int, k: nat)
    requires k >= 1
    ensures StateAfter(start, k) == (Pow(16807, k) * start) % MODULUS
  {
    if k == 1 {
      assert Pow(16807, 1) == 16807 * Pow(16807, 0) == 16807;
    } else {
      StateIsPower(start, k - 1);
      ParkOfMod(Pow(16807, k - 1) * start);
      assert Pow(16807, k) * start == 16807 * (Pow(16807, k - 1) * start);
    }
  }

  /** A run can be resumed from any of its states. */
  lemma {:induction false} StateShift(start: int, k: nat)
    ensures StateAfter(Park(start), k) == StateAfter(start, k + 1)
  {
    if k > 0 { StateShift(start, k - 1); }
  }

  /** 16807 is invertible modulo 2^31 - 1, so a nonzero state stays nonzero. */
  lemma {:induction false} ParkNonzero(n: int)
    requires -MODULUS < n < MODULUS
    ensures 0 <= Park(n) < MODULUS
    ensures Park(n) == 0 <==> n == 0
  {
    var q := (16807 * n) / MODULUS;
    if Park(n) == 0 {
      assert 16807 * n == MODULUS * q;
      // 16807 * 1407677000 == 1 + 11017 * MODULUS
      assert n == MODULUS * (1407677000 * q - 11017 * n);
    }
  }

  predicate DegenerateSeed(seed: nat) {
    seed == 0xFFFF_FFFF || seed == 0x8000_0001
  }

  lemma {:induction false} SeedStateRange(seed: nat)
    requires seed < 0x1_0000_0000
    ensures -MODULUS < SeedState(seed) as int < MODULUS
    ensures SeedState(seed) == 0 <==> DegenerateSeed(seed)
  {
  }

  /**
    Starting from a seed, the state after any number of calls lies in
    [1, 2^31 - 2] if and only if the seed is not one of the two degenerate ones,
    which send the generator to its fixed point 0.
   */
  lemma {:induction false} StateInRangeIff(seed: nat, k: nat)
    requires seed < 0x1_0000_0000 && k >= 1
    ensures 1 <= StateAfter(SeedState(seed) as int, k) < MODULUS <==> !DegenerateSeed(seed)
    ensures DegenerateSeed(seed) ==> StateAfter(SeedState(seed) as int, k) == 0
  {
    SeedStateRange(seed);
    var s := SeedState(seed) as int;
    if k == 1 {
      assert StateAfter(s, 0) == s;
      ParkNonzero(s);
    } else {
      StateInRangeIff(seed, k - 1);
      ParkNonzero(StateAfter(s, k - 1));
    }
  }
}
