/**
  A value that prints but cannot be read back: one pair more than the parser's
  pair array can grow to.
 */
module HstoreLimit {
  import opened Bytes
  import opened HstoreLayout
  import opened HstoreOrder
  import opened HstoreOps
  import opened HstoreIO
  import T = HstoreText

  /** Digit d of i in base 128. */
  function Digit(i: nat, unit: nat): byte
    requires unit > 0
  {
    1 + (i / unit) % 128
  }

  /** A four-byte key without NUL bytes. */
  function NumberKey(i: nat): bytes {
    [Digit(i, 0x20_0000), Digit(i, 0x4000), Digit(i, 0x80), Digit(i, 1)]
  }

  lemma {:induction false} Compare4(a: bytes, b: bytes)
    requires |a| == |b| == 4
    requires
      || a[0] < b[0]
      || (a[0] == b[0] && a[1] < b[1])
      || (a[0] == b[0] && a[1] == b[1] && a[2] < b[2])
      || (a[0] == b[0] && a[1] == b[1] && a[2] == b[2] && a[3] < b[3])
    ensures Compare(a, b) < 0
  {
    assert a[1..][1..] == a[2..] && b[1..][1..] == b[2..];
    assert a[2..][1..] == a[3..] && b[2..][1..] == b[3..];
    assert Compare(a, b) == if a[0] != b[0] then -1 else Compare(a[1..], b[1..]);
    assert a[0] == b[0] ==> Compare(a[1..], b[1..]) == if a[1] != b[1] then -1 else Compare(a[2..], b[2..]);
    assert a[0] == b[0] && a[1] == b[1] ==> Compare(a[2..], b[2..]) == if a[2] != b[2] then -1 else Compare(a[3..], b[3..]);
  }

  /** Numbers below 2^28 are ordered like their digits. */
  lemma {:induction false} DigitsOrder(i: nat, j: nat)
    requires i < j < 0x1000_0000
    ensures var a, b := NumberKey(i), NumberKey(j);
      || a[0] < b[0]
      || (a[0] == b[0] && a[1] < b[1])
      || (a[0] == b[0] && a[1] == b[1] && a[2] < b[2])
      || (a[0] == b[0] && a[1] == b[1] && a[2] == b[2] && a[3] < b[3])
  {
    Split(i);
    Split(j);
  }

  lemma {:induction false} Split(i: nat)
    requires i < 0x1000_0000
    ensures i == 0x20_0000 * (Digit(i, 0x20_0000) - 1) + 0x4000 * (Digit(i, 0x4000) - 1)
                 + 0x80 * (Digit(i, 0x80) - 1) + (Digit(i, 1) - 1)
  {
    var q1, q2, q3 := i / 0x80, i / 0x4000, i / 0x20_0000;
    assert q2 == q1 / 0x80 && q3 == q2 / 0x80;
    assert i == 0x80 * q1 + i % 0x80 && q1 == 0x80 * q2 + q1 % 0x80 && q2 == 0x80 * q3 + q2 % 0x80;
  }

  function Numbered(n: nat): (ps: seq<Pair>)
    ensures |ps| == n
  {
    seq(n, i requires 0 <= i < n => Pair(NumberKey(i), Null))
  }

  lemma {:induction false} NumberedSorted(n: nat)
    requires n <= 0x1000_0000
    ensures Sorted(Numbered(n)) && TextOnly(Numbered(n))
  {
    var ps := Numbered(n);
    forall i, j | 0 <= i < j < n
      ensures KeyCmp(ps[i].key, ps[j].key) < 0
    {
      DigitsOrder(i, j);
      Compare4(NumberKey(i), NumberKey(j));
    }
  }

  lemma {:induction false} NumberedSize(ps: seq<Pair>, n: nat)
    requires n <= |ps| && forall i :: 0 <= i < n ==> |ps[i].key| == 4 && ps[i].val.Null?
    ensures PairStart(ps, n) == 4 * n && BufLen(ps, n) == 18 * n
  {
    if n > 0 { NumberedSize(ps, n - 1); }
  }

  /** hstore_out prints this value, and hstore_in rejects the text. */
  method PrintsButDoesNotRead() returns (hs: Mem, text: OutResult, r: InResult)
    ensures Canonical(hs) && TextOnly(PairsOf(hs))
    ensures text.Printed? && r == Rejected(T.OutOfMemory)
  {
    var n := T.MAX_ITEMS + 1;
    var ps := Numbered(n);
    NumberedSorted(n);
    NumberedSize(ps, n);
    var packed := Pack(ps, 4 * n);
    hs := packed.hs;
    PairsOfUnique(hs, ps);
    text, r := RoundTrip(hs);
  }
}
