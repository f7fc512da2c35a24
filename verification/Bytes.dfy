/**
  Byte strings and their lexicographic order: what byteacmp and memcmp compute.
  A shorter string precedes its own extensions.
 */
module Bytes {
  type byte = x: int | 0 <= x < 256
  type bytes = seq<byte>

  /** The sign of byteacmp(a, b). */
  function Compare(a: bytes, b: bytes): (r: int)
    ensures -1 <= r <= 1
    ensures r == 0 <==> a == b
  {
    if a == [] || b == [] then
      if |a| == |b| then 0 else if |a| < |b| then -1 else 1
    else if a[0] != b[0] then
      if a[0] < b[0] then -1 else 1
    else
      assert a == [a[0]] + a[1..] && b == [b[0]] + b[1..];
      Compare(a[1..], b[1..])
  }

  predicate Le(a: bytes, b: bytes) {
    Compare(a, b) <= 0
  }

  /** a and b agree before position i, and there a ends or has the smaller byte. */
  predicate BeforeAt(a: bytes, b: bytes, i: nat) {
    i <= |a| && i < |b| && a[..i] == b[..i] && (i == |a| || a[i] < b[i])
  }

  /** The first difference decides the order; a proper prefix comes first. */
  ghost predicate Before(a: bytes, b: bytes) { exists i: nat :: BeforeAt(a, b, i) }

  lemma {:induction false} CompareDecides(a: bytes, b: bytes)
    ensures Compare(a, b) < 0 <==> Before(a, b)
    decreases |a|
  {
    if a == [] || b == [] {
      if b != [] { assert BeforeAt(a, b, 0); }
    } else if a[0] != b[0] {
      if a[0] < b[0] { assert BeforeAt(a, b, 0); }
      if Before(a, b) {
        var i: nat :| BeforeAt(a, b, i);
        if i > 0 { assert a[..i][0] == b[..i][0]; }
      }
    } else {
      CompareDecides(a[1..], b[1..]);
      if Before(a[1..], b[1..]) {
        var i: nat :| BeforeAt(a[1..], b[1..], i);
        assert a[..i + 1] == [a[0]] + a[1..][..i] && b[..i + 1] == [b[0]] + b[1..][..i];
        assert BeforeAt(a, b, i + 1);
      }
      if Before(a, b) {
        var i: nat :| BeforeAt(a, b, i);
        assert a[1..][..i - 1] == a[..i][1..] && b[1..][..i - 1] == b[..i][1..];
        assert BeforeAt(a[1..], b[1..], i - 1);
      }
    }
  }

  lemma {:induction false} CompareAntisym(a: bytes, b: bytes)
    ensures Compare(a, b) == -Compare(b, a)
  {
    if a != [] && b != [] { CompareAntisym(a[1..], b[1..]); }
  }

  lemma {:induction false} LeTrans(a: bytes, b: bytes, c: bytes)
    requires Le(a, b) && Le(b, c)
    ensures Le(a, c)
  {
    if a != [] && b != [] && c != [] && a[0] == b[0] == c[0] {
      LeTrans(a[1..], b[1..], c[1..]);
    }
  }

  lemma {:induction false} LeTotal(a: bytes, b: bytes)
    ensures Le(a, b) || Le(b, a)
  {
    CompareAntisym(a, b);
  }

  /** A prefix precedes its extensions. */
  lemma {:induction false} PrefixLe(p: bytes, v: bytes)
    requires p <= v
    ensures Le(p, v)
  {
    if p != [] {
      assert p[1..] <= v[1..];
      PrefixLe(p[1..], v[1..]);
    }
  }

  /** The strings with prefix p form an interval. */
  lemma {:induction false} PrefixConvex(p: bytes, q: bytes, v: bytes)
    requires p <= v && Le(p, q) && Le(q, v)
    ensures p <= q
  {
    if p != [] {
      assert p[0] == v[0] == q[0];
      assert p[1..] <= v[1..];
      PrefixConvex(p[1..], q[1..], v[1..]);
      assert q == [q[0]] + q[1..] && p == [p[0]] + p[1..];
    }
  }

  /** A string above p that does not extend p is above every extension of p. */
  lemma {:induction false} PrefixBelow(p: bytes, v: bytes, q: bytes)
    requires p <= v && Le(p, q) && !(p <= q)
    ensures Le(v, q)
  {
    LeTotal(v, q);
    if Le(q, v) { PrefixConvex(p, q, v); }
  }
}
