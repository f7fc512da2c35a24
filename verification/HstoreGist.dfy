/**
  Signature keys of the GiST index on hstore: one bit per hashed key or value.
  A key with the all-true flag stores no bits and stands for all ones.  Hashing
  is an arbitrary function of the bytes.
 */
module HstoreGist {
  import opened Bytes
  import opened HstoreLayout
  import opened HstoreOrder
  import opened HstoreOps
  import opened HstoreFind

  /** The eight bits of one signature byte. */
  type Octet = b: seq<bool> | |b| == 8 witness [false, false, false, false, false, false, false, false]
  type Sign = seq<Octet>

  const ZERO: Octet := [false, false, false, false, false, false, false, false]
  const FULL: Octet := [true, true, true, true, true, true, true, true]

  /** GISTTYPE */
  datatype Key = AllTrue | Signed(sign: Sign)

  predicate Bit(s: Sign, i: nat)
    requires i < 8 * |s|
  {
    s[i / 8][i % 8]
  }

  predicate Sized(k: Key, siglen: nat) { k.Signed? ==> |k.sign| == siglen }

  /** Whether the key has bit i. */
  predicate Has(k: Key, siglen: nat, i: nat)
    requires Sized(k, siglen) && i < 8 * siglen
  {
    k.AllTrue? || Bit(k.sign, i)
  }

  /** HASHVAL: the bit a string sets. */
  function HashVal(crc: bytes -> nat, w: bytes, siglen: nat): (i: nat)
    requires siglen > 0
    ensures i < 8 * siglen
  {
    crc(w) % (8 * siglen)
  }

  // ------------------------------------------------------------------ leaf keys

  /** Bit i is set by the key or the value of pair p. */
  predicate SetBy(crc: bytes -> nat, p: Pair, siglen: nat, i: nat)
    requires siglen > 0
  {
    HashVal(crc, p.key, siglen) == i || (p.val.Text? && HashVal(crc, p.val.text, siglen) == i)
  }

  predicate SetByAny(crc: bytes -> nat, ps: seq<Pair>, n: nat, siglen: nat, i: nat)
    requires siglen > 0 && n <= |ps|
  {
    exists j :: 0 <= j < n && SetBy(crc, ps[j], siglen, i)
  }

  /** SETBIT on the bytes in place. */
  method SetBit(sign: array<Octet>, i: nat)
    requires i < 8 * sign.Length
    modifies sign
    ensures forall j :: 0 <= j < 8 * sign.Length ==> Bit(sign[..], j) == (j == i || old(Bit(sign[..], j)))
  {
    sign[i / 8] := sign[i / 8][i % 8 := true];
  }

  /** The bits hold exactly the hashes of the first n pairs. */
  ghost predicate Hashed(s: Sign, crc: bytes -> nat, ps: seq<Pair>, n: nat, siglen: nat)
    requires siglen > 0 && |s| == siglen && n <= |ps|
  {
    forall i :: 0 <= i < 8 * siglen ==> (Bit(s, i) <==> SetByAny(crc, ps, n, siglen, i))
  }

  lemma {:induction false} ZeroBits(s: Sign, i: nat)
    requires i < 8 * |s| && forall j :: 0 <= j < |s| ==> s[j] == ZERO
    ensures !Bit(s, i)
  {
  }

  lemma {:induction false} SetByNext(crc: bytes -> nat, ps: seq<Pair>, n: nat, siglen: nat, i: nat)
    requires siglen > 0 && n < |ps|
    ensures SetByAny(crc, ps, n + 1, siglen, i) <==> SetByAny(crc, ps, n, siglen, i) || SetBy(crc, ps[n], siglen, i)
  {
  }

  method HashPair(sign: array<Octet>, crc: bytes -> nat, p: Pair, ghost ps: seq<Pair>, ghost n: nat)
    requires sign.Length > 0 && n < |ps| && ps[n] == p && Hashed(sign[..], crc, ps, n, sign.Length)
    modifies sign
    ensures Hashed(sign[..], crc, ps, n + 1, sign.Length)
  {
    var siglen := sign.Length;
    SetBit(sign, HashVal(crc, p.key, siglen));
    if !p.val.Null? {
      SetBit(sign, HashVal(crc, p.val.text, siglen));
    }
    forall i | 0 <= i < 8 * siglen
      ensures Bit(sign[..], i) <==> SetByAny(crc, ps, n + 1, siglen, i)
    {
      SetByNext(crc, ps, n, siglen, i);
    }
  }

  /** ghstore_compress of a leaf value. */
  method CompressLeaf(hs: Mem, crc: bytes -> nat, siglen: nat, ghost ps: seq<Pair>) returns (k: Key)
    requires Packed(hs, ps) && siglen > 0
    ensures k.Signed? && |k.sign| == siglen && Hashed(k.sign, crc, ps, |ps|, siglen)
  {
    var sign := new Octet[siglen](_ => ZERO);
    var count := ReadCount(hs, ps);
    forall i | 0 <= i < 8 * siglen
      ensures !Bit(sign[..], i)
    {
      ZeroBits(sign[..], i);
    }
    for j := 0 to count
      invariant Hashed(sign[..], crc, ps, j, siglen)
    {
      var p := ReadPair(hs, j, ps);
      HashPair(sign, crc, p, ps, j);
    }
    k := Signed(sign[..]);
  }

  /** ghstore_compress of an inner key: a full signature gets the flag instead. */
  method CompressInner(k: Key, siglen: nat) returns (r: Key)
    requires Sized(k, siglen)
    ensures Sized(r, siglen) && forall i :: 0 <= i < 8 * siglen ==> Has(r, siglen, i) == Has(k, siglen, i)
    ensures r.AllTrue? <==> k.AllTrue? || forall j :: 0 <= j < siglen ==> k.sign[j] == FULL
  {
    if k.AllTrue? {
      return k;
    }
    for j := 0 to siglen
      invariant forall i :: 0 <= i < j ==> k.sign[i] == FULL
    {
      if k.sign[j] != FULL {
        return k;
      }
    }
    return AllTrue;
  }

  // --------------------------------------------------------------------- unions

  function OrOctet(a: Octet, b: Octet): Octet {
    seq(8, i requires 0 <= i < 8 => a[i] || b[i])
  }

  /** ORs the bytes of add into sbase in place. */
  method OrInto(sbase: array<Octet>, add: Sign)
    requires sbase.Length == |add|
    modifies sbase
    ensures forall i :: 0 <= i < 8 * sbase.Length ==> Bit(sbase[..], i) == (old(Bit(sbase[..], i)) || Bit(add, i))
  {
    for j := 0 to sbase.Length
      invariant forall i :: 0 <= i < j ==> sbase[i] == OrOctet(old(sbase[i]), add[i])
      invariant forall i :: j <= i < sbase.Length ==> sbase[i] == old(sbase[i])
    {
      sbase[j] := OrOctet(sbase[j], add[j]);
    }
  }

  /** Some of the first n entries has bit i. */
  predicate AnyHas(es: seq<Key>, n: nat, siglen: nat, i: nat)
    requires n <= |es| && (forall j :: 0 <= j < |es| ==> Sized(es[j], siglen)) && i < 8 * siglen
  {
    exists j :: 0 <= j < n && Has(es[j], siglen, i)
  }

  lemma {:induction false} AnyHasNext(es: seq<Key>, n: nat, siglen: nat, i: nat)
    requires n < |es| && (forall j :: 0 <= j < |es| ==> Sized(es[j], siglen)) && i < 8 * siglen
    ensures AnyHas(es, n + 1, siglen, i) <==> AnyHas(es, n, siglen, i) || Has(es[n], siglen, i)
  {
  }

  /** ghstore_union: exactly the bits of its entries. */
  method Union(es: seq<Key>, siglen: nat) returns (r: Key)
    requires forall j :: 0 <= j < |es| ==> Sized(es[j], siglen)
    ensures Sized(r, siglen) && forall i :: 0 <= i < 8 * siglen ==> (Has(r, siglen, i) <==> AnyHas(es, |es|, siglen, i))
  {
    var base := new Octet[siglen](_ => ZERO);
    forall i | 0 <= i < 8 * siglen
      ensures !Bit(base[..], i)
    {
      ZeroBits(base[..], i);
    }
    var j := 0;
    while j < |es|
      invariant 0 <= j <= |es|
      invariant forall i :: 0 <= i < 8 * siglen ==> (Bit(base[..], i) <==> AnyHas(es, j, siglen, i))
    {
      if es[j].AllTrue? {
        return AllTrue;
      }
      OrInto(base, es[j].sign);
      forall i | 0 <= i < 8 * siglen
        ensures Bit(base[..], i) <==> AnyHas(es, j + 1, siglen, i)
      {
        AnyHasNext(es, j, siglen, i);
      }
      j := j + 1;
    }
    return Signed(base[..]);
  }

  // -------------------------------------------------------------------- queries

  datatype Query =
    | QContains(tmpl: seq<Pair>)
    | QExists(key: bytes)
    | QExistsAll(keys: seq<Value>)
    | QExistsAny(keys: seq<Value>)

  /** What the operators mean on the map of a row. */
  ghost predicate Satisfies(m: Map, q: Query) {
    match q
    case QContains(tmpl) => Includes(m, ToMap(tmpl))
    case QExists(key) => key in m
    case QExistsAll(keys) => forall k :: Text(k) in keys ==> k in m
    case QExistsAny(keys) => exists k :: Text(k) in keys && k in m
  }

  /** Bit of a string in a signature. */
  predicate HasHash(k: Key, crc: bytes -> nat, w: bytes, siglen: nat)
    requires siglen > 0 && Sized(k, siglen)
  {
    Has(k, siglen, HashVal(crc, w, siglen))
  }

  predicate PairMaybe(k: Key, crc: bytes -> nat, p: Pair, siglen: nat)
    requires siglen > 0 && Sized(k, siglen)
  {
    HasHash(k, crc, p.key, siglen) && (p.val.Text? ==> HasHash(k, crc, p.val.text, siglen))
  }

  /** What the consistent function answers. */
  ghost predicate Maybe(k: Key, crc: bytes -> nat, q: Query, siglen: nat)
    requires siglen > 0 && Sized(k, siglen)
  {
    k.AllTrue? ||
    match q
    case QContains(tmpl) => forall j :: 0 <= j < |tmpl| ==> PairMaybe(k, crc, tmpl[j], siglen)
    case QExists(key) => HasHash(k, crc, key, siglen)
    case QExistsAll(keys) => forall j :: 0 <= j < |keys| && keys[j].Text? ==> HasHash(k, crc, keys[j].text, siglen)
    case QExistsAny(keys) => exists j :: 0 <= j < |keys| && keys[j].Text? && HasHash(k, crc, keys[j].text, siglen)
  }

  method ConsistentContains(sign: Key, crc: bytes -> nat, query: Mem, siglen: nat, ghost tmpl: seq<Pair>) returns (res: bool)
    requires siglen > 0 && Sized(sign, siglen) && sign.Signed? && Packed(query, tmpl)
    ensures res <==> Maybe(sign, crc, QContains(tmpl), siglen)
  {
    var count := ReadCount(query, tmpl);
    res := true;
    var i := 0;
    while res && i < count
      invariant 0 <= i <= count
      invariant res <==> forall j :: 0 <= j < i ==> PairMaybe(sign, crc, tmpl[j], siglen)
    {
      var p := ReadPair(query, i, tmpl);
      if Bit(sign.sign, HashVal(crc, p.key, siglen)) {
        if !p.val.Null? {
          if !Bit(sign.sign, HashVal(crc, p.val.text, siglen)) {
            res := false;
          }
        }
      } else {
        res := false;
      }
      i := i + 1;
    }
  }

  method ConsistentAll(sign: Key, crc: bytes -> nat, keys: seq<Value>, siglen: nat) returns (res: bool)
    requires siglen > 0 && Sized(sign, siglen) && sign.Signed?
    ensures res <==> Maybe(sign, crc, QExistsAll(keys), siglen)
  {
    res := true;
    var i := 0;
    while res && i < |keys|
      invariant 0 <= i <= |keys|
      invariant res <==> forall j :: 0 <= j < i && keys[j].Text? ==> HasHash(sign, crc, keys[j].text, siglen)
    {
      if !keys[i].Null? && !Bit(sign.sign, HashVal(crc, keys[i].text, siglen)) {
        res := false;
      }
      i := i + 1;
    }
  }

  method ConsistentAny(sign: Key, crc: bytes -> nat, keys: seq<Value>, siglen: nat) returns (res: bool)
    requires siglen > 0 && Sized(sign, siglen) && sign.Signed?
    ensures res <==> Maybe(sign, crc, QExistsAny(keys), siglen)
  {
    res := false;
    var i := 0;
    while !res && i < |keys|
      invariant 0 <= i <= |keys|
      invariant res <==> exists j :: 0 <= j < i && keys[j].Text? && HasHash(sign, crc, keys[j].text, siglen)
    {
      if !keys[i].Null? && Bit(sign.sign, HashVal(crc, keys[i].text, siglen)) {
        res := true;
      }
      i := i + 1;
    }
  }

  /** ghstore_consistent; `query` is the packed template of a contains query. */
  method Consistent(k: Key, crc: bytes -> nat, q: Query, query: Mem, siglen: nat) returns (res: bool)
    requires siglen > 0 && Sized(k, siglen) && (q.QContains? ==> Packed(query, q.tmpl))
    ensures res <==> Maybe(k, crc, q, siglen)
  {
    if k.AllTrue? {
      return true;
    }
    match q
    case QContains(tmpl) => res := ConsistentContains(k, crc, query, siglen, tmpl);
    case QExists(key) => res := Bit(k.sign, HashVal(crc, key, siglen));
    case QExistsAll(keys) => res := ConsistentAll(k, crc, keys, siglen);
    case QExistsAny(keys) => res := ConsistentAny(k, crc, keys, siglen);
  }

  // ------------------------------------------------------------------ soundness

  /** k has the bits of all strings of the row ps. */
  predicate Sound(k: Key, crc: bytes -> nat, ps: seq<Pair>, siglen: nat)
    requires siglen > 0 && Sized(k, siglen)
  {
    forall j :: 0 <= j < |ps| ==> PairMaybe(k, crc, ps[j], siglen)
  }

  /** A key of the row has its bit set. */
  lemma {:induction false} KeyHashed(k: Key, crc: bytes -> nat, ps: seq<Pair>, w: bytes, siglen: nat)
    requires siglen > 0 && Sized(k, siglen) && Sorted(ps) && Sound(k, crc, ps, siglen) && w in ToMap(ps)
    ensures HasHash(k, crc, w, siglen)
    ensures ToMap(ps)[w].Text? ==> HasHash(k, crc, ToMap(ps)[w].text, siglen)
  {
    ToMapKeys(ps, |ps|, w);
    var j :| 0 <= j < |ps| && ps[j].key == w;
    SortedLookup(ps, j);
    assert PairMaybe(k, crc, ps[j], siglen);
  }

  /** A sound key admits every query its row satisfies. */
  lemma {:induction false} SoundAdmits(k: Key, crc: bytes -> nat, ps: seq<Pair>, q: Query, siglen: nat)
    requires siglen > 0 && Sized(k, siglen) && Sorted(ps) && Sound(k, crc, ps, siglen)
    requires Satisfies(ToMap(ps), q) && (q.QContains? ==> Sorted(q.tmpl))
    ensures Maybe(k, crc, q, siglen)
  {
    match q
    case QContains(tmpl) =>
      forall j | 0 <= j < |tmpl|
        ensures PairMaybe(k, crc, tmpl[j], siglen)
      {
        SortedLookup(tmpl, j);
        KeyHashed(k, crc, ps, tmpl[j].key, siglen);
      }
    case QExists(key) => KeyHashed(k, crc, ps, key, siglen);
    case QExistsAll(keys) =>
      forall j | 0 <= j < |keys| && keys[j].Text?
        ensures HasHash(k, crc, keys[j].text, siglen)
      {
        assert Text(keys[j].text) in keys;
        KeyHashed(k, crc, ps, keys[j].text, siglen);
      }
    case QExistsAny(keys) =>
      var w :| Text(w) in keys && w in ToMap(ps);
      KeyHashed(k, crc, ps, w, siglen);
      var j :| 0 <= j < |keys| && keys[j] == Text(w);
      assert keys[j].Text? && HasHash(k, crc, keys[j].text, siglen);
  }

  /** k has the bits of all strings of a row. */
  ghost predicate MapSound(k: Key, crc: bytes -> nat, m: Map, siglen: nat)
    requires siglen > 0 && Sized(k, siglen)
  {
    forall w :: w in m ==> HasHash(k, crc, w, siglen) && (m[w].Text? ==> HasHash(k, crc, m[w].text, siglen))
  }

  /** Some row whose bits k has satisfies the query. */
  ghost predicate SomeRow(k: Key, crc: bytes -> nat, q: Query, siglen: nat)
    requires siglen > 0 && Sized(k, siglen)
  {
    exists m: Map :: MapSound(k, crc, m, siglen) && Satisfies(m, q)
  }

  /** A row with these keys and no values. */
  function Keyed(keys: seq<Value>): (m: Map)
    ensures forall w :: w in m <==> Text(w) in keys
    ensures forall w :: w in m ==> m[w] == Null
  {
    if keys == [] then map[]
    else if keys[0].Null? then Keyed(keys[1..]) else Keyed(keys[1..])[keys[0].text := Null]
  }

  lemma {:induction false} RowFound(k: Key, crc: bytes -> nat, q: Query, siglen: nat, m: Map)
    requires siglen > 0 && Sized(k, siglen) && MapSound(k, crc, m, siglen) && Satisfies(m, q)
    ensures SomeRow(k, crc, q, siglen)
  {
  }

  lemma {:induction false} MaybeRow(k: Key, crc: bytes -> nat, q: Query, siglen: nat)
    requires siglen > 0 && Sized(k, siglen) && (q.QContains? ==> Sorted(q.tmpl)) && Maybe(k, crc, q, siglen)
    requires q.QExistsAny? ==> exists w :: Text(w) in q.keys
    ensures SomeRow(k, crc, q, siglen)
  {
    match q
    case QContains(tmpl) =>
      forall w | w in ToMap(tmpl)
        ensures HasHash(k, crc, w, siglen) && (ToMap(tmpl)[w].Text? ==> HasHash(k, crc, ToMap(tmpl)[w].text, siglen))
      {
        KeyHashed(k, crc, tmpl, w, siglen);
      }
      RowFound(k, crc, q, siglen, ToMap(tmpl));
    case QExists(key) => RowFound(k, crc, q, siglen, map[key := Null]);
    case QExistsAll(keys) =>
      forall w | w in Keyed(keys)
        ensures HasHash(k, crc, w, siglen)
      {
        var j :| 0 <= j < |keys| && keys[j] == Text(w);
        assert keys[j].Text?;
      }
      RowFound(k, crc, q, siglen, Keyed(keys));
    case QExistsAny(keys) =>
      var w :| Text(w) in keys && HasHash(k, crc, w, siglen);
      RowFound(k, crc, q, siglen, map[w := Null]);
  }

  lemma {:induction false} RowMaybe(k: Key, crc: bytes -> nat, q: Query, siglen: nat, m: Map)
    requires siglen > 0 && Sized(k, siglen) && (q.QContains? ==> Sorted(q.tmpl))
    requires MapSound(k, crc, m, siglen) && Satisfies(m, q)
    ensures Maybe(k, crc, q, siglen)
  {
    match q
    case QContains(tmpl) =>
      forall j | 0 <= j < |tmpl|
        ensures PairMaybe(k, crc, tmpl[j], siglen)
      {
        SortedLookup(tmpl, j);
        assert tmpl[j].key in m;
      }
    case QExists(key) =>
    case QExistsAll(keys) =>
      forall j | 0 <= j < |keys| && keys[j].Text?
        ensures HasHash(k, crc, keys[j].text, siglen)
      {
        assert Text(keys[j].text) in keys;
      }
    case QExistsAny(keys) =>
      var w :| Text(w) in keys && w in m;
      var j :| 0 <= j < |keys| && keys[j] == Text(w);
      assert keys[j].Text? && HasHash(k, crc, keys[j].text, siglen);
  }

  /**
    The answer is exactly whether some row with no other bits than the key's can
    satisfy the query.  Only an all-true key is not asked whether the array has a
    key at all.
   */
  lemma {:induction false} MaybeIff(k: Key, crc: bytes -> nat, q: Query, siglen: nat)
    requires siglen > 0 && Sized(k, siglen) && (q.QContains? ==> Sorted(q.tmpl))
    ensures Maybe(k, crc, q, siglen) <==>
              SomeRow(k, crc, q, siglen) || (k.AllTrue? && q.QExistsAny? && forall w :: Text(w) !in q.keys)
  {
    if SomeRow(k, crc, q, siglen) {
      var m: Map :| MapSound(k, crc, m, siglen) && Satisfies(m, q);
      RowMaybe(k, crc, q, siglen, m);
    }
    if Maybe(k, crc, q, siglen) && (q.QExistsAny? ==> exists w :: Text(w) in q.keys) { MaybeRow(k, crc, q, siglen); }
  }
}
