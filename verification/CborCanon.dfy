/** Lists of encoded values, the normal form of a value, and which values the decoder can return. */
module CborCanon {
  import opened Prelude
  import opened CborBytes
  import opened CborValue
  import opened CborParse

  /** The value as the decoder returns it: maps in wire order, an empty text map as an empty map. */
  function Normal(v: Cv): Cv {
    match v
    case Array(a) => Array(seq(|a|, i requires 0 <= i < |a| => Normal(a[i])))
    case Map(_) => MapOf(NormalEntries(v))
    case TextMap(_) => MapOf(NormalEntries(v))
    case _ => v
  }

  function NormalEntries(v: Cv): (es: seq<(Cv, Cv)>)
    requires IsMap(v)
    ensures |es| == Count(v)
    ensures Uniform(es, if v.Map? then IntKeys else TextKeys)
    decreases v, 0
  {
    var order := Order(v);
    seq(|order|, j requires 0 <= j < |order| => (KeyAt(v, order[j]), Normal(ValAt(v, order[j]))))
  }

  ghost predicate DistinctKeys(v: Cv)
    requires IsMap(v)
  {
    forall i, j | 0 <= i < j < Count(v) :: KeyAt(v, i) != KeyAt(v, j)
  }

  /** Distinct keys in every map, and nothing deeper than the nesting bound. */
  ghost predicate Decodable(v: Cv, d: nat) {
    && d <= MAX_NESTING_DEPTH
    && match v
       case Array(a) => forall i | 0 <= i < |a| :: Decodable(a[i], d + 1)
       case Map(m) => DistinctKeys(v) && forall i | 0 <= i < |m| :: Decodable(m[i].1, d + 1)
       case TextMap(t) => DistinctKeys(v) && forall i | 0 <= i < |t| :: Decodable(t[i].1, d + 1)
       case _ => true
  }

  /** A map can be decoded exactly if its keys differ and its values can, one level deeper. */
  lemma DecodableMap(v: Cv, d: nat)
    requires IsMap(v)
    ensures Decodable(v, d) <==>
      d <= MAX_NESTING_DEPTH && DistinctKeys(v) && forall i | 0 <= i < Count(v) :: Decodable(ValAt(v, i), d + 1)
  {
    hide DistinctKeys;
    if v.Map? {
      assert forall i | 0 <= i < Count(v) :: ValAt(v, i) == v.m[i].1;
    } else {
      assert forall i | 0 <= i < Count(v) :: ValAt(v, i) == v.t[i].1;
    }
  }

  /** Entries under integer keys, as wire values and as pairs. */
  ghost predicate SameInts(es: seq<(Cv, Cv)>, m: seq<(U64, Cv)>) {
    |m| == |es| && forall k | 0 <= k < |es| :: es[k] == (Uint(m[k].0), m[k].1)
  }

  lemma MapOfInts(es: seq<(Cv, Cv)>, m: seq<(U64, Cv)>)
    requires SameInts(es, m)
    ensures Uniform(es, IntKeys) && MapOf(es) == Map(m)
  {
    assert MapOf(es).m == m;
  }

  // ---------------------------------------------------------------- encodings of lists

  function EncodeAll(vs: seq<Cv>): Bytes {
    if vs == [] then [] else Encode(vs[0]) + EncodeAll(vs[1..])
  }

  function EncodePairs(es: seq<(Cv, Cv)>): Bytes {
    if es == [] then [] else Encode(es[0].0) + Encode(es[0].1) + EncodePairs(es[1..])
  }

  /** The entries of a map in a given order. */
  function Arranged(v: Cv, order: seq<nat>): (es: seq<(Cv, Cv)>)
    requires IsMap(v) && forall j | 0 <= j < |order| :: order[j] < Count(v)
  {
    seq(|order|, j requires 0 <= j < |order| => (KeyAt(v, order[j]), ValAt(v, order[j])))
  }

  lemma {:induction false} ItemsAreAll(v: Cv, i: nat)
    requires v.Array? && i <= |v.a|
    ensures EncodeItems(v, i) == EncodeAll(v.a[i..])
    decreases |v.a| - i
  {
    if i < |v.a| {
      ItemsAreAll(v, i + 1);
      assert v.a[i..][1..] == v.a[i + 1..];
    }
  }

  lemma {:induction false} EntriesArePairs(v: Cv, order: seq<nat>)
    requires IsMap(v) && forall j | 0 <= j < |order| :: order[j] < Count(v)
    ensures EncodeEntries(v, order) == EncodePairs(Arranged(v, order))
  {
    if order != [] {
      EntriesArePairs(v, order[1..]);
      assert Arranged(v, order)[1..] == Arranged(v, order[1..]);
    }
  }

  /** An array is its head and its items. */
  lemma EncodeArray(a: seq<Cv>)
    ensures Encode(Array(a)) == Head(4, |a|) + EncodeAll(a)
  {
    ItemsAreAll(Array(a), 0);
    assert a[0..] == a;
  }

  /** A map is its head and its entries in wire order. */
  lemma EncodeMap(v: Cv)
    requires IsMap(v)
    ensures Encode(v) == Head(5, Count(v)) + EncodePairs(Arranged(v, Order(v)))
  {
    EntriesArePairs(v, Order(v));
  }

  // ---------------------------------------------------------------- maps already in wire order

  ghost predicate StrictlyAscending(keys: seq<Bytes>) {
    forall i, j | 0 <= i < j < |keys| :: Lt(keys[i], keys[j])
  }

  function Identity(i: nat, n: nat): (r: seq<nat>)
    requires i <= n
    ensures |r| == n - i
  {
    seq(n - i, j requires 0 <= j < n - i => i + j)
  }

  lemma InsertFirst(keys: seq<Bytes>, i: nat, order: seq<nat>)
    requires i < |keys| && forall j | 0 <= j < |order| :: order[j] < |keys|
    requires order == [] || !Lt(keys[order[0]], keys[i])
    ensures Insert(keys, i, order) == [i] + order
  {
  }

  /** Keys in wire order, equal ones allowed. */
  ghost predicate NonDescending(keys: seq<Bytes>) {
    forall i, j | 0 <= i < j < |keys| :: !Lt(keys[j], keys[i])
  }

  lemma StrictIsNonDescending(keys: seq<Bytes>)
    requires StrictlyAscending(keys)
    ensures NonDescending(keys)
  {
    hide Lt;
    forall i, j | 0 <= i < j < |keys|
      ensures !Lt(keys[j], keys[i])
    {
      LtAsymmetric(keys[i], keys[j]);
    }
  }

  /** Sorting leaves keys that are in order where they are. */
  lemma {:induction false} OrderOfAscending(keys: seq<Bytes>, i: nat)
    requires i <= |keys| && NonDescending(keys)
    ensures OrderFrom(keys, i) == Identity(i, |keys|)
    decreases |keys| - i
  {
    hide Lt, Insert;
    if i < |keys| {
      OrderOfAscending(keys, i + 1);
      if i + 1 < |keys| {
        assert OrderFrom(keys, i + 1)[0] == i + 1;
      }
      InsertFirst(keys, i, OrderFrom(keys, i + 1));
      assert [i] + Identity(i + 1, |keys|) == Identity(i, |keys|);
    }
  }

  /** A map whose keys ascend encodes its entries as they stand. */
  lemma EncodeAscending(es: seq<(Cv, Cv)>)
    requires Uniform(es, IntKeys) || Uniform(es, TextKeys)
    requires NonDescending(Keys(MapOf(es)))
    ensures Order(MapOf(es)) == Identity(0, |es|)
    ensures Encode(MapOf(es)) == Head(5, |es|) + EncodePairs(es)
  {
    hide Lt, Encode, EncodePairs, OrderFrom, MapOf, Keys, KeyAt, ValAt;
    var v := MapOf(es);
    OrderOfAscending(Keys(v), 0);
    EncodeMap(v);
    assert Arranged(v, Identity(0, |es|)) == es;
  }

  /** Equal encodings of keys mean equal keys. */
  lemma KeyBytesInjective(v: Cv, i: nat, j: nat)
    requires IsMap(v) && i < Count(v) && j < Count(v)
    ensures KeyBytes(v, i) == Encode(KeyAt(v, i))
    ensures v.TextMap? ==> |v.t[i].0| <= U64_MAX && |v.t[j].0| <= U64_MAX ==>
      (KeyBytes(v, i) == KeyBytes(v, j) <==> KeyAt(v, i) == KeyAt(v, j))
    ensures v.Map? ==> (KeyBytes(v, i) == KeyBytes(v, j) <==> KeyAt(v, i) == KeyAt(v, j))
  {
    if v.Map? {
      HeadOrder(v.m[i].0, v.m[j].0);
      HeadOrder(v.m[j].0, v.m[i].0);
      LtIrreflexive(KeyBytes(v, i));
    } else if |v.t[i].0| <= U64_MAX && |v.t[j].0| <= U64_MAX && KeyBytes(v, i) == KeyBytes(v, j) {
      var s, t := v.t[i].0, v.t[j].0;
      HeadInjective(3, |s|, |t|, s, t);
    }
  }

  /** A head is read off unambiguously, whatever follows it. */
  lemma HeadInjective(major: nat, u: U64, v: U64, x: Bytes, y: Bytes)
    requires major < 8 && Head(major, u) + x == Head(major, v) + y
    ensures u == v && x == y
  {
    var h, k := Head(major, u), Head(major, v);
    assert (h + x)[0] == 32 * major + InfoOf(u) && (k + y)[0] == 32 * major + InfoOf(v);
    assert |h| == |k|;
    assert h == (h + x)[..|h|] && k == (k + y)[..|k|];
    assert x == (h + x)[|h|..] && y == (k + y)[|k|..];
    var w := Width(InfoOf(u));
    assert h[1..] == BigEndian(u, w) && k[1..] == BigEndian(v, w);
    Pow256Values();
    if w > 0 {
      BigEndianRead(u, w);
      BigEndianRead(v, w);
    }
  }
}
