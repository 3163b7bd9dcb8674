/** Decoder exactness: the decoder accepts a byte string only if it is the encoding of what it returns. */
module CborExact {
  import opened Prelude
  import opened CborBytes
  import opened CborValue
  import opened CborParse
  import opened CborCanon

  /** The values the decoder returns. */
  ghost predicate Canonical(v: Cv, d: nat) {
    Fits(v) && Decodable(v, d) && Normal(v) == v
  }

  function KeyEncodings(es: seq<(Cv, Cv)>): (ks: seq<Bytes>)
    ensures |ks| == |es|
  {
    seq(|es|, i requires 0 <= i < |es| => Encode(es[i].0))
  }

  /** A head that was read is the shortest head for what was read. */
  lemma ArgumentExact(b: Bytes, p: nat)
    requires p < |b|
    requires Argument(b, p + 1, b[p] % 32).Ok?
    ensures var r := Argument(b, p + 1, b[p] % 32).value;
      At(b, p, Head(b[p] / 32, r.val)) && r.pos == p + |Head(b[p] / 32, r.val)|
  {
    hide FromBigEndian, BigEndian, Pow256;
    var ai := b[p] % 32;
    if ai < 24 {
      NoBytes(b[p] / 32, ai);
      FirstOfSpan(b, p, p + 1);
    } else {
      var w := Width(ai);
      assert p + 1 + w <= |b|;
      FirstOfSpan(b, p, p + 1 + w);
      BigEndianWrite(b[p + 1..p + 1 + w]);
    }
  }

  lemma NoBytes(major: nat, arg: nat)
    requires major < 8 && arg < 24
    ensures Head(major, arg) == [32 * major + arg]
  {
  }

  /** A shortest head is read back as what was written. */
  lemma HeadRead(b: Bytes, p: nat, major: nat, arg: U64)
    requires major < 8 && At(b, p, Head(major, arg))
    ensures p < |b| && b[p] / 32 == major && b[p] % 32 == InfoOf(arg)
    ensures Argument(b, p + 1, b[p] % 32) == Ok(Parsed(arg, p + |Head(major, arg)|))
  {
    var h := Head(major, arg);
    hide FromBigEndian, BigEndian, Pow256;
    assert b[p] == b[p..p + |h|][0] == h[0];
    var w := Width(InfoOf(arg));
    assert b[p + 1..p + 1 + w] == b[p..p + |h|][1..] == h[1..] == BigEndian(arg, w);
    Pow256Values();
    if w > 0 {
      BigEndianRead(arg, w);
    }
  }

  /** Every accepted value stands in the input exactly as its encoding. */
  lemma {:induction false} ValueExact(b: Bytes, p: nat, d: nat)
    requires p <= |b| && Value(b, p, d).Ok?
    ensures var r := Value(b, p, d).value;
      Canonical(r.val, d) && At(b, p, Encode(r.val)) && r.pos == p + |Encode(r.val)|
    decreases |b| - p, 0
  {
    if b[p] / 32 == 7 {
      assert b[p..p + 1] == [b[p]];
    } else {
      ArgumentExact(b, p);
      var r := Argument(b, p + 1, b[p] % 32).value;
      BodyExact(b, p, d, b[p] / 32, r.val, r.pos);
    }
  }

  lemma {:induction false} BodyExact(b: Bytes, p: nat, d: nat, major: nat, n: U64, q: nat)
    requires p < q <= |b| && major < 7 && d <= MAX_NESTING_DEPTH
    requires At(b, p, Head(major, n)) && q == p + |Head(major, n)|
    requires Body(b, p, d, major, n, q).Ok?
    ensures var r := Body(b, p, d, major, n, q).value;
      Canonical(r.val, d) && At(b, p, Encode(r.val)) && r.pos == p + |Encode(r.val)|
    decreases |b| - q, 2
  {
    hide Encode, Canonical, At, Head, Items, Entries, EncodeAll, EncodePairs, MapOf, StrictlyAscending;
    if major < 4 {
      LeafExact(b, p, d, major, n, q);
    } else if major == 4 {
      ItemsExact(b, q, d + 1, n);
      ArrayExact(b, p, d, Items(b, q, d + 1, n).value.val);
    } else if major == 5 {
      EntriesExact(b, q, d + 1, n, None, None);
      MapExact(b, p, d, Entries(b, q, d + 1, n, None, None).value.val);
    }
  }

  /** A head and its items are an array. */
  lemma ArrayExact(b: Bytes, p: nat, d: nat, vs: seq<Cv>)
    requires d <= MAX_NESTING_DEPTH && |vs| <= U64_MAX
    requires At(b, p, Head(4, |vs|)) && At(b, p + |Head(4, |vs|)|, EncodeAll(vs))
    requires forall i | 0 <= i < |vs| :: Canonical(vs[i], d + 1)
    ensures Canonical(Array(vs), d) && At(b, p, Encode(Array(vs)))
    ensures |Encode(Array(vs))| == |Head(4, |vs|)| + |EncodeAll(vs)|
  {
    hide Encode, Head, EncodeAll, Canonical, At;
    EncodeArray(vs);
    AtConcat(b, p, Head(4, |vs|), EncodeAll(vs));
    ArrayCanonical(vs, d);
  }

  /** A head and its entries are a map. */
  lemma MapExact(b: Bytes, p: nat, d: nat, es: seq<(Cv, Cv)>)
    requires d <= MAX_NESTING_DEPTH && |es| <= U64_MAX
    requires At(b, p, Head(5, |es|)) && At(b, p + |Head(5, |es|)|, EncodePairs(es))
    requires Uniform(es, IntKeys) || Uniform(es, TextKeys)
    requires forall i | 0 <= i < |es| :: Canonical(es[i].0, d + 1) && Canonical(es[i].1, d + 1)
    requires StrictlyAscending(KeyEncodings(es))
    ensures Canonical(MapOf(es), d) && At(b, p, Encode(MapOf(es)))
    ensures |Encode(MapOf(es))| == |Head(5, |es|)| + |EncodePairs(es)|
  {
    hide Encode, Head, EncodePairs, Canonical, At, MapOf, StrictlyAscending;
    MapCanonical(es, d);
    AtConcat(b, p, Head(5, |es|), EncodePairs(es));
  }

  lemma AtRead(b: Bytes, q: nat, n: nat)
    requires q + n <= |b|
    ensures At(b, q, b[q..q + n])
  {
  }

  lemma LeafExact(b: Bytes, p: nat, d: nat, major: nat, n: U64, q: nat)
    requires p < q <= |b| && major < 4 && d <= MAX_NESTING_DEPTH
    requires At(b, p, Head(major, n)) && q == p + |Head(major, n)|
    requires Body(b, p, d, major, n, q).Ok?
    ensures var r := Body(b, p, d, major, n, q).value;
      Canonical(r.val, d) && At(b, p, Encode(r.val)) && r.pos == p + |Encode(r.val)|
  {
    hide Head, Items, Entries, ValidUtf8, At;
    if major >= 2 {
      AtRead(b, q, n);
      AtConcat(b, p, Head(major, n), b[q..q + n]);
    }
  }

  lemma {:induction false} ItemsExact(b: Bytes, p: nat, d: nat, n: nat)
    requires p <= |b| && Items(b, p, d, n).Ok?
    ensures var r := Items(b, p, d, n).value; At(b, p, EncodeAll(r.val)) && r.pos == p + |EncodeAll(r.val)|
    ensures forall i | 0 <= i < n :: Canonical(Items(b, p, d, n).value.val[i], d)
    decreases |b| - p, 1
  {
    hide Encode, Normal, Fits, Decodable, Value;
    if n > 0 {
      var q := Value(b, p, d).value;
      ValueExact(b, p, d);
      ItemsExact(b, q.pos, d, n - 1);
      var rest := Items(b, q.pos, d, n - 1).value.val;
      AtConcat(b, p, Encode(q.val), EncodeAll(rest));
      assert ([q.val] + rest)[1..] == rest;
    }
  }

  lemma {:induction false} EntriesExact(b: Bytes, p: nat, d: nat, n: nat, prev: Option<Bytes>, kind: Option<KeyKind>)
    requires p <= |b| && Entries(b, p, d, n, prev, kind).Ok?
    ensures var r := Entries(b, p, d, n, prev, kind).value;
      At(b, p, EncodePairs(r.val)) && r.pos == p + |EncodePairs(r.val)|
    ensures var es := Entries(b, p, d, n, prev, kind).value.val;
      && (forall i | 0 <= i < n :: Canonical(es[i].0, d) && Canonical(es[i].1, d))
      && StrictlyAscending(KeyEncodings(es))
      && (prev.Some? ==> forall i | 0 <= i < n :: Lt(prev.value, KeyEncodings(es)[i]))
    decreases |b| - p, 1
  {
    hide Encode, Lt, Normal, Fits, Decodable, Value, Entries;
    if n == 0 {
      EntriesNone(b, p, d, prev, kind);
    } else {
      var key, val, rest := EntriesStep(b, p, d, n, prev, kind);
      ValueExact(b, p, d);
      ValueExact(b, key.pos, d);
      EntriesExact(b, val.pos, d, n - 1, Some(b[p..key.pos]), KindOf(key.val));
      var es := [(key.val, val.val)] + rest.val;
      assert es[1..] == rest.val;
      PairsAt(b, p, key.val, val.val, rest.val);
      KeysPrepend(key.val, val.val, rest.val, prev);
      forall i | 0 <= i < n
        ensures Canonical(es[i].0, d) && Canonical(es[i].1, d)
      {
        if i > 0 {
          assert es[i] == rest.val[i - 1];
        }
      }
    }
  }

  lemma EntriesNone(b: Bytes, p: nat, d: nat, prev: Option<Bytes>, kind: Option<KeyKind>)
    requires p <= |b|
    ensures Entries(b, p, d, 0, prev, kind) == Ok(Parsed([], p))
  {
  }

  /** What accepting one more entry means. */
  lemma EntriesStep(b: Bytes, p: nat, d: nat, n: nat, prev: Option<Bytes>, kind: Option<KeyKind>)
    returns (key: Parsed<Cv>, val: Parsed<Cv>, rest: Parsed<seq<(Cv, Cv)>>)
    requires p <= |b| && n > 0 && Entries(b, p, d, n, prev, kind).Ok?
    ensures p < key.pos < val.pos <= |b|
    ensures Value(b, p, d) == Ok(key) && Value(b, key.pos, d) == Ok(val)
    ensures prev.Some? ==> !Lt(b[p..key.pos], prev.value) && b[p..key.pos] != prev.value
    ensures Entries(b, val.pos, d, n - 1, Some(b[p..key.pos]), KindOf(key.val)) == Ok(rest)
    ensures Entries(b, p, d, n, prev, kind) == Ok(Parsed([(key.val, val.val)] + rest.val, rest.pos))
  {
    hide Lt;
    key := Value(b, p, d).value;
    val := Value(b, key.pos, d).value;
    rest := Entries(b, val.pos, d, n - 1, Some(b[p..key.pos]), KindOf(key.val)).value;
  }

  lemma PairsAt(b: Bytes, p: nat, key: Cv, val: Cv, rest: seq<(Cv, Cv)>)
    ensures At(b, p, EncodePairs([(key, val)] + rest)) <==>
      && At(b, p, Encode(key)) && At(b, p + |Encode(key)|, Encode(val))
      && At(b, p + |Encode(key)| + |Encode(val)|, EncodePairs(rest))
    ensures |EncodePairs([(key, val)] + rest)| == |Encode(key)| + |Encode(val)| + |EncodePairs(rest)|
  {
    hide Encode, At;
    assert ([(key, val)] + rest)[1..] == rest;
    AtConcat(b, p, Encode(key), Encode(val));
    AtConcat(b, p, Encode(key) + Encode(val), EncodePairs(rest));
  }

  /** A key above its predecessor and below all later keys extends the ascending run. */
  lemma KeysPrepend(key: Cv, val: Cv, rest: seq<(Cv, Cv)>, prev: Option<Bytes>)
    requires StrictlyAscending(KeyEncodings(rest))
    requires forall i | 0 <= i < |rest| :: Lt(Encode(key), KeyEncodings(rest)[i])
    requires prev.Some? ==> !Lt(Encode(key), prev.value) && Encode(key) != prev.value
    ensures var ks := KeyEncodings([(key, val)] + rest);
      StrictlyAscending(ks) && (prev.Some? ==> forall i | 0 <= i < |ks| :: Lt(prev.value, ks[i]))
  {
    hide Lt, Encode;
    var ks := KeyEncodings([(key, val)] + rest);
    assert ks == [Encode(key)] + KeyEncodings(rest);
    if prev.Some? {
      LtTotal(prev.value, Encode(key));
      forall i | 0 < i < |ks|
        ensures Lt(prev.value, ks[i])
      {
        LtTransitive(prev.value, Encode(key), ks[i]);
      }
    }
  }

  lemma ArrayCanonical(vs: seq<Cv>, d: nat)
    requires d <= MAX_NESTING_DEPTH && |vs| <= U64_MAX
    requires forall i | 0 <= i < |vs| :: Canonical(vs[i], d + 1)
    ensures Canonical(Array(vs), d)
  {
    assert Normal(Array(vs)).a == vs;
  }

  /** Canonical entries under strictly ascending keys make a canonical map, encoded as it stands. */
  lemma MapCanonical(es: seq<(Cv, Cv)>, d: nat)
    requires d <= MAX_NESTING_DEPTH && |es| <= U64_MAX
    requires Uniform(es, IntKeys) || Uniform(es, TextKeys)
    requires forall i | 0 <= i < |es| :: Canonical(es[i].0, d + 1) && Canonical(es[i].1, d + 1)
    requires StrictlyAscending(KeyEncodings(es))
    ensures Canonical(MapOf(es), d)
    ensures Encode(MapOf(es)) == Head(5, |es|) + EncodePairs(es)
  {
    var v := MapOf(es);
    MapKeys(es);
    StrictIsNonDescending(KeyEncodings(es));
    EncodeAscending(es);
    MapFits(es);
    MapDecodable(es, d);
    MapNormal(es);
  }

  lemma MapKeys(es: seq<(Cv, Cv)>)
    requires Uniform(es, IntKeys) || Uniform(es, TextKeys)
    ensures Keys(MapOf(es)) == KeyEncodings(es)
  {
    var v := MapOf(es);
    forall i | 0 <= i < |es|
      ensures Keys(v)[i] == Encode(es[i].0)
    {
      KeyBytesInjective(v, i, i);
    }
  }

  lemma MapFits(es: seq<(Cv, Cv)>)
    requires Uniform(es, IntKeys) || Uniform(es, TextKeys)
    requires |es| <= U64_MAX
    requires forall i | 0 <= i < |es| :: Fits(es[i].0) && Fits(es[i].1)
    ensures Fits(MapOf(es))
  {
    var v := MapOf(es);
    forall i | 0 <= i < |es|
      ensures Fits(ValAt(v, i)) && (v.TextMap? ==> |v.t[i].0| <= U64_MAX)
    {
      assert KeyAt(v, i) == es[i].0;
    }
  }

  lemma MapDecodable(es: seq<(Cv, Cv)>, d: nat)
    requires d <= MAX_NESTING_DEPTH
    requires Uniform(es, IntKeys) || Uniform(es, TextKeys)
    requires forall i | 0 <= i < |es| :: Decodable(es[i].1, d + 1)
    requires StrictlyAscending(KeyEncodings(es))
    ensures Decodable(MapOf(es), d)
  {
    hide Lt;
    var v := MapOf(es);
    forall i, j | 0 <= i < j < |es|
      ensures KeyAt(v, i) != KeyAt(v, j)
    {
      assert Lt(KeyEncodings(es)[i], KeyEncodings(es)[j]);
      LtIrreflexive(Encode(es[i].0));
    }
    forall i | 0 <= i < |es|
      ensures Decodable(ValAt(v, i), d + 1)
    {
    }
  }

  lemma MapNormal(es: seq<(Cv, Cv)>)
    requires Uniform(es, IntKeys) || Uniform(es, TextKeys)
    requires Order(MapOf(es)) == Identity(0, |es|)
    requires forall i | 0 <= i < |es| :: Normal(es[i].1) == es[i].1
    ensures Normal(MapOf(es)) == MapOf(es)
  {
    var v := MapOf(es);
    assert NormalEntries(v) == es;
  }

  /** Decoder exactness, and with it that no value has two accepted encodings. */
  lemma DecodeExact(b: Bytes, v: Cv)
    requires Decode(b) == Ok(v)
    ensures Encode(v) == b && Canonical(v, 0)
  {
    ValueExact(b, 0, 0);
    assert b[0..|b|] == b;
  }
}
